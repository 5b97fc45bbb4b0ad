/** A single expense: construction checks and defaults. The record is
    immutable, as every field of the source class is final. */
module Expenses {

  import opened Wrappers
  import opened Text
  import opened Dates

  const FirstId: int := 1

  datatype Expense = Expense(id: int, amount: real, category: string, date: Date, description: string)

  datatype ExpenseError = NonPositiveAmount | CategoryRequired

  /** The constructor: a positive amount, then a present, non-blank
      category. A missing date becomes `today` (the source reads the clock)
      and a missing description the empty string. The id is taken only on
      success. */
  function NewExpense(nextId: int, amount: real, category: Option<string>, date: Option<Date>,
                      description: Option<string>, today: Date): (r: Result<Expense, ExpenseError>)
    ensures amount <= 0.0 ==> r == Failure(NonPositiveAmount)
    ensures amount > 0.0 && IsNullOrBlank(category) ==> r == Failure(CategoryRequired)
    ensures r.Success? <==> amount > 0.0 && !IsNullOrBlank(category)
    ensures r.Success? ==>
              && r.value.id == nextId && r.value.amount == amount && r.value.category == category.value
              && r.value.date == (if date.Some? then date.value else today)
              && r.value.description == (if description.Some? then description.value else "")
  {
    if amount <= 0.0 then Failure(NonPositiveAmount)
    else if IsNullOrBlank(category) then Failure(CategoryRequired)
    else Success(Expense(nextId, amount, category.value, date.GetOr(today), description.GetOr("")))
  }
}
