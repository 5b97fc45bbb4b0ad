/** The expense CLI: the fixed categories and budgets, adding an expense
    with its fallbacks, the category total, the monthly listing and the
    budget check. */
module ExpenseTracker {

  import opened Wrappers
  import opened Text
  import opened Dates
  import opened Expenses
  import Seqs

  const Categories: seq<string> := ["Food", "Transport", "Entertainment", "Bills", "Other"]

  /** `CATEGORY_BUDGETS`, index for index with `Categories`. */
  const Budgets: seq<real> := [300.0, 150.0, 200.0, 400.0, 100.0]

  /** The expense list together with the next value of `Expense.NEXT_ID`. */
  datatype Tracker = Tracker(expenses: seq<Expense>, nextId: int)

  const Empty: Tracker := Tracker([], FirstId)

  ghost predicate IdsConsecutive(es: seq<Expense>) {
    forall i :: 0 <= i < |es| ==> es[i].id == FirstId + i
  }

  /** Every tracker the CLI can reach: consecutive ids, positive amounts and
      only the five fixed categories. */
  ghost predicate Valid(tr: Tracker) {
    && tr.nextId == FirstId + |tr.expenses|
    && IdsConsecutive(tr.expenses)
    && (forall i :: 0 <= i < |tr.expenses| ==> tr.expenses[i].amount > 0.0 && tr.expenses[i].category in Categories)
  }

  /** What `readDouble` accepts here. */
  predicate AmountAccepted(v: real) { v > 0.0 }

  /** `readDouble`: zero and negative numbers are refused like unparsable
      text, so the amount is the first entry that parses to a value above 0. */
  function ReadAmount(entries: seq<Option<real>>): (r: Option<real>)
    ensures r.Some? ==> r.value > 0.0
    ensures r.None? <==> forall i :: 0 <= i < |entries| ==> entries[i].None? || entries[i].value <= 0.0
    ensures r.Some? ==>
              exists i :: (0 <= i < |entries| && entries[i] == r &&
                           forall j :: 0 <= j < i ==> entries[j].None? || entries[j].value <= 0.0)
  {
    Seqs.FirstAccepted(entries, AmountAccepted)
  }

  /** The category fallback of `addExpense`: the trimmed line if it is
      exactly (case-sensitively) one of the five names, "Other" otherwise. */
  function NormalizeCategory(line: string): (r: string)
    ensures r in Categories
    ensures Trim(line) in Categories ==> r == Trim(line)
    ensures Trim(line) !in Categories ==> r == "Other"
  {
    if Trim(line) in Categories then Trim(line) else "Other"
  }

  /** The date fallback of `addExpense`: today for a blank line; otherwise
      the parse result of the trimmed line (None when `LocalDate.parse`
      throws), today again if it failed. */
  function ChooseDate(dateLine: string, parsed: Option<Date>, today: Date): (r: Date)
    ensures Trim(dateLine) == [] ==> r == today
    ensures Trim(dateLine) != [] && parsed.Some? ==> r == parsed.value
    ensures parsed.None? ==> r == today
  {
    if Trim(dateLine) == [] then today else parsed.GetOr(today)
  }

  /** `addExpense`: the constructor gets the amount, the normalised
      category, the chosen date and the trimmed description. The category
      is never blank, so the amount alone decides. */
  function AddExpense(tr: Tracker, amount: real, categoryLine: string, dateLine: string,
                      parsed: Option<Date>, descLine: string, today: Date): (r: Result<Tracker, ExpenseError>)
    ensures r.Failure? <==> amount <= 0.0
    ensures r.Failure? ==> r.error == NonPositiveAmount
    ensures r.Success? ==>
              && r.value.expenses == tr.expenses + [Expense(tr.nextId, amount, NormalizeCategory(categoryLine),
                                                            ChooseDate(dateLine, parsed, today), Trim(descLine))]
              && r.value.nextId == tr.nextId + 1
  {
    var category := NormalizeCategory(categoryLine);
    assert category[0] in Categories[0] + Categories[1] + Categories[2] + Categories[3] + Categories[4];
    assert !IsBlank(category);
    match NewExpense(tr.nextId, amount, Some(category), Some(ChooseDate(dateLine, parsed, today)), Some(Trim(descLine)), today)
    case Failure(e) => Failure(e)
    case Success(x) => Success(Tracker(tr.expenses + [x], tr.nextId + 1))
  }

  lemma AddExpenseKeepsValid(tr: Tracker, amount: real, categoryLine: string, dateLine: string,
                             parsed: Option<Date>, descLine: string, today: Date)
    requires Valid(tr)
    ensures AddExpense(tr, amount, categoryLine, dateLine, parsed, descLine, today).Success? ==>
              Valid(AddExpense(tr, amount, categoryLine, dateLine, parsed, descLine, today).value)
  {
    var r := AddExpense(tr, amount, categoryLine, dateLine, parsed, descLine, today);
    if r.Success? {
      var es := r.value.expenses;
      forall k | 0 <= k < |es| ensures es[k].id == FirstId + k && es[k].amount > 0.0 && es[k].category in Categories {
        if k < |tr.expenses| {
          assert es[k] == tr.expenses[k];
        }
      }
    }
  }

  /** The query of `categoryTotal` and `budgetStatus`: equal ignoring case. */
  function InCategory(cat: string): Expense -> bool {
    (e: Expense) => EqualsIgnoreCase(e.category, cat)
  }

  /** The sum of the amounts, in list order. */
  function SumAmounts(es: seq<Expense>): real {
    if |es| == 0 then 0.0 else SumAmounts(es[..|es| - 1]) + es[|es| - 1].amount
  }

  lemma {:induction false} SumAmountsAppend(a: seq<Expense>, b: seq<Expense>)
    ensures SumAmounts(a + b) == SumAmounts(a) + SumAmounts(b)
    decreases |b|
  {
    if |b| == 0 {
      assert a + b == a;
    } else {
      assert (a + b)[..|a + b| - 1] == a + b[..|b| - 1];
      SumAmountsAppend(a, b[..|b| - 1]);
    }
  }

  /** The amount spent in a category: the sum over exactly the matching
      expenses. */
  function TotalFor(es: seq<Expense>, cat: string): real {
    SumAmounts(Seqs.Filter(es, InCategory(cat)))
  }

  lemma TotalForSnoc(es: seq<Expense>, e: Expense, cat: string)
    ensures TotalFor(es + [e], cat) == TotalFor(es, cat) + (if EqualsIgnoreCase(e.category, cat) then e.amount else 0.0)
  {
    Seqs.FilterAppend(es, [e], InCategory(cat));
    Seqs.FilterSingleton(e, InCategory(cat));
    var f := Seqs.Filter(es, InCategory(cat));
    if EqualsIgnoreCase(e.category, cat) {
      SumAmountsAppend(f, [e]);
      assert SumAmounts([e]) == e.amount by {
        assert [e][..0] == [];
      }
    } else {
      assert f + [] == f;
    }
  }

  /** `categoryTotal`, as the stream sums it, one expense at a time. */
  method CategoryTotal(es: seq<Expense>, categoryLine: string) returns (total: real)
    ensures total == TotalFor(es, Trim(categoryLine))
  {
    var cat := Trim(categoryLine);
    total := 0.0;
    var i := 0;
    while i < |es|
      invariant 0 <= i <= |es|
      invariant total == TotalFor(es[..i], cat)
    {
      assert es[..i + 1] == es[..i] + [es[i]];
      TotalForSnoc(es[..i], es[i], cat);
      if EqualsIgnoreCase(es[i].category, cat) {
        total := total + es[i].amount;
      }
      i := i + 1;
    }
    assert es[..i] == es;
  }

  /** With positive amounts, a category total is never negative, is 0 when
      nothing matches, and is positive as soon as something does. */
  lemma {:induction false} TotalForSign(es: seq<Expense>, cat: string)
    requires forall i :: 0 <= i < |es| ==> es[i].amount > 0.0
    ensures TotalFor(es, cat) >= 0.0
    ensures TotalFor(es, cat) == 0.0 <==> forall i :: 0 <= i < |es| ==> !EqualsIgnoreCase(es[i].category, cat)
    decreases |es|
  {
    if |es| > 0 {
      var init := es[..|es| - 1];
      var last := es[|es| - 1];
      assert es == init + [last];
      TotalForSign(init, cat);
      TotalForSnoc(init, last, cat);
      var hit := EqualsIgnoreCase(last.category, cat);
      assert TotalFor(es, cat) == 0.0 <==> TotalFor(init, cat) == 0.0 && !hit;
      assert (forall i :: 0 <= i < |es| ==> !EqualsIgnoreCase(es[i].category, cat)) <==>
             (forall i :: 0 <= i < |init| ==> !EqualsIgnoreCase(init[i].category, cat)) && !hit;
    }
  }

  /** The criterion of `monthlyExpenses`. */
  function InMonth(month: int, year: int): Expense -> bool {
    (e: Expense) => e.date.month == month && e.date.year == year
  }

  /** `monthlyExpenses`: exactly the expenses dated in that month and year,
      in insertion order. */
  function MonthlyExpenses(es: seq<Expense>, month: int, year: int): (r: seq<Expense>)
    ensures Seqs.Selects(r, es, InMonth(month, year))
  {
    Seqs.Filter(es, InMonth(month, year))
  }

  datatype BudgetReport = UnknownCategory | Report(spent: real, budget: real, overBudget: bool)

  /** `budgetStatus`: a query that is not exactly one of the five names is
      unknown (even though the total itself ignores case); otherwise the
      total is compared with the budget at the same index, over budget
      only when strictly greater. */
  function BudgetStatus(es: seq<Expense>, categoryLine: string): (r: BudgetReport)
    ensures r.UnknownCategory? <==> Trim(categoryLine) !in Categories
    ensures r.Report? ==>
              exists i :: (0 <= i < |Categories| && Categories[i] == Trim(categoryLine) && r.budget == Budgets[i])
    ensures r.Report? ==> r.spent == TotalFor(es, Trim(categoryLine))
    ensures r.Report? ==> (r.overBudget <==> r.spent > r.budget)
  {
    var cat := Trim(categoryLine);
    match Seqs.FirstIndex(Categories, (c: string) => c == cat)
    case None => UnknownCategory
    case Some(i) =>
      var total := TotalFor(es, cat);
      Report(total, Budgets[i], total > Budgets[i])
  }

  /** Every budget is positive. */
  lemma BudgetsPositive()
    ensures forall i :: 0 <= i < |Budgets| ==> Budgets[i] > 0.0
  {
  }

  /** Nothing spent is never over budget. */
  lemma EmptyTrackerWithinBudget(categoryLine: string)
    ensures BudgetStatus([], categoryLine).Report? ==> !BudgetStatus([], categoryLine).overBudget
  {
    var cat := Trim(categoryLine);
    assert TotalFor([], cat) == 0.0 by {
      assert Seqs.Filter([], InCategory(cat)) == [];
    }
    BudgetsPositive();
  }
}
