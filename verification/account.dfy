/** A bank account: construction, deposit and withdrawal. */
module Accounts {

  import opened Wrappers

  /** `NEXT_ACC_NUMBER` starts here. */
  const FirstNumber: int := 1001

  datatype Account = Account(number: int, holder: string, balance: real)

  datatype BankError = NegativeInitialBalance | NonPositiveAmount | InsufficientFunds | EmptyName | NotFound

  /** The constructor: a negative opening balance is refused; the number is
      taken only on success. */
  function NewAccount(nextNumber: int, holder: string, initial: real): (r: Result<Account, BankError>)
    ensures r.Failure? <==> initial < 0.0
    ensures r.Failure? ==> r.error == NegativeInitialBalance
    ensures r.Success? ==> r.value == Account(nextNumber, holder, initial) && r.value.balance >= 0.0
  {
    if initial < 0.0 then Failure(NegativeInitialBalance) else Success(Account(nextNumber, holder, initial))
  }

  /** `deposit`: a positive amount raises the balance by exactly that much;
      number and holder never change. */
  function Deposit(a: Account, amount: real): (r: Result<Account, BankError>)
    ensures r.Failure? <==> amount <= 0.0
    ensures r.Failure? ==> r.error == NonPositiveAmount
    ensures r.Success? ==> r.value == a.(balance := a.balance + amount)
    ensures r.Success? ==> r.value.balance > a.balance
  {
    if amount <= 0.0 then Failure(NonPositiveAmount) else Success(a.(balance := a.balance + amount))
  }

  /** `withdraw`: a non-positive amount is refused, then one above the
      balance; otherwise the balance drops by exactly that much, which may
      empty the account but never makes it negative. */
  function Withdraw(a: Account, amount: real): (r: Result<Account, BankError>)
    ensures amount <= 0.0 ==> r == Failure(NonPositiveAmount)
    ensures amount > 0.0 && amount > a.balance ==> r == Failure(InsufficientFunds)
    ensures r.Success? <==> 0.0 < amount <= a.balance
    ensures r.Success? ==> r.value == a.(balance := a.balance - amount) && r.value.balance >= 0.0
  {
    if amount <= 0.0 then Failure(NonPositiveAmount)
    else if amount > a.balance then Failure(InsufficientFunds)
    else Success(a.(balance := a.balance - amount))
  }

  /** Withdrawing what was just deposited restores the account, and the
      whole balance of a funded account can be withdrawn. */
  lemma DepositWithdrawRoundTrip(a: Account, amount: real)
    requires a.balance >= 0.0 && amount > 0.0
    ensures Withdraw(Deposit(a, amount).value, amount) == Success(a)
    ensures a.balance > 0.0 ==> Withdraw(a, a.balance) == Success(a.(balance := 0.0))
  {
  }
}
