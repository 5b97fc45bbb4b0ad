/** The banking CLI: the account list, account creation, lookup by number,
    the deposit, withdraw and balance menu items, and the amount prompt. */
module Banking {

  import opened Wrappers
  import opened Text
  import opened Accounts
  import Seqs

  /** The account list together with the next value of `NEXT_ACC_NUMBER`. */
  datatype Bank = Bank(accounts: seq<Account>, nextNumber: int)

  const Empty: Bank := Bank([], FirstNumber)

  ghost predicate NumbersConsecutive(accs: seq<Account>) {
    forall i :: 0 <= i < |accs| ==> accs[i].number == FirstNumber + i
  }

  /** Every bank the CLI can reach: numbers run on from 1001, every holder
      name is non-empty and no balance is negative. */
  ghost predicate Valid(bank: Bank) {
    && bank.nextNumber == FirstNumber + |bank.accounts|
    && NumbersConsecutive(bank.accounts)
    && (forall i :: 0 <= i < |bank.accounts| ==> bank.accounts[i].holder != [] && bank.accounts[i].balance >= 0.0)
  }

  /** What `readDouble` accepts. */
  predicate AmountAccepted(v: real) { v >= 0.0 }

  /** `readDouble`: a negative number is refused like unparsable text, so
      the amount is the first entry that parses to a value of at least 0. */
  function ReadAmount(entries: seq<Option<real>>): (r: Option<real>)
    ensures r.Some? ==> r.value >= 0.0
    ensures r.None? <==> forall i :: 0 <= i < |entries| ==> entries[i].None? || entries[i].value < 0.0
    ensures r.Some? ==>
              exists i :: (0 <= i < |entries| && entries[i] == r &&
                           forall j :: 0 <= j < i ==> entries[j].None? || entries[j].value < 0.0)
  {
    Seqs.FirstAccepted(entries, AmountAccepted)
  }

  /** `findAccount`: the position of the first account with that number. */
  function FindAccount(accs: seq<Account>, number: int): (r: Option<nat>)
    ensures r.Some? ==> r.value < |accs| && accs[r.value].number == number
    ensures r.Some? ==> forall j :: 0 <= j < r.value ==> accs[j].number != number
    ensures r.None? <==> forall j :: 0 <= j < |accs| ==> accs[j].number != number
  {
    Seqs.FirstIndex(accs, (a: Account) => a.number == number)
  }

  lemma FindAccountValid(accs: seq<Account>, number: int)
    requires NumbersConsecutive(accs)
    ensures FirstNumber <= number < FirstNumber + |accs| ==> FindAccount(accs, number) == Some(number - FirstNumber)
    ensures !(FirstNumber <= number < FirstNumber + |accs|) ==> FindAccount(accs, number).None?
  {
    var r := FindAccount(accs, number);
    if FirstNumber <= number < FirstNumber + |accs| {
      assert accs[number - FirstNumber].number == number;
      assert accs[r.value].number == FirstNumber + r.value;
    }
  }

  /** `createAccount`: an empty trimmed name is refused before any amount is
      read; otherwise the constructor decides, and one account is appended
      when it succeeds. */
  function CreateAccount(bank: Bank, nameLine: string, initial: real): (r: Result<Bank, BankError>)
    ensures Trim(nameLine) == [] ==> r == Failure(EmptyName)
    ensures Trim(nameLine) != [] && initial < 0.0 ==> r == Failure(NegativeInitialBalance)
    ensures r.Success? <==> Trim(nameLine) != [] && initial >= 0.0
    ensures r.Success? ==>
              && r.value.accounts == bank.accounts + [Account(bank.nextNumber, Trim(nameLine), initial)]
              && r.value.nextNumber == bank.nextNumber + 1
  {
    var name := Trim(nameLine);
    if name == [] then Failure(EmptyName)
    else match NewAccount(bank.nextNumber, name, initial)
      case Failure(e) => Failure(e)
      case Success(a) => Success(Bank(bank.accounts + [a], bank.nextNumber + 1))
  }

  /** The deposit menu item: an unknown number is NotFound; otherwise
      `Account.deposit` on the found account, no other account changing. */
  function DepositTo(bank: Bank, number: int, amount: real): (r: Result<Bank, BankError>)
    ensures r == Failure(NotFound) <==> FindAccount(bank.accounts, number).None?
    ensures FindAccount(bank.accounts, number).Some? ==>
              var i := FindAccount(bank.accounts, number).value;
              match Deposit(bank.accounts[i], amount)
              case Failure(e) => r == Failure(e)
              case Success(a) => r == Success(bank.(accounts := bank.accounts[i := a]))
  {
    match FindAccount(bank.accounts, number)
    case None => Failure(NotFound)
    case Some(i) =>
      match Deposit(bank.accounts[i], amount)
      case Failure(e) => Failure(e)
      case Success(a) => Success(bank.(accounts := bank.accounts[i := a]))
  }

  /** The withdraw menu item, likewise with `Account.withdraw`. */
  function WithdrawFrom(bank: Bank, number: int, amount: real): (r: Result<Bank, BankError>)
    ensures r == Failure(NotFound) <==> FindAccount(bank.accounts, number).None?
    ensures FindAccount(bank.accounts, number).Some? ==>
              var i := FindAccount(bank.accounts, number).value;
              match Withdraw(bank.accounts[i], amount)
              case Failure(e) => r == Failure(e)
              case Success(a) => r == Success(bank.(accounts := bank.accounts[i := a]))
  {
    match FindAccount(bank.accounts, number)
    case None => Failure(NotFound)
    case Some(i) =>
      match Withdraw(bank.accounts[i], amount)
      case Failure(e) => Failure(e)
      case Success(a) => Success(bank.(accounts := bank.accounts[i := a]))
  }

  /** The check-balance menu item. */
  function CheckBalance(bank: Bank, number: int): (r: Result<real, BankError>)
    ensures r.Failure? <==> FindAccount(bank.accounts, number).None?
    ensures r.Failure? ==> r.error == NotFound
    ensures r.Success? ==> r.value == bank.accounts[FindAccount(bank.accounts, number).value].balance
    ensures r.Success? ==> exists i :: 0 <= i < |bank.accounts| && bank.accounts[i].number == number && bank.accounts[i].balance == r.value
  {
    match FindAccount(bank.accounts, number)
    case None => Failure(NotFound)
    case Some(i) => Success(bank.accounts[i].balance)
  }

  /** With an amount the prompt accepts, account creation fails only for an
      empty name; a zero deposit or withdrawal is always refused, so the
      balance stays as it was. */
  lemma AcceptedAmounts(bank: Bank, nameLine: string, number: int, initial: real)
    requires AmountAccepted(initial)
    ensures CreateAccount(bank, nameLine, initial).Success? <==> Trim(nameLine) != []
    ensures DepositTo(bank, number, 0.0).Failure?
    ensures WithdrawFrom(bank, number, 0.0).Failure?
    ensures FindAccount(bank.accounts, number).Some? ==>
              DepositTo(bank, number, 0.0) == Failure(NonPositiveAmount) &&
              WithdrawFrom(bank, number, 0.0) == Failure(NonPositiveAmount)
  {
  }

  /** Replacing an account by one with the same number leaves every lookup
      by number where it was. */
  lemma FindAccountReplace(accs: seq<Account>, i: nat, a: Account, number: int)
    requires i < |accs| && a.number == accs[i].number
    ensures FindAccount(accs[i := a], number) == FindAccount(accs, number)
  {
    var before, after := FindAccount(accs, number), FindAccount(accs[i := a], number);
    forall j | 0 <= j < |accs|
      ensures accs[i := a][j].number == accs[j].number
    {
    }
    if before.Some? {
      assert accs[i := a][before.value].number == number;
    }
    if after.Some? {
      assert accs[after.value].number == number;
    }
  }

  /** The balance shown after a successful deposit is the previous one plus
      the amount; every other account shows the same balance as before. */
  lemma CheckBalanceAfterDeposit(bank: Bank, number: int, other: int, amount: real)
    requires DepositTo(bank, number, amount).Success?
    ensures CheckBalance(DepositTo(bank, number, amount).value, number)
            == Success(CheckBalance(bank, number).value + amount)
    ensures other != number ==>
              CheckBalance(DepositTo(bank, number, amount).value, other) == CheckBalance(bank, other)
  {
    var i := FindAccount(bank.accounts, number).value;
    var a := Deposit(bank.accounts[i], amount).value;
    FindAccountReplace(bank.accounts, i, a, number);
    FindAccountReplace(bank.accounts, i, a, other);
  }

  /** The balance shown after a successful withdrawal is the previous one
      minus the amount; every other account shows the same balance as
      before. */
  lemma CheckBalanceAfterWithdraw(bank: Bank, number: int, other: int, amount: real)
    requires WithdrawFrom(bank, number, amount).Success?
    ensures CheckBalance(WithdrawFrom(bank, number, amount).value, number)
            == Success(CheckBalance(bank, number).value - amount)
    ensures other != number ==>
              CheckBalance(WithdrawFrom(bank, number, amount).value, other) == CheckBalance(bank, other)
  {
    var i := FindAccount(bank.accounts, number).value;
    var a := Withdraw(bank.accounts[i], amount).value;
    FindAccountReplace(bank.accounts, i, a, number);
    FindAccountReplace(bank.accounts, i, a, other);
  }

  /** Replacing one account by one with the same number and holder and a
      non-negative balance keeps the bank valid. */
  lemma ReplaceValid(bank: Bank, i: nat, a: Account)
    requires Valid(bank) && i < |bank.accounts|
    requires a.number == bank.accounts[i].number && a.holder == bank.accounts[i].holder && a.balance >= 0.0
    ensures Valid(bank.(accounts := bank.accounts[i := a]))
  {
  }

  /** Every menu operation that succeeds keeps the bank valid; in particular
      no balance ever becomes negative. */
  lemma OperationsKeepValid(bank: Bank, nameLine: string, number: int, amount: real)
    requires Valid(bank)
    ensures CreateAccount(bank, nameLine, amount).Success? ==> Valid(CreateAccount(bank, nameLine, amount).value)
    ensures DepositTo(bank, number, amount).Success? ==> Valid(DepositTo(bank, number, amount).value)
    ensures WithdrawFrom(bank, number, amount).Success? ==> Valid(WithdrawFrom(bank, number, amount).value)
  {
    var r := CreateAccount(bank, nameLine, amount);
    if r.Success? {
      var accs := r.value.accounts;
      forall k | 0 <= k < |accs| ensures accs[k].number == FirstNumber + k && accs[k].holder != [] && accs[k].balance >= 0.0 {
        if k < |bank.accounts| {
          assert accs[k] == bank.accounts[k];
        }
      }
    }
    match FindAccount(bank.accounts, number)
    case None =>
    case Some(i) =>
      if DepositTo(bank, number, amount).Success? {
        ReplaceValid(bank, i, Deposit(bank.accounts[i], amount).value);
      }
      if WithdrawFrom(bank, number, amount).Success? {
        ReplaceValid(bank, i, Withdraw(bank.accounts[i], amount).value);
      }
  }
}
