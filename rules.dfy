/** The account state machine as functions on the table: each operation
    maps the table before it to an outcome and the table after it. Both
    generations share these rules except for the order of the checks in
    `Deposit` and `Withdraw`: the service checks the amount's sign before it
    looks the account up, the older repository looks the account up first.
    Every check runs before any write, so a failure leaves the table as it
    was. */
module AccountRules {
  import opened Entities
  import opened Ledger

  /** The outcome of one operation and the table after it. */
  datatype Step = Step(outcome: Outcome, accounts: Accounts)

  /** `GetAccount`: the stored record, or "Account does not exist.". */
  function GetAccount(s: Accounts, id: Guid): (r: Result<Account>)
    ensures r.Ok? <==> id in s
    ensures r.Ok? ==> r.value == s[id]
    ensures r.Err? ==> r.error == AccountDoesNotExist
  {
    if id in s then Ok(s[id]) else Err(AccountDoesNotExist)
  }

  /** `AccountExistsAndActive`: passes only an account that exists and is
      active, and otherwise names which of the two it is not. */
  function AccountExistsAndActive(account: Option<Account>): (r: Outcome)
    ensures r.Pass? <==> account.Some? && account.value.active
    ensures account.None? ==> r == Fail(AccountDoesNotExist)
    ensures account.Some? && !account.value.active ==> r == Fail(AccountIsInactive)
  {
    match account
    case None => Fail(AccountDoesNotExist)
    case Some(a) => if !a.active then Fail(AccountIsInactive) else Pass
  }

  /** The account of `id` exists and is active. */
  predicate Usable(s: Accounts, id: Guid)
  {
    id in s && s[id].active
  }

  /** `CreateAccount`: exactly one record more, the new active account
      under the new identifier, every other record as it was. */
  function CreateAccount(s: Accounts, id: Guid, name: string, balance: int): (r: (Account, Accounts))
    requires id !in s
    ensures r.0.id == id && r.0.name == name && r.0.balance == balance && r.0.active
    ensures r.1.Keys == s.Keys + {id} && |r.1| == |s| + 1
    ensures r.1[id] == r.0
    ensures forall k | k in s :: r.1[k] == s[k]
  {
    var a := NewAccount(id, name, balance);
    (a, s[id := a])
  }

  /** `ChangeName`: renames an existing, active account. */
  function ChangeName(s: Accounts, id: Guid, name: string): (r: Step)
    ensures r.outcome.Pass? <==> Usable(s, id)
    ensures id !in s ==> r.outcome == Fail(AccountDoesNotExist)
    ensures id in s && !s[id].active ==> r.outcome == Fail(AccountIsInactive)
    ensures r.outcome.Fail? ==> r.accounts == s
    ensures r.outcome.Pass? ==> r.accounts == Renamed(s, id, name)
  {
    match GetAccount(s, id)
    case Err(e) => Step(Fail(e), s)
    case Ok(a) =>
      match AccountExistsAndActive(Some(a))
      case Fail(e) => Step(Fail(e), s)
      case Pass => Step(Pass, Renamed(s, id, name))
  }

  /** `Deposit` of the service: a negative amount is refused before the
      account is looked up; otherwise an existing, active account is
      credited with the amount. */
  function Deposit(s: Accounts, id: Guid, amount: int): (r: Step)
    ensures r.outcome.Pass? <==> amount >= 0 && Usable(s, id)
    ensures amount < 0 ==> r.outcome == Fail(NegativeDeposit)
    ensures amount >= 0 && id !in s ==> r.outcome == Fail(AccountDoesNotExist)
    ensures amount >= 0 && id in s && !s[id].active ==> r.outcome == Fail(AccountIsInactive)
    ensures r.outcome.Fail? ==> r.accounts == s
    ensures r.outcome.Pass? ==> r.accounts == Credited(s, id, amount)
  {
    if amount < 0 then Step(Fail(NegativeDeposit), s)
    else
      match GetAccount(s, id)
      case Err(e) => Step(Fail(e), s)
      case Ok(a) =>
        match AccountExistsAndActive(Some(a))
        case Fail(e) => Step(Fail(e), s)
        case Pass => Step(Pass, Credited(s, id, amount))
  }

  /** `Withdraw` of the service: a negative amount is refused before the
      account is looked up; an amount above the balance is refused; only
      then is the account debited, so its balance stays non-negative. */
  function Withdraw(s: Accounts, id: Guid, amount: int): (r: Step)
    ensures r.outcome.Pass? <==> amount >= 0 && Usable(s, id) && amount <= s[id].balance
    ensures amount < 0 ==> r.outcome == Fail(NegativeWithdrawal)
    ensures amount >= 0 && id !in s ==> r.outcome == Fail(AccountDoesNotExist)
    ensures amount >= 0 && id in s && !s[id].active ==> r.outcome == Fail(AccountIsInactive)
    ensures amount >= 0 && Usable(s, id) && amount > s[id].balance ==> r.outcome == Fail(InsufficientFunds)
    ensures r.outcome.Fail? ==> r.accounts == s
    ensures r.outcome.Pass? ==> r.accounts == Debited(s, id, amount) && r.accounts[id].balance >= 0
  {
    if amount < 0 then Step(Fail(NegativeWithdrawal), s)
    else
      match GetAccount(s, id)
      case Err(e) => Step(Fail(e), s)
      case Ok(a) =>
        match AccountExistsAndActive(Some(a))
        case Fail(e) => Step(Fail(e), s)
        case Pass =>
          if amount > a.balance then Step(Fail(InsufficientFunds), s)
          else Step(Pass, Debited(s, id, amount))
  }

  /** `Transfer` of the service: both accounts are looked up and must be
      active, then the source is debited and the target credited. Every
      check runs before the debit, and the credit cannot fail after it, so
      the transfer is all or nothing. It moves the amount from one balance
      to the other, conserving their sum, and leaves a transfer to the same
      account with its balance unchanged. */
  function Transfer(s: Accounts, from: Guid, to: Guid, amount: int): (r: Step)
    ensures r.outcome.Pass? <==>
      Usable(s, from) && Usable(s, to) && 0 <= amount <= s[from].balance
    ensures from !in s || to !in s ==> r.outcome == Fail(AccountDoesNotExist)
    ensures from in s && to in s && !(s[from].active && s[to].active) ==>
      r.outcome == Fail(AccountIsInactive)
    ensures Usable(s, from) && Usable(s, to) && amount < 0 ==> r.outcome == Fail(NegativeWithdrawal)
    ensures Usable(s, from) && Usable(s, to) && 0 <= amount && amount > s[from].balance ==>
      r.outcome == Fail(InsufficientFunds)
    ensures r.outcome.Fail? ==> r.accounts == s
    ensures r.outcome.Pass? ==>
      && r.accounts.Keys == s.Keys
      && (forall k | k in s && k != from && k != to :: r.accounts[k] == s[k])
      && r.accounts[from].balance >= 0
      && r.accounts[from].balance + r.accounts[to].balance == s[from].balance + s[to].balance
    ensures r.outcome.Pass? && from != to ==>
      && r.accounts[from] == s[from].(balance := s[from].balance - amount)
      && r.accounts[to] == s[to].(balance := s[to].balance + amount)
    ensures r.outcome.Pass? && from == to ==> r.accounts == s
  {
    match GetAccount(s, from)
    case Err(e) => Step(Fail(e), s)
    case Ok(accountFrom) =>
      match GetAccount(s, to)
      case Err(e) => Step(Fail(e), s)
      case Ok(accountTo) =>
        match AccountExistsAndActive(Some(accountFrom))
        case Fail(e) => Step(Fail(e), s)
        case Pass =>
          match AccountExistsAndActive(Some(accountTo))
          case Fail(e) => Step(Fail(e), s)
          case Pass =>
            var withdrawn := Withdraw(s, from, amount);
            if withdrawn.outcome.Fail? then withdrawn
            else
              var r := Deposit(withdrawn.accounts, to, amount);
              assert r.outcome.Pass?;
              assert from == to ==> r.accounts[from] == s[from];
              r
  }

  /** `DeleteAccount` (soft delete): only an active account with no
      positive balance is deactivated; nothing but its flag changes. */
  function DeleteAccount(s: Accounts, id: Guid): (r: Step)
    ensures r.outcome.Pass? <==> Usable(s, id) && s[id].balance <= 0
    ensures id !in s ==> r.outcome == Fail(AccountDoesNotExist)
    ensures id in s && !s[id].active ==> r.outcome == Fail(AlreadyDeactivated)
    ensures Usable(s, id) && s[id].balance > 0 ==> r.outcome == Fail(NonZeroBalance)
    ensures r.outcome.Fail? ==> r.accounts == s
    ensures r.outcome.Pass? ==> r.accounts == WithActive(s, id, false)
  {
    match GetAccount(s, id)
    case Err(e) => Step(Fail(e), s)
    case Ok(a) =>
      if !a.active then Step(Fail(AlreadyDeactivated), s)
      else if a.balance > 0 then Step(Fail(NonZeroBalance), s)
      else Step(Pass, WithActive(s, id, false))
  }

  /** `ReactivateAccount`: an inactive account becomes active, whatever its
      balance; nothing but its flag changes. */
  function ReactivateAccount(s: Accounts, id: Guid): (r: Step)
    ensures r.outcome.Pass? <==> id in s && !s[id].active
    ensures id !in s ==> r.outcome == Fail(AccountDoesNotExist)
    ensures Usable(s, id) ==> r.outcome == Fail(AlreadyActive)
    ensures r.outcome.Fail? ==> r.accounts == s
    ensures r.outcome.Pass? ==> r.accounts == WithActive(s, id, true)
  {
    match GetAccount(s, id)
    case Err(e) => Step(Fail(e), s)
    case Ok(a) =>
      if a.active then Step(Fail(AlreadyActive), s)
      else Step(Pass, WithActive(s, id, true))
  }

  /** `HardDeleteAccount`: removes the record whatever its state or
      balance; afterwards the account does not exist. An identifier the
      table does not hold makes the store's `Remove` fail. */
  function HardDeleteAccount(s: Accounts, id: Guid): (r: Step)
    ensures r.outcome.Pass? <==> id in s
    ensures r.outcome.Fail? ==> r.outcome.error == NullEntity && r.accounts == s
    ensures r.accounts.Keys == s.Keys - {id}
    ensures forall k | k in r.accounts :: r.accounts[k] == s[k]
    ensures GetAccount(r.accounts, id) == Err(AccountDoesNotExist)
  {
    if id in s then Step(Pass, s - {id}) else Step(Fail(NullEntity), s)
  }

  /** `Deposit` of the older repository: the account is looked up before
      the amount's sign is checked. */
  function LegacyDeposit(s: Accounts, id: Guid, amount: int): (r: Step)
    ensures r.outcome.Pass? <==> amount >= 0 && Usable(s, id)
    ensures id !in s ==> r.outcome == Fail(AccountDoesNotExist)
    ensures id in s && amount < 0 ==> r.outcome == Fail(NegativeDeposit)
    ensures id in s && amount >= 0 && !s[id].active ==> r.outcome == Fail(AccountIsInactive)
    ensures r.outcome.Fail? ==> r.accounts == s
    ensures r.outcome.Pass? ==> r.accounts == Credited(s, id, amount)
  {
    match GetAccount(s, id)
    case Err(e) => Step(Fail(e), s)
    case Ok(a) =>
      if amount < 0 then Step(Fail(NegativeDeposit), s)
      else
        match AccountExistsAndActive(Some(a))
        case Fail(e) => Step(Fail(e), s)
        case Pass => Step(Pass, Credited(s, id, amount))
  }

  /** `Withdraw` of the older repository: the account is looked up before
      the amount's sign is checked. */
  function LegacyWithdraw(s: Accounts, id: Guid, amount: int): (r: Step)
    ensures r.outcome.Pass? <==> amount >= 0 && Usable(s, id) && amount <= s[id].balance
    ensures id !in s ==> r.outcome == Fail(AccountDoesNotExist)
    ensures id in s && amount < 0 ==> r.outcome == Fail(NegativeWithdrawal)
    ensures id in s && amount >= 0 && !s[id].active ==> r.outcome == Fail(AccountIsInactive)
    ensures amount >= 0 && Usable(s, id) && amount > s[id].balance ==> r.outcome == Fail(InsufficientFunds)
    ensures r.outcome.Fail? ==> r.accounts == s
    ensures r.outcome.Pass? ==> r.accounts == Debited(s, id, amount) && r.accounts[id].balance >= 0
  {
    match GetAccount(s, id)
    case Err(e) => Step(Fail(e), s)
    case Ok(a) =>
      if amount < 0 then Step(Fail(NegativeWithdrawal), s)
      else
        match AccountExistsAndActive(Some(a))
        case Fail(e) => Step(Fail(e), s)
        case Pass =>
          if amount > a.balance then Step(Fail(InsufficientFunds), s)
          else Step(Pass, Debited(s, id, amount))
  }

  /** `Transfer` of the older repository, built on its own `Withdraw` and
      `Deposit`. */
  function LegacyTransfer(s: Accounts, from: Guid, to: Guid, amount: int): Step
  {
    match GetAccount(s, from)
    case Err(e) => Step(Fail(e), s)
    case Ok(accountFrom) =>
      match GetAccount(s, to)
      case Err(e) => Step(Fail(e), s)
      case Ok(accountTo) =>
        match AccountExistsAndActive(Some(accountFrom))
        case Fail(e) => Step(Fail(e), s)
        case Pass =>
          match AccountExistsAndActive(Some(accountTo))
          case Fail(e) => Step(Fail(e), s)
          case Pass =>
            var withdrawn := LegacyWithdraw(s, from, amount);
            if withdrawn.outcome.Fail? then withdrawn
            else LegacyDeposit(withdrawn.accounts, to, amount)
  }

  /** The two generations differ in `Deposit` and `Withdraw` on exactly
      one kind of input: an unknown account with a negative amount, which
      the service reports as a negative amount and the older repository as
      a missing account. Neither changes the table there. */
  lemma CheckOrderDiffers(s: Accounts, id: Guid, amount: int)
    ensures Deposit(s, id, amount) != LegacyDeposit(s, id, amount) <==> id !in s && amount < 0
    ensures Withdraw(s, id, amount) != LegacyWithdraw(s, id, amount) <==> id !in s && amount < 0
    ensures id !in s && amount < 0 ==>
      && Deposit(s, id, amount).outcome == Fail(NegativeDeposit)
      && LegacyDeposit(s, id, amount).outcome == Fail(AccountDoesNotExist)
      && Withdraw(s, id, amount).outcome == Fail(NegativeWithdrawal)
      && LegacyWithdraw(s, id, amount).outcome == Fail(AccountDoesNotExist)
  {
  }

  /** A transfer behaves the same in both generations: both look up and
      check the two accounts before the withdrawal, so the differing check
      order inside `Withdraw` and `Deposit` never shows. */
  lemma TransferAgrees(s: Accounts, from: Guid, to: Guid, amount: int)
    ensures LegacyTransfer(s, from, to, amount) == Transfer(s, from, to, amount)
  {
  }

  /** No balance is negative. */
  ghost predicate BalancesNonNegative(s: Accounts)
  {
    forall id | id in s :: s[id].balance >= 0
  }

  /** Every operation but `CreateAccount` keeps all balances non-negative;
      `CreateAccount` keeps them so exactly when the opening balance is
      non-negative, since neither generation checks it. */
  lemma OperationsKeepBalancesNonNegative(s: Accounts, id: Guid, other: Guid, name: string, amount: int)
    requires BalancesNonNegative(s)
    ensures BalancesNonNegative(ChangeName(s, id, name).accounts)
    ensures BalancesNonNegative(Deposit(s, id, amount).accounts)
    ensures BalancesNonNegative(Withdraw(s, id, amount).accounts)
    ensures BalancesNonNegative(Transfer(s, id, other, amount).accounts)
    ensures BalancesNonNegative(DeleteAccount(s, id).accounts)
    ensures BalancesNonNegative(ReactivateAccount(s, id).accounts)
    ensures BalancesNonNegative(HardDeleteAccount(s, id).accounts)
    ensures id !in s ==> (BalancesNonNegative(CreateAccount(s, id, name, amount).1) <==> amount >= 0)
  {
    var t := Transfer(s, id, other, amount);
    if t.outcome.Pass? && id != other {
      assert t.accounts[other].balance == s[other].balance + amount;
    }
    if id !in s {
      var c := CreateAccount(s, id, name, amount).1;
      assert c[id].balance == amount;
    }
  }

  /** An account moves between active and inactive by `DeleteAccount` and
      `ReactivateAccount`; reactivating a deactivated account restores the
      table. */
  lemma DeactivateThenReactivate(s: Accounts, id: Guid)
    requires DeleteAccount(s, id).outcome.Pass?
    ensures ReactivateAccount(DeleteAccount(s, id).accounts, id) == Step(Pass, s)
  {
    var d := DeleteAccount(s, id).accounts;
    assert WithActive(d, id, true)[id] == s[id];
  }

  /** A hard-deleted account is gone for good: every later operation on it
      fails as a missing account and changes nothing. */
  lemma HardDeleteIsFinal(s: Accounts, id: Guid, other: Guid, name: string, amount: int)
    requires HardDeleteAccount(s, id).outcome.Pass?
    ensures var d := HardDeleteAccount(s, id).accounts;
      && GetAccount(d, id) == Err(AccountDoesNotExist)
      && ChangeName(d, id, name) == Step(Fail(AccountDoesNotExist), d)
      && LegacyDeposit(d, id, amount) == Step(Fail(AccountDoesNotExist), d)
      && LegacyWithdraw(d, id, amount) == Step(Fail(AccountDoesNotExist), d)
      && (amount >= 0 ==> Deposit(d, id, amount) == Step(Fail(AccountDoesNotExist), d))
      && (amount >= 0 ==> Withdraw(d, id, amount) == Step(Fail(AccountDoesNotExist), d))
      && Transfer(d, id, other, amount) == Step(Fail(AccountDoesNotExist), d)
      && Transfer(d, other, id, amount) == Step(Fail(AccountDoesNotExist), d)
      && DeleteAccount(d, id) == Step(Fail(AccountDoesNotExist), d)
      && ReactivateAccount(d, id) == Step(Fail(AccountDoesNotExist), d)
      && HardDeleteAccount(d, id) == Step(Fail(NullEntity), d)
  {
  }

  /** Creating an account and looking it up returns the new active record
      with the requested name and balance. */
  lemma CreateThenGet(s: Accounts, id: Guid, name: string, balance: int)
    requires id !in s
    ensures var a := GetAccount(CreateAccount(s, id, name, balance).1, id);
      && a.Ok? && a.value.name == name && a.value.balance == balance && a.value.active
  {
  }

  /** Two accounts opened with 150 and 0; a transfer of 50 leaves them at
      100 and 50, and a withdrawal of 999 from the first is refused. */
  lemma TransferScenario(a: Guid, b: Guid)
    requires a != b
    ensures var s1 := CreateAccount(map[], a, "A", 150).1;
      var s2 := CreateAccount(s1, b, "B", 0).1;
      var t := Transfer(s2, a, b, 50);
      && t.outcome == Pass
      && t.accounts[a].balance == 100 && t.accounts[b].balance == 50
      && Withdraw(t.accounts, a, 999) == Step(Fail(InsufficientFunds), t.accounts)
  {
    var s1 := CreateAccount(map[], a, "A", 150).1;
    var s2 := CreateAccount(s1, b, "B", 0).1;
    assert Usable(s2, a) && Usable(s2, b) && s2[a].balance == 150;
  }
}
