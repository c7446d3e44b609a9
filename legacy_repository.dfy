/** The repository of the older, single-project generation: the rules and
    the writes live in one class that owns the account table. It differs
    from the layered generation in the order of two checks (`Deposit` and
    `Withdraw` look the account up before checking the amount's sign) and
    in having no hard delete, so its table only grows. */
module LegacyRepositories {
  import opened Entities
  import opened Ledger
  import Listing
  import AccountRules

  class AccountRepository {
    var accounts: Accounts
    var order: seq<Guid>

    ghost predicate Valid()
      reads this
    {
      Consistent(accounts, order)
    }

    constructor ()
      ensures Valid()
      ensures accounts == map[] && order == []
    {
      accounts := map[];
      order := [];
    }

    /** The private `GetAccount`: the tracked record, or "Account does not
        exist.". */
    method GetAccount(id: Guid) returns (r: Result<Account>)
      ensures r == AccountRules.GetAccount(accounts, id)
    {
      if id !in accounts {
        return Err(AccountDoesNotExist);
      }
      r := Ok(accounts[id]);
    }

    /** `GetAccounts`: one page of the matching accounts and its metadata. */
    method GetAccounts(filters: AccountsFilter) returns (page: seq<Account>, metadata: Listing.PaginationMetadata)
      requires Valid()
      ensures (page, metadata) == Listing.List(Table(accounts, order), filters)
    {
      page := Listing.Query(Table(accounts, order), filters);
      metadata := Listing.PaginationMetadata(|page|, filters.pageSize, filters.pageNumber);
    }

    /** `GetAccountDto`: the record, or "Account does not exist.". */
    method GetAccountDto(id: Guid) returns (r: Result<Account>)
      ensures r.Ok? <==> id in accounts
      ensures r.Ok? ==> r.value == accounts[id]
      ensures r.Err? ==> r.error == AccountDoesNotExist
    {
      r := GetAccount(id);
    }

    method ChangeName(id: Guid, name: string) returns (r: Outcome)
      requires Valid()
      modifies this
      ensures Valid()
      ensures AccountRules.Step(r, accounts) == AccountRules.ChangeName(old(accounts), id, name)
      ensures order == old(order)
    {
      var account := GetAccount(id);
      if account.Err? {
        return Fail(account.error);
      }
      r := AccountRules.AccountExistsAndActive(Some(account.value));
      if r.Pass? {
        UpdatesKeepKeys(accounts, id, name, 0, true);
        accounts := accounts[id := account.value.(name := name)];
      }
    }

    method Deposit(id: Guid, amount: int) returns (r: Outcome)
      requires Valid()
      modifies this
      ensures Valid()
      ensures AccountRules.Step(r, accounts) == AccountRules.LegacyDeposit(old(accounts), id, amount)
      ensures order == old(order)
    {
      var account := GetAccount(id);
      if account.Err? {
        return Fail(account.error);
      }
      if amount < 0 {
        return Fail(NegativeDeposit);
      }
      r := AccountRules.AccountExistsAndActive(Some(account.value));
      if r.Pass? {
        UpdatesKeepKeys(accounts, id, [], amount, true);
        accounts := accounts[id := account.value.(balance := account.value.balance + amount)];
      }
    }

    method Withdraw(id: Guid, amount: int) returns (r: Outcome)
      requires Valid()
      modifies this
      ensures Valid()
      ensures AccountRules.Step(r, accounts) == AccountRules.LegacyWithdraw(old(accounts), id, amount)
      ensures order == old(order)
    {
      var account := GetAccount(id);
      if account.Err? {
        return Fail(account.error);
      }
      if amount < 0 {
        return Fail(NegativeWithdrawal);
      }
      r := AccountRules.AccountExistsAndActive(Some(account.value));
      if r.Pass? {
        if amount > account.value.balance {
          return Fail(InsufficientFunds);
        }
        UpdatesKeepKeys(accounts, id, [], amount, true);
        accounts := accounts[id := account.value.(balance := account.value.balance - amount)];
      }
    }

    method Transfer(transferFromId: Guid, transferToId: Guid, amount: int) returns (r: Outcome)
      requires Valid()
      modifies this
      ensures Valid()
      ensures AccountRules.Step(r, accounts) == AccountRules.LegacyTransfer(old(accounts), transferFromId, transferToId, amount)
      ensures order == old(order)
    {
      var accountFrom := GetAccount(transferFromId);
      if accountFrom.Err? {
        return Fail(accountFrom.error);
      }
      var accountTo := GetAccount(transferToId);
      if accountTo.Err? {
        return Fail(accountTo.error);
      }
      r := AccountRules.AccountExistsAndActive(Some(accountFrom.value));
      if r.Fail? {
        return;
      }
      r := AccountRules.AccountExistsAndActive(Some(accountTo.value));
      if r.Fail? {
        return;
      }
      r := Withdraw(transferFromId, amount);
      if r.Fail? {
        return;
      }
      r := Deposit(transferToId, amount);
    }

    /** `CreateAccount`: a new active account under the identifier `newId`
        (the fresh `Guid` the source draws); the model appends it to the row
        order. */
    method CreateAccount(newId: Guid, name: string, balance: int) returns (r: Account)
      requires Valid() && newId !in accounts
      modifies this
      ensures Valid()
      ensures (r, accounts) == AccountRules.CreateAccount(old(accounts), newId, name, balance)
      ensures order == old(order) + [newId]
    {
      r := NewAccount(newId, name, balance);
      AddKeepsConsistent(accounts, order, r);
      accounts := accounts[newId := r];
      order := order + [newId];
    }

    method ReactivateAccount(id: Guid) returns (r: Outcome)
      requires Valid()
      modifies this
      ensures Valid()
      ensures AccountRules.Step(r, accounts) == AccountRules.ReactivateAccount(old(accounts), id)
      ensures order == old(order)
    {
      var account := GetAccount(id);
      if account.Err? {
        return Fail(account.error);
      }
      if account.value.active {
        return Fail(AlreadyActive);
      }
      UpdatesKeepKeys(accounts, id, [], 0, true);
      accounts := accounts[id := account.value.(active := true)];
      r := Pass;
    }

    /** `DeleteAccount`: the soft delete, which deactivates the account. */
    method DeleteAccount(id: Guid) returns (r: Outcome)
      requires Valid()
      modifies this
      ensures Valid()
      ensures AccountRules.Step(r, accounts) == AccountRules.DeleteAccount(old(accounts), id)
      ensures order == old(order)
    {
      var account := GetAccount(id);
      if account.Err? {
        return Fail(account.error);
      }
      if !account.value.active {
        return Fail(AlreadyDeactivated);
      } else if account.value.balance > 0 {
        return Fail(NonZeroBalance);
      }
      UpdatesKeepKeys(accounts, id, [], 0, false);
      accounts := accounts[id := account.value.(active := false)];
      r := Pass;
    }
  }
}
