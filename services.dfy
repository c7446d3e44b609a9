/** The application service of the layered generation. It holds the rules
    (existence, activity, sign of the amount, sufficient funds, the states
    from which an account may be deactivated or reactivated) and asks the
    repository for each single-record write once they pass. A thrown
    exception is a `Fail` outcome; as every check comes before the write,
    a failed call leaves the table as it was. */
module Services {
  import opened Entities
  import opened Ledger
  import Listing
  import AccountRules
  import Repositories

  class AccountsServices {
    const repository: Repositories.AccountRepository

    ghost predicate Valid()
      reads repository
    {
      repository.Valid()
    }

    constructor (accountRepository: Repositories.AccountRepository)
      ensures repository == accountRepository
    {
      repository := accountRepository;
    }

    /** `CreateAccount`: a new active account under the identifier `newId`
        (the fresh `Guid` the source draws); the model appends it to the row
        order. */
    method CreateAccount(newId: Guid, name: string, balance: int) returns (r: Account)
      requires Valid() && newId !in repository.accounts
      modifies repository
      ensures Valid()
      ensures (r, repository.accounts) == AccountRules.CreateAccount(old(repository.accounts), newId, name, balance)
      ensures repository.order == old(repository.order) + [newId]
    {
      var account := NewAccount(newId, name, balance);
      repository.CreateAccount(account);
      r := account;
    }

    /** `GetAccounts`: the repository's page and its metadata. */
    method GetAccounts(filters: AccountsFilter) returns (accounts: seq<Account>, metadata: Listing.PaginationMetadata)
      requires Valid()
      ensures (accounts, metadata) == Listing.List(Table(repository.accounts, repository.order), filters)
    {
      accounts := repository.GetAccounts(filters);
      metadata := Listing.PaginationMetadata(|accounts|, filters.pageSize, filters.pageNumber);
    }

    /** `GetAccount`: the stored record, or "Account does not exist.". */
    method GetAccount(id: Guid) returns (r: Result<Account>)
      ensures r == AccountRules.GetAccount(repository.accounts, id)
    {
      var account := repository.GetAccount(id);
      if account.None? {
        return Err(AccountDoesNotExist);
      }
      r := Ok(account.value);
    }

    method ChangeName(id: Guid, name: string) returns (r: Outcome)
      requires Valid()
      modifies repository
      ensures Valid()
      ensures AccountRules.Step(r, repository.accounts) == AccountRules.ChangeName(old(repository.accounts), id, name)
      ensures repository.order == old(repository.order)
    {
      var account := GetAccount(id);
      if account.Err? {
        return Fail(account.error);
      }
      r := AccountRules.AccountExistsAndActive(Some(account.value));
      if r.Pass? {
        repository.UpdateName(id, name);
      }
    }

    method Deposit(id: Guid, amount: int) returns (r: Outcome)
      requires Valid()
      modifies repository
      ensures Valid()
      ensures AccountRules.Step(r, repository.accounts) == AccountRules.Deposit(old(repository.accounts), id, amount)
      ensures repository.order == old(repository.order)
    {
      if amount < 0 {
        return Fail(NegativeDeposit);
      }
      var account := GetAccount(id);
      if account.Err? {
        return Fail(account.error);
      }
      r := AccountRules.AccountExistsAndActive(Some(account.value));
      if r.Pass? {
        repository.AddToBalance(id, amount);
      }
    }

    method Withdraw(id: Guid, amount: int) returns (r: Outcome)
      requires Valid()
      modifies repository
      ensures Valid()
      ensures AccountRules.Step(r, repository.accounts) == AccountRules.Withdraw(old(repository.accounts), id, amount)
      ensures repository.order == old(repository.order)
    {
      if amount < 0 {
        return Fail(NegativeWithdrawal);
      }
      var account := GetAccount(id);
      if account.Err? {
        return Fail(account.error);
      }
      r := AccountRules.AccountExistsAndActive(Some(account.value));
      if r.Pass? {
        if amount > account.value.balance {
          return Fail(InsufficientFunds);
        }
        repository.SubtractFromBalance(id, amount);
      }
    }

    method Transfer(transferFromId: Guid, transferToId: Guid, amount: int) returns (r: Outcome)
      requires Valid()
      modifies repository
      ensures Valid()
      ensures AccountRules.Step(r, repository.accounts)
        == AccountRules.Transfer(old(repository.accounts), transferFromId, transferToId, amount)
      ensures repository.order == old(repository.order)
    {
      var accountFrom := GetAccount(transferFromId);
      if accountFrom.Err? {
        return Fail(accountFrom.error);
      }
      var accountTo := GetAccount(transferToId);
      if accountTo.Err? {
        return Fail(accountTo.error);
      }
      r := AccountRules.AccountExistsAndActive(Some(accountFrom.value));
      if r.Fail? {
        return;
      }
      r := AccountRules.AccountExistsAndActive(Some(accountTo.value));
      if r.Fail? {
        return;
      }
      r := Withdraw(transferFromId, amount);
      if r.Fail? {
        return;
      }
      r := Deposit(transferToId, amount);
    }

    /** `DeleteAccount`: the soft delete, which deactivates the account. */
    method DeleteAccount(id: Guid) returns (r: Outcome)
      requires Valid()
      modifies repository
      ensures Valid()
      ensures AccountRules.Step(r, repository.accounts) == AccountRules.DeleteAccount(old(repository.accounts), id)
      ensures repository.order == old(repository.order)
    {
      var account := GetAccount(id);
      if account.Err? {
        return Fail(account.error);
      }
      if !account.value.active {
        return Fail(AlreadyDeactivated);
      } else if account.value.balance > 0 {
        return Fail(NonZeroBalance);
      }
      repository.UpdateActive(id, false);
      r := Pass;
    }

    method ReactivateAccount(id: Guid) returns (r: Outcome)
      requires Valid()
      modifies repository
      ensures Valid()
      ensures AccountRules.Step(r, repository.accounts) == AccountRules.ReactivateAccount(old(repository.accounts), id)
      ensures repository.order == old(repository.order)
    {
      var account := GetAccount(id);
      if account.Err? {
        return Fail(account.error);
      }
      if account.value.active {
        return Fail(AlreadyActive);
      }
      repository.UpdateActive(id, true);
      r := Pass;
    }

    /** `HardDeleteAccount`: removes the record from the table. */
    method HardDeleteAccount(id: Guid) returns (r: Outcome)
      requires Valid()
      modifies repository
      ensures Valid()
      ensures AccountRules.Step(r, repository.accounts) == AccountRules.HardDeleteAccount(old(repository.accounts), id)
      ensures r.Pass? ==> repository.order == Without(old(repository.order), id)
      ensures r.Fail? ==> repository.order == old(repository.order)
    {
      r := repository.DeleteAccount(id);
    }
  }
}
