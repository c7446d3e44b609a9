/** The data-access class of the layered generation: it owns the account
    table and performs the single-record writes the service asks for. Each
    write looks the record up, changes one field and saves. The order in
    which the database yields rows is not fixed by the query; the model
    keeps them in insertion order. */
module Repositories {
  import opened Entities
  import opened Ledger
  import Listing

  class AccountRepository {
    /** The stored records, by identifier. */
    var accounts: Accounts
    /** The order in which the table yields its rows. */
    var order: seq<Guid>

    ghost predicate Valid()
      reads this
    {
      Consistent(accounts, order)
    }

    /** An empty table. */
    constructor ()
      ensures Valid()
      ensures accounts == map[] && order == []
    {
      accounts := map[];
      order := [];
    }

    /** `CreateAccount`: adds the record under its identifier; the model
        appends it to the row order. */
    method CreateAccount(account: Account)
      requires Valid() && account.id !in accounts
      modifies this
      ensures Valid()
      ensures accounts == old(accounts)[account.id := account]
      ensures order == old(order) + [account.id]
    {
      AddKeepsConsistent(accounts, order, account);
      accounts := accounts[account.id := account];
      order := order + [account.id];
    }

    /** `GetAccounts`: one page of the matching accounts, in the requested
        order. */
    method GetAccounts(filters: AccountsFilter) returns (r: seq<Account>)
      requires Valid()
      ensures r == Listing.Query(Table(accounts, order), filters)
    {
      r := Listing.Query(Table(accounts, order), filters);
    }

    /** `GetAccount`: the record under the identifier, or none. */
    method GetAccount(id: Guid) returns (r: Option<Account>)
      ensures r.Some? <==> id in accounts
      ensures r.Some? ==> r.value == accounts[id]
    {
      if id in accounts {
        r := Some(accounts[id]);
      } else {
        r := None;
      }
    }

    /** `UpdateName`: sets the name of the looked-up record. */
    method UpdateName(id: Guid, name: string)
      requires Valid() && id in accounts
      modifies this
      ensures Valid()
      ensures accounts == Renamed(old(accounts), id, name)
      ensures order == old(order)
    {
      UpdatesKeepKeys(accounts, id, name, 0, true);
      accounts := Renamed(accounts, id, name);
    }

    /** `AddToBalance`: adds the amount to the record's balance. */
    method AddToBalance(id: Guid, amount: int)
      requires Valid() && id in accounts
      modifies this
      ensures Valid()
      ensures accounts == Credited(old(accounts), id, amount)
      ensures order == old(order)
    {
      UpdatesKeepKeys(accounts, id, [], amount, true);
      accounts := Credited(accounts, id, amount);
    }

    /** `SubtractFromBalance`: subtracts the amount from the record's
        balance. */
    method SubtractFromBalance(id: Guid, amount: int)
      requires Valid() && id in accounts
      modifies this
      ensures Valid()
      ensures accounts == Debited(old(accounts), id, amount)
      ensures order == old(order)
    {
      UpdatesKeepKeys(accounts, id, [], amount, true);
      accounts := Debited(accounts, id, amount);
    }

    /** `UpdateActive`: sets the record's active flag. */
    method UpdateActive(id: Guid, active: bool)
      requires Valid() && id in accounts
      modifies this
      ensures Valid()
      ensures accounts == WithActive(old(accounts), id, active)
      ensures order == old(order)
    {
      UpdatesKeepKeys(accounts, id, [], 0, active);
      accounts := WithActive(accounts, id, active);
    }

    /** `DeleteAccount`: removes the looked-up record. When there is none,
        the store is asked to remove nothing and refuses. */
    method DeleteAccount(id: Guid) returns (r: Outcome)
      requires Valid()
      modifies this
      ensures Valid()
      ensures r.Pass? <==> id in old(accounts)
      ensures r.Fail? ==> r.error == NullEntity && accounts == old(accounts) && order == old(order)
      ensures r.Pass? ==> accounts == old(accounts) - {id} && order == Without(old(order), id)
    {
      var account := GetAccount(id);
      if account.None? {
        return Fail(NullEntity);
      }
      RemoveKeepsConsistent(accounts, order, id);
      accounts := accounts - {id};
      order := Without(order, id);
      r := Pass;
    }
  }
}
