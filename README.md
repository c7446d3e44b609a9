# BankingWebApi account state machine, in Dafny

This project models the core of the BankingWebApi service: the rules that
create, list, rename, credit, debit, transfer between, deactivate,
reactivate and hard-delete bank accounts held in one store. The repository
has two generations of these rules, and both are modelled as classes over an
in-memory table (`map<Guid, Account>` plus the order in which the table
yields its rows).

- **Layered generation.** `Services.AccountsServices` holds all the checks.
  It asks `Repositories.AccountRepository`, a store without checks, for
  single-field writes.
- **Older generation.** `LegacyRepositories.AccountRepository` keeps the
  checks and the writes in one class. It has no hard delete.

Both generations are specified by one set of pure transition functions,
`AccountRules`. Each function maps the table before an operation to an
`Outcome` (`Pass`, or `Fail` with one variant per exception message) and
the table after it. Every method of the three classes ensures that its
outcome and new table are exactly what the matching function gives for the
old table. The functions carry the promises:

- every check runs before any write, so a failure leaves the table as it was;
- a withdrawal never takes a balance below zero;
- a transfer is all or nothing, moves the amount, and conserves the sum of
  the two balances;
- soft delete and reactivation change only the active flag;
- after a hard delete, the account is gone for good.

The two generations differ in one place: the order of the checks in
`Deposit` and `Withdraw`. `AccountRules.CheckOrderDiffers` pins down the
one kind of input where that order shows.

Supporting modules:

- **`Listing`** is the `GetAccounts` pipeline: case-insensitive name
  search and an optional active flag, then `OrderByDynamic`, then `Skip`
  and `Take`.
- **`Linq`** models `OrderByDynamic` and `ThenByDynamic` as a stable sort
  under an ordering built from sort fields and directions.
- **`Text`** provides lowering, `Contains` and the ordinal order on names.
- **`Ledger`** holds the single-record writes and the consistency of the
  table.
- **`SavingChanges`** is the older database context's save-time loop that
  stamps creation and update dates.

Modelling choices:

- `decimal` amounts are `int`.
- A `Guid` is an `int`. The fresh identifier that `Guid.NewGuid()` draws is
  a parameter, and callers must supply one the table does not hold.
- The clock is a function from the number of earlier clock reads to a time.

Points where the code behaves in a way one might not expect:

- The pagination metadata counts the items on the returned page, not the
  filtered total.
- Deactivation is refused only for a balance above zero, so an account with
  a negative balance can be deactivated.
- Hard-deleting an identifier the table does not hold fails, because the
  store is asked to remove a null entity.
- After a hard delete, `Deposit` and `Withdraw` of the layered generation
  with a negative amount report the amount, not the missing account.
- The first index of a page, `PageSize * (PageNumber - 1)`, is unchecked
  32-bit arithmetic and wraps around: with a page size of 2, page
  2^30 + 1 starts at -2^31, skips nothing and yields the first page.

## Model

| member | source | states |
|---|---|---|
| Entities.NewAccount | BankingWebApi/Application/Services/AccountsServices.cs:35-41 | a new account has the given id, name and balance, is active, and has unset dates |
| Entities.MessagesIdentifyErrors | BankingWebApi/Application/Services/AccountsServices.cs:18-147 | distinct failures carry distinct exception messages, the two negative-amount ones wrapped in the standard out-of-range text |
| Entities.DefaultFilterIsFirstPageNewestFirst | BankingWebApi/Domain/Entities/BaseFilter.cs:5-27 | the default filter asks for page 1 of 10, sorted by creation date, descending, with an empty search term and no active flag |
| Text.Lower | BankingWebApi/Infrastructure/Repositories/AccountRepository.cs:33 | lowering keeps the length and lowers each character in place |
| Text.ContainsIffOccurs | BankingWebApi/Infrastructure/Repositories/AccountRepository.cs:33 | `Contains` holds exactly when the term occurs at some index of the name |
| Text.EveryStringContainsEmpty | BankingWebApi/Domain/Entities/BaseFilter.cs:27 | every name contains the default empty search term |
| Text.LessOrEqualReflexive | BankingWebApi/Infrastructure/Extensions/LinqExtensions.cs:10-11 | every name sorts at or before itself |
| Text.LessOrEqualTotal | BankingWebApi/Infrastructure/Extensions/LinqExtensions.cs:10-11 | any two names are comparable in the ordinal order |
| Text.LessOrEqualTransitive | BankingWebApi/Infrastructure/Extensions/LinqExtensions.cs:10-11 | the ordinal order on names is transitive |
| Linq.KeyAtMostTotal | BankingWebApi/Infrastructure/Extensions/LinqExtensions.cs:10-11 | any two accounts are comparable on each of the four sort keys |
| Linq.KeyAtMostTransitive | BankingWebApi/Infrastructure/Extensions/LinqExtensions.cs:10-11 | each sort key's order is transitive |
| Linq.BeforeTotal | BankingWebApi/Infrastructure/Extensions/LinqExtensions.cs:14-21 | any ordering built from OrderBy and ThenBy steps relates every pair of accounts one way or the other |
| Linq.BeforeTransitive | BankingWebApi/Infrastructure/Extensions/LinqExtensions.cs:14-21 | any such ordering is transitive |
| Linq.Insert | BankingWebApi/Infrastructure/Extensions/LinqExtensions.cs:10-11 | inserting adds exactly the one item to the multiset |
| Linq.InsertKeepsSorted | BankingWebApi/Infrastructure/Extensions/LinqExtensions.cs:10-11 | inserting into a sorted sequence keeps it sorted |
| Linq.Sort | BankingWebApi/Infrastructure/Extensions/LinqExtensions.cs:10-11 | the sort is a permutation of its input |
| Linq.SortIsSorted | BankingWebApi/Infrastructure/Extensions/LinqExtensions.cs:10-11 | the sort's output is sorted under the ordering |
| Linq.Items | BankingWebApi/Infrastructure/Extensions/LinqExtensions.cs:5-21 | enumerating an ordered sequence gives a sorted permutation of its source |
| Linq.OrderByDynamic | BankingWebApi/Infrastructure/Extensions/LinqExtensions.cs:5-12 | the items are a permutation of the source, with keys non-decreasing when `ascending` and non-increasing otherwise |
| Linq.ThenByDynamic | BankingWebApi/Infrastructure/Extensions/LinqExtensions.cs:14-21 | the items are a permutation that keeps the existing order, and items that order ties are ordered by the new key in the chosen direction |
| Listing.Where | BankingWebApi/Infrastructure/Repositories/AccountRepository.cs:32-34 | an account is kept exactly when it is a row whose lowered name contains the lowered term and whose flag matches any requested flag |
| Listing.Skip | BankingWebApi/Infrastructure/Repositories/AccountRepository.cs:36 | a count of zero or less skips nothing, a count beyond the end leaves nothing, and otherwise the suffix is returned |
| Listing.Take | BankingWebApi/Infrastructure/Repositories/AccountRepository.cs:37 | the result is the prefix whose length is the count clamped to between 0 and the length |
| Listing.TakeSkipIsSlice | BankingWebApi/Infrastructure/Repositories/AccountRepository.cs:36-37 | skipping then taking cuts one contiguous slice with clamped bounds |
| Listing.SliceKeepsOrder | BankingWebApi/Infrastructure/Repositories/AccountRepository.cs:35-37 | a slice of an ordered sequence is ordered the same way |
| Listing.OrderedMatches | BankingWebApi/Infrastructure/Repositories/AccountRepository.cs:32-35 | the ordered matches are rows the filter matches, in the requested direction |
| Listing.PageStart | BankingWebApi/Infrastructure/Repositories/AccountRepository.cs:36 | the first index of a page is a 32-bit value congruent to `PageSize*(PageNumber-1)` modulo 2^32, and equal to it when the product fits in 32 bits |
| Listing.UncheckedProduct | BankingWebApi/Infrastructure/Repositories/AccountRepository.cs:36 | an unchecked 32-bit product, with its second factor wrapped first, agrees with the exact product modulo 2^32 and equals it when it fits |
| Listing.Query | BankingWebApi/Infrastructure/Repositories/AccountRepository.cs:23-42 | `GetAccounts` returns at most `PageSize` rows, each matching the filter, ordered by `SortBy` ascending exactly when `SortOrder == "Asc"`; it is the `PageSize`-long slice of the ordered matches starting at the page's first index, the first `PageSize` matches when that index is negative, and empty when it is past the end |
| Listing.PageStartWraps | BankingWebApi/Infrastructure/Repositories/AccountRepository.cs:36-37 | with a page size of 2, page 2^30 + 1 starts at -2^31 and yields the first page |
| Listing.List | BankingWebApi/BankingWebApi/Repositories/AccountRepository.cs:55-76 | the page comes with metadata whose count is that of the page, so it is at most the page size, plus the page size and page number |
| Listing.NoActiveFlagKeepsBoth | BankingWebApi/Infrastructure/Repositories/AccountRepository.cs:34 | with no active flag, an account matches whether or not it is active |
| Listing.EmptySearchKeepsAll | BankingWebApi/Domain/Entities/BaseFilter.cs:27 | the default search excludes nothing: every row is kept, in table order |
| Listing.WhereIgnoresPaging | BankingWebApi/Infrastructure/Repositories/AccountRepository.cs:32-34 | the filtering does not depend on the paging or sorting fields |
| Listing.EveryMatchIsOnSomePage | BankingWebApi/Infrastructure/Repositories/AccountRepository.cs:36-37 | with a positive page size and fewer than 2^31 rows, every matching account appears on some page with a 32-bit page number |
| Listing.ItemOnItsPage | BankingWebApi/Infrastructure/Repositories/AccountRepository.cs:36-37 | the match at index k is on the page whose range covers k |
| Listing.TakeKeepsIndex | BankingWebApi/Infrastructure/Repositories/AccountRepository.cs:37 | taking n keeps every item below index n |
| Listing.IndexIsOnItsPage | BankingWebApi/Infrastructure/Repositories/AccountRepository.cs:36 | index k lies in page number k / size, which is at most k |
| Ledger.Rows | BankingWebApi/Infrastructure/Repositories/AccountRepository.cs:31 | the rows list the records of the given identifiers, in order |
| Ledger.Table | BankingWebApi/Infrastructure/Repositories/AccountRepository.cs:31 | a consistent table yields each stored record exactly once, in row order |
| Ledger.DistinctCoversKeys | BankingWebApi/Infrastructure/Repositories/AccountRepository.cs:31 | a row order listing each identifier once is as long as the table |
| Ledger.Without | BankingWebApi/Infrastructure/Repositories/AccountRepository.cs:80 | removing an identifier from the row order drops exactly that identifier and keeps the rest distinct |
| Ledger.Renamed | BankingWebApi/Infrastructure/Repositories/AccountRepository.cs:49-54 | renaming changes that account's name only; the keys and all other accounts are unchanged |
| Ledger.Credited | BankingWebApi/Infrastructure/Repositories/AccountRepository.cs:56-61 | crediting raises that balance by the amount, with no sign check, and changes nothing else |
| Ledger.Debited | BankingWebApi/Infrastructure/Repositories/AccountRepository.cs:63-68 | debiting lowers that balance by the amount, with no sign or sufficiency check, and changes nothing else |
| Ledger.WithActive | BankingWebApi/Infrastructure/Repositories/AccountRepository.cs:70-75 | setting the flag changes only that account's active flag |
| Ledger.DebitUndoesCredit | BankingWebApi/Infrastructure/Repositories/AccountRepository.cs:56-68 | subtracting what was added restores the table |
| Ledger.UpdatesKeepKeys | BankingWebApi/Infrastructure/Repositories/AccountRepository.cs:49-75 | the field writes keep every record under its own identifier |
| Ledger.RemoveKeepsConsistent | BankingWebApi/Infrastructure/Repositories/AccountRepository.cs:77-82 | removing a record keeps the table consistent |
| Ledger.AddKeepsConsistent | BankingWebApi/Infrastructure/Repositories/AccountRepository.cs:17-21 | adding a record under a new identifier keeps the table consistent |
| AccountRules.GetAccount | BankingWebApi/Application/Services/AccountsServices.cs:56-66 | the lookup succeeds exactly for a stored id, returns that record, and otherwise fails with "Account does not exist." |
| AccountRules.AccountExistsAndActive | BankingWebApi/Application/Services/AccountsServices.cs:14-25 | the check passes exactly for an account that exists and is active, and otherwise names the missing or inactive case |
| AccountRules.CreateAccount | BankingWebApi/Application/Services/AccountsServices.cs:33-45 | creation adds exactly one record, the new active account, under the fresh id, and leaves the others unchanged |
| AccountRules.ChangeName | BankingWebApi/Application/Services/AccountsServices.cs:68-76 | renaming succeeds exactly on an existing active account, reports missing or inactive otherwise, and a failure changes nothing |
| AccountRules.Deposit | BankingWebApi/Application/Services/AccountsServices.cs:78-91 | a negative amount fails before the lookup; otherwise a deposit succeeds exactly on an active account and credits it; a failure changes nothing |
| AccountRules.Withdraw | BankingWebApi/Application/Services/AccountsServices.cs:93-111 | a negative amount fails first; then missing, inactive and over-balance amounts fail; a success debits the account and leaves its balance non-negative; a failure changes nothing |
| AccountRules.Transfer | BankingWebApi/Application/Services/AccountsServices.cs:113-123 | a transfer succeeds exactly when both accounts exist and are active and 0 <= amount <= the source balance; each error is reported in check order; a failure changes nothing; a success moves the amount, conserves the two balances' sum, keeps the source non-negative and touches no other account |
| AccountRules.DeleteAccount | BankingWebApi/Application/Services/AccountsServices.cs:125-139 | soft delete succeeds exactly on an active account with balance <= 0, reports already-deactivated or positive balance otherwise, and sets only the flag |
| AccountRules.ReactivateAccount | BankingWebApi/Application/Services/AccountsServices.cs:141-151 | reactivation succeeds exactly on an inactive account, whatever its balance, and sets only the flag |
| AccountRules.HardDeleteAccount | BankingWebApi/Application/Services/AccountsServices.cs:153-156 | a hard delete removes exactly that record with no state or balance check, after which the lookup fails; an unknown id fails and changes nothing |
| AccountRules.LegacyDeposit | BankingWebApi/BankingWebApi/Repositories/AccountRepository.cs:94-108 | the lookup comes before the sign check; a deposit succeeds exactly on an active account with a non-negative amount and credits it; a failure changes nothing |
| AccountRules.LegacyWithdraw | BankingWebApi/BankingWebApi/Repositories/AccountRepository.cs:110-128 | the lookup comes before the sign check; insufficient funds are refused; a success leaves the balance non-negative; a failure changes nothing |
| AccountRules.CheckOrderDiffers | BankingWebApi/BankingWebApi/Repositories/AccountRepository.cs:94-101 | the generations' Deposit and Withdraw differ exactly on an unknown id with a negative amount: one reports the amount, the other the missing account |
| AccountRules.TransferAgrees | BankingWebApi/BankingWebApi/Repositories/AccountRepository.cs:130-141 | the older generation's transfer behaves exactly as the service's |
| AccountRules.OperationsKeepBalancesNonNegative | BankingWebApi/Application/Services/AccountsServices.cs:68-156 | every operation keeps all balances non-negative; creation does so exactly when the opening balance is non-negative |
| AccountRules.DeactivateThenReactivate | BankingWebApi/Application/Services/AccountsServices.cs:125-151 | reactivating a just-deactivated account restores the table |
| AccountRules.HardDeleteIsFinal | BankingWebApi/Application/Services/AccountsServices.cs:153-156 | after a hard delete, every later operation on that id fails and changes nothing |
| AccountRules.CreateThenGet | BankingWebApi/Application/Services/AccountsServices.cs:33-66 | looking up a created account returns it active, with its name and balance |
| AccountRules.TransferScenario | BankingWebApi/Application/Services/AccountsServices.cs:93-123 | accounts opened with 150 and 0 hold 100 and 50 after a transfer of 50, and a withdrawal of 999 from the first is refused |
| Repositories.AccountRepository.constructor | BankingWebApi/Infrastructure/Repositories/AccountRepository.cs:12-15 | the store starts empty and consistent |
| Repositories.AccountRepository.CreateAccount | BankingWebApi/Infrastructure/Repositories/AccountRepository.cs:17-21 | the record is stored unchanged under its id and the table stays consistent; the model appends its id to the row order |
| Repositories.AccountRepository.GetAccounts | BankingWebApi/Infrastructure/Repositories/AccountRepository.cs:23-42 | the result is the listing query over the table's rows |
| Repositories.AccountRepository.GetAccount | BankingWebApi/Infrastructure/Repositories/AccountRepository.cs:44-47 | the lookup returns the stored record, or none for an unknown id, and changes nothing |
| Repositories.AccountRepository.UpdateName | BankingWebApi/Infrastructure/Repositories/AccountRepository.cs:49-54 | the table becomes the renamed table, and the row order is unchanged |
| Repositories.AccountRepository.AddToBalance | BankingWebApi/Infrastructure/Repositories/AccountRepository.cs:56-61 | the table becomes the credited table, with no sign check |
| Repositories.AccountRepository.SubtractFromBalance | BankingWebApi/Infrastructure/Repositories/AccountRepository.cs:63-68 | the table becomes the debited table, with no sign or sufficiency check |
| Repositories.AccountRepository.UpdateActive | BankingWebApi/Infrastructure/Repositories/AccountRepository.cs:70-75 | only the account's active flag changes |
| Repositories.AccountRepository.DeleteAccount | BankingWebApi/Infrastructure/Repositories/AccountRepository.cs:77-82 | exactly that record and its row are removed; an unknown id fails with a null-entity error and changes nothing |
| Services.AccountsServices.constructor | BankingWebApi/Application/Services/AccountsServices.cs:27-31 | the service works on the given repository |
| Services.AccountsServices.CreateAccount | BankingWebApi/Application/Services/AccountsServices.cs:33-45 | the returned account and new table are those of `AccountRules.CreateAccount` |
| Services.AccountsServices.GetAccounts | BankingWebApi/Application/Services/AccountsServices.cs:47-54 | the page and metadata are `Listing.List` over the repository's rows |
| Services.AccountsServices.GetAccount | BankingWebApi/Application/Services/AccountsServices.cs:56-66 | the result is `AccountRules.GetAccount` of the table |
| Services.AccountsServices.ChangeName | BankingWebApi/Application/Services/AccountsServices.cs:68-76 | outcome and new table are `AccountRules.ChangeName` of the old table |
| Services.AccountsServices.Deposit | BankingWebApi/Application/Services/AccountsServices.cs:78-91 | outcome and new table are `AccountRules.Deposit` of the old table |
| Services.AccountsServices.Withdraw | BankingWebApi/Application/Services/AccountsServices.cs:93-111 | outcome and new table are `AccountRules.Withdraw` of the old table |
| Services.AccountsServices.Transfer | BankingWebApi/Application/Services/AccountsServices.cs:113-123 | outcome and new table are `AccountRules.Transfer` of the old table |
| Services.AccountsServices.DeleteAccount | BankingWebApi/Application/Services/AccountsServices.cs:125-139 | outcome and new table are `AccountRules.DeleteAccount` of the old table |
| Services.AccountsServices.ReactivateAccount | BankingWebApi/Application/Services/AccountsServices.cs:141-151 | outcome and new table are `AccountRules.ReactivateAccount` of the old table |
| Services.AccountsServices.HardDeleteAccount | BankingWebApi/Application/Services/AccountsServices.cs:153-156 | outcome and new table are `AccountRules.HardDeleteAccount` of the old table |
| LegacyRepositories.AccountRepository.constructor | BankingWebApi/BankingWebApi/Repositories/AccountRepository.cs:49-53 | the repository starts with an empty, consistent table |
| LegacyRepositories.AccountRepository.GetAccount | BankingWebApi/BankingWebApi/Repositories/AccountRepository.cs:37-47 | the result is `AccountRules.GetAccount` of the table |
| LegacyRepositories.AccountRepository.GetAccounts | BankingWebApi/BankingWebApi/Repositories/AccountRepository.cs:55-76 | the page and metadata are `Listing.List` over the table's rows |
| LegacyRepositories.AccountRepository.GetAccountDto | BankingWebApi/BankingWebApi/Repositories/AccountRepository.cs:78-81 | the stored record, or "Account does not exist." |
| LegacyRepositories.AccountRepository.ChangeName | BankingWebApi/BankingWebApi/Repositories/AccountRepository.cs:83-92 | outcome and new table are `AccountRules.ChangeName` of the old table |
| LegacyRepositories.AccountRepository.Deposit | BankingWebApi/BankingWebApi/Repositories/AccountRepository.cs:94-108 | outcome and new table are `AccountRules.LegacyDeposit` of the old table |
| LegacyRepositories.AccountRepository.Withdraw | BankingWebApi/BankingWebApi/Repositories/AccountRepository.cs:110-128 | outcome and new table are `AccountRules.LegacyWithdraw` of the old table |
| LegacyRepositories.AccountRepository.Transfer | BankingWebApi/BankingWebApi/Repositories/AccountRepository.cs:130-141 | outcome and new table are `AccountRules.LegacyTransfer` of the old table, which `AccountRules.TransferAgrees` equates with the service's transfer |
| LegacyRepositories.AccountRepository.CreateAccount | BankingWebApi/BankingWebApi/Repositories/AccountRepository.cs:143-156 | the returned account and new table are those of `AccountRules.CreateAccount`; the model appends its id to the row order |
| LegacyRepositories.AccountRepository.ReactivateAccount | BankingWebApi/BankingWebApi/Repositories/AccountRepository.cs:158-167 | outcome and new table are `AccountRules.ReactivateAccount` of the old table |
| LegacyRepositories.AccountRepository.DeleteAccount | BankingWebApi/BankingWebApi/Repositories/AccountRepository.cs:169-182 | outcome and new table are `AccountRules.DeleteAccount` of the old table |
| SavingChanges.ClockReads | BankingWebApi/BankingWebApi/Context/AccountsDbContext.cs:35-54 | an entry costs no clock read exactly when the handler skips it, and at most two |
| SavingChanges.Stamp | BankingWebApi/BankingWebApi/Context/AccountsDbContext.cs:35-54 | an Added entity gets both dates from two successive reads; a Modified or Deleted one gets a new update date and keeps its creation date; any other entry, or one that is not an `Entity`, is untouched; nothing but the dates changes |
| SavingChanges.TotalReads | BankingWebApi/BankingWebApi/Context/AccountsDbContext.cs:35-54 | the walk reads the clock at most twice per entry |
| SavingChanges.StampAll | BankingWebApi/BankingWebApi/Context/AccountsDbContext.cs:35-55 | the walk keeps the number of entries |
| SavingChanges.StampAllAt | BankingWebApi/BankingWebApi/Context/AccountsDbContext.cs:35-55 | entry i is stamped with the clock reads that follow those of the earlier entries |
| SavingChanges.StampAllSnoc | BankingWebApi/BankingWebApi/Context/AccountsDbContext.cs:35-55 | walking one more entry appends its stamped form and adds its clock reads |
| SavingChanges.AccountsContextSavingChanges | BankingWebApi/BankingWebApi/Context/AccountsDbContext.cs:26-56 | the in-place loop leaves the entries as `StampAll` of the old entries and returns the number of clock reads |
| SavingChanges.AccountsDbContext.constructor | BankingWebApi/BankingWebApi/Context/AccountsDbContext.cs:8-11 | the context works on the given tracker entries |
| SavingChanges.AccountsDbContext.SaveChanges | BankingWebApi/BankingWebApi/Context/AccountsDbContext.cs:8-24 | every save stamps the tracked entries first |
| SavingChanges.StampAllTouchesOnlyDates | BankingWebApi/BankingWebApi/Context/AccountsDbContext.cs:28-37 | an entry the handler does not select is unchanged, and every entry keeps its state, its kind and all fields but the dates |
| SavingChanges.AddedDatesMayDiffer | BankingWebApi/BankingWebApi/Context/AccountsDbContext.cs:42-47 | a clock that advances between the two reads gives an Added entity different creation and update dates |
| SavingChanges.LegacyAccountEntry | BankingWebApi/BankingWebApi/Models/Account.cs:3 | the older generation's accounts are entries the handler never selects |
| SavingChanges.LegacyAccountsNeverStamped | BankingWebApi/BankingWebApi/Context/AccountsDbContext.cs:35-37 | saving leaves every entry of such accounts unchanged, whatever their states and the clock |
| SavingChanges.LegacyCreatedAccountKeepsDefaultDates | BankingWebApi/BankingWebApi/Repositories/AccountRepository.cs:143-156 | an account created by the older generation is saved with the default dates |
| SavingChanges.AccountEntry | BankingWebApi/Domain/Entities/Account.cs:2 | an account that is an `Entity` is selected exactly in the Added, Modified and Deleted states |
| SavingChanges.AccountsAreStamped | BankingWebApi/BankingWebApi/Context/AccountsDbContext.cs:42-53 | such an account is stamped: both dates when created, the update date when modified or deleted, nothing otherwise |

## Left out

- Asynchronous calls, `SaveChangesAsync` and its concurrency-exception handling, and races between concurrent requests: each operation is one sequential step.
- The physical database, the object-relational mapping and the DTO mapping: the table is a map and the row order a sequence, and DTOs are the records themselves.
- The layered generation's database context is not part of this model, so its writes stamp no dates.
- `SortBy` is looked up by reflection in the source; the model takes the four documented fields as an enumeration, and other property names are not modelled.
- `ToLower` and the ordering of names are culture-sensitive in the source; the model lowers ASCII letters only and compares names ordinally.
- A null `Name` is not modelled; names are strings.
- `decimal` range and overflow are not modelled; amounts and balances are unbounded integers.
- `Guid.NewGuid()` is a parameter; `AccountRules.CreateAccount` and both generations' `CreateAccount` require an identifier the table does not hold, which is how the model takes Guid uniqueness.
- `DateTime.UtcNow` is a clock parameter indexed by the number of earlier reads.
- Repositories.AccountRepository.UpdateName: like `AddToBalance`, `SubtractFromBalance` and `UpdateActive`, it requires a stored id, because the source dereferences the lookup result and would throw on an unknown id; the service never calls it otherwise.
- The database yields rows in an order the query does not fix, as it has no `ORDER BY`; the model's choice is insertion order, which decides ties between equal sort keys because the sort is stable.
- Listing.Query: a negative skip count is taken with LINQ-to-objects semantics (skip nothing); how a database provider translates a negative offset is not modelled.
- Linq.OrderByDynamic: the stable tie-break of LINQ ordering is implemented by the model's insertion sort but not stated in its contract.
- Controllers, currency conversion, authentication, CSV output and dependency-injection wiring are outside the account core.

## Findings

| source | as written | input that shows it | evidently intended | confidence | as-written member | corrected member |
|---|---|---|---|---|---|---|
| BankingWebApi/BankingWebApi/Models/Account.cs:3 | the older generation's `Account` declares its own `CreatedDate` and `UpdatedDate` but does not derive from `Entity`, so the save handler's `is Entity` filter never selects an account | any account created by the older `CreateAccount` and saved keeps `default(DateTime)` as both dates, and every listing sorted by the default `CreatedDate` ties | `Account` derives from `Entity`, as the layered generation's `Account` does, so accounts are stamped on save | medium, not executed | SavingChanges.LegacyAccountsNeverStamped | SavingChanges.AccountsAreStamped |
