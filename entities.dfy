/** The domain entities of the banking API: accounts, the listing filter and
    the failures the account operations report. */
module Entities {

  /** An account identifier (a Guid), identified by its value. */
  type Guid = int

  /** A point in time, as a tick count. */
  type DateTime = int

  /** A C# `int`: a 32-bit two's-complement integer. */
  type Int32 = x: int | -0x8000_0000 <= x < 0x8000_0000

  /** The `int` that unchecked 32-bit arithmetic yields for the exact
      result x: x itself when it fits, and otherwise x wrapped around
      modulo 2^32. */
  function Wrap32(x: int): (r: Int32)
    ensures (r - x) % 0x1_0000_0000 == 0
    ensures -0x8000_0000 <= x < 0x8000_0000 ==> r == x
  {
    if -0x8000_0000 <= x < 0x8000_0000 then x
    else (x + 0x8000_0000) % 0x1_0000_0000 - 0x8000_0000
  }

  /** `default(DateTime)`, the value of a date no one has set. */
  const DefaultDate: DateTime := 0

  datatype Option<+T> = None | Some(value: T)

  datatype Result<+T> = Ok(value: T) | Err(error: Error)

  /** The outcome of an operation that returns nothing on success. */
  datatype Outcome = Pass | Fail(error: Error)

  /** One variant per exception the account operations throw. */
  datatype Error =
    | AccountDoesNotExist
    | AccountIsInactive
    | NegativeDeposit
    | NegativeWithdrawal
    | InsufficientFunds
    | AlreadyDeactivated
    | NonZeroBalance
    | AlreadyActive
      /** `Remove(null)`: hard-deleting an identifier the store does not hold */
    | NullEntity

  /** The `Message` of the exception each failure throws. The two
      negative-amount failures pass their text to `ArgumentOutOfRangeException`
      as the parameter name, so it appears inside the standard message. */
  function Message(e: Error): string
  {
    match e
    case AccountDoesNotExist => "Account does not exist."
    case AccountIsInactive => "Account is inactive."
    case NegativeDeposit =>
      "Specified argument was out of the range of valid values. (Parameter 'Cannot deposit a negative amount.')"
    case NegativeWithdrawal =>
      "Specified argument was out of the range of valid values. (Parameter 'Cannot withdraw a negative amount.')"
    case InsufficientFunds => "Requested withdrawal amount is more than account balance."
    case AlreadyDeactivated => "Account is already deactivated."
    case NonZeroBalance =>
      "Account still has a balance of greater than 0, please withdraw before deactivating account."
    case AlreadyActive => "Account is already active."
    case NullEntity => "Value cannot be null. (Parameter 'entity')"
  }

  /** The length of each failure's message. */
  function MessageLength(e: Error): nat
  {
    match e
    case AccountDoesNotExist => 23
    case AccountIsInactive => 20
    case NegativeDeposit => 104
    case NegativeWithdrawal => 105
    case InsufficientFunds => 57
    case AlreadyDeactivated => 31
    case NonZeroBalance => 91
    case AlreadyActive => 26
    case NullEntity => 42
  }

  /** The message lengths, three failures at a time (all nine at once is
      more than the solver manages in one step). */
  lemma LookupMessageLengths(e: Error)
    requires e.AccountDoesNotExist? || e.AccountIsInactive? || e.NegativeDeposit?
    ensures |Message(e)| == MessageLength(e)
  {
  }

  lemma AmountMessageLengths(e: Error)
    requires e.NegativeWithdrawal? || e.InsufficientFunds? || e.AlreadyDeactivated?
    ensures |Message(e)| == MessageLength(e)
  {
  }

  lemma StateMessageLengths(e: Error)
    requires e.NonZeroBalance? || e.AlreadyActive? || e.NullEntity?
    ensures |Message(e)| == MessageLength(e)
  {
  }

  lemma MessageHasLength(e: Error)
    ensures |Message(e)| == MessageLength(e)
  {
    if e.AccountDoesNotExist? || e.AccountIsInactive? || e.NegativeDeposit? {
      LookupMessageLengths(e);
    } else if e.NegativeWithdrawal? || e.InsufficientFunds? || e.AlreadyDeactivated? {
      AmountMessageLengths(e);
    } else {
      StateMessageLengths(e);
    }
  }

  lemma MessageLengthsDiffer(e1: Error, e2: Error)
    requires e1 != e2
    ensures MessageLength(e1) != MessageLength(e2)
  {
  }

  /** Each failure has its own message, so a caller can tell the failures
      apart by message alone. */
  lemma MessagesIdentifyErrors(e1: Error, e2: Error)
    requires e1 != e2
    ensures Message(e1) != Message(e2)
  {
    MessageHasLength(e1);
    MessageHasLength(e2);
    MessageLengthsDiffer(e1, e2);
  }

  /** An account record: the identity, name, balance and active flag of
      `Account`, and the two dates it inherits from `Entity`. */
  datatype Account = Account(
    id: Guid,
    name: string,
    balance: int,
    active: bool,
    createdDate: DateTime,
    updatedDate: DateTime)

  /** The record both generations of `CreateAccount` build: the given name
      and balance, active, and dates left at their default. */
  function NewAccount(id: Guid, name: string, balance: int): (a: Account)
    ensures a.id == id && a.name == name && a.balance == balance
    ensures a.active
    ensures a.createdDate == DefaultDate && a.updatedDate == DefaultDate
  {
    Account(id, name, balance, true, DefaultDate, DefaultDate)
  }

  /** The four documented values of `SortBy`. */
  datatype SortField = CreatedDate | UpdatedDate | Name | Balance

  /** `AccountsFilter`: the paging, sorting and search fields of `BaseFilter`
      and the optional active flag. Being a datatype value, a filter never
      changes after it is built, as the init-only properties promise. */
  datatype AccountsFilter = AccountsFilter(
    pageNumber: Int32,
    pageSize: Int32,
    sortOrder: string,
    sortBy: SortField,
    searchTerm: string,
    active: Option<bool>)

  /** A filter built with no initialisers: every field at its default. */
  const DefaultFilter: AccountsFilter :=
    AccountsFilter(1, 10, "Desc", CreatedDate, "", None)

  /** The listing sorts ascending exactly when the sort order is "Asc";
      any other string, "Desc" among them, sorts descending. */
  predicate IsAscending(sortOrder: string)
  {
    sortOrder == "Asc"
  }

  /** The default filter asks for the first page of ten, newest first. */
  lemma DefaultFilterIsFirstPageNewestFirst()
    ensures DefaultFilter.pageNumber == 1 && DefaultFilter.pageSize == 10
    ensures DefaultFilter.sortBy == CreatedDate
    ensures !IsAscending(DefaultFilter.sortOrder)
    ensures DefaultFilter.searchTerm == [] && DefaultFilter.active == None
  {
  }
}
