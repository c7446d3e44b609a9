/** The save-time timestamping of the older generation's database context.
    Before each save, a handler registered in the context's constructor
    walks the change tracker's entries and, for each entry whose entity is
    an `Entity` and whose state is Added, Modified or Deleted, writes the
    clock into the entity's dates: both dates when Added, the update date
    otherwise. Each read of the clock is a separate call, so the model takes
    the clock as a function from the number of earlier reads to a time. */
module SavingChanges {
  import opened Entities

  datatype EntityState = Detached | Unchanged | Deleted | Modified | Added

  /** A change-tracker entry: the tracked account, its state, and whether
      its runtime class derives from `Entity`. */
  datatype EntityEntry = EntityEntry(state: EntityState, entity: Account, isEntity: bool)

  /** The handler's filter: an `Entity` in one of the three changed
      states. */
  predicate Stamped(e: EntityEntry)
  {
    e.isEntity && (e.state == Added || e.state == Modified || e.state == Deleted)
  }

  /** How many times the handler reads the clock for one entry. */
  function ClockReads(e: EntityEntry): (r: nat)
    ensures r <= 2
    ensures r == 0 <==> !Stamped(e)
  {
    if !Stamped(e) then 0 else if e.state == Added then 2 else 1
  }

  /** The entry after the handler has visited it, when the clock has been
      read k times before. */
  function Stamp(e: EntityEntry, now: nat -> DateTime, k: nat): (r: EntityEntry)
    ensures r.state == e.state && r.isEntity == e.isEntity
    ensures r.entity == e.entity.(createdDate := r.entity.createdDate, updatedDate := r.entity.updatedDate)
    ensures !Stamped(e) ==> r == e
    ensures Stamped(e) && e.state == Added ==>
      r.entity.createdDate == now(k) && r.entity.updatedDate == now(k + 1)
    ensures Stamped(e) && e.state != Added ==>
      r.entity.createdDate == e.entity.createdDate && r.entity.updatedDate == now(k)
  {
    if !Stamped(e) then e
    else if e.state == Added then
      e.(entity := e.entity.(createdDate := now(k), updatedDate := now(k + 1)))
    else
      e.(entity := e.entity.(updatedDate := now(k)))
  }

  /** The clock reads the handler takes for all of es. */
  function TotalReads(es: seq<EntityEntry>): (r: nat)
    ensures r <= 2 * |es|
  {
    if es == [] then 0 else TotalReads(es[..|es| - 1]) + ClockReads(es[|es| - 1])
  }

  /** The entries after the handler has walked all of them in order. */
  function StampAll(es: seq<EntityEntry>, now: nat -> DateTime): (r: seq<EntityEntry>)
    ensures |r| == |es|
  {
    if es == [] then []
    else
      var n := |es| - 1;
      StampAll(es[..n], now) + [Stamp(es[n], now, TotalReads(es[..n]))]
  }

  /** Entry i is stamped with the clock as it stands after the reads taken
      for the entries before it. */
  lemma {:induction false} StampAllAt(es: seq<EntityEntry>, now: nat -> DateTime, i: int)
    requires 0 <= i < |es|
    ensures StampAll(es, now)[i] == Stamp(es[i], now, TotalReads(es[..i]))
  {
    var n := |es| - 1;
    if i < n {
      StampAllAt(es[..n], now, i);
      assert es[..n][..i] == es[..i];
    }
  }

  /** Walking one more entry appends its stamped form. */
  lemma StampAllSnoc(es: seq<EntityEntry>, i: nat, now: nat -> DateTime)
    requires i < |es|
    ensures StampAll(es[..i + 1], now) == StampAll(es[..i], now) + [Stamp(es[i], now, TotalReads(es[..i]))]
    ensures TotalReads(es[..i + 1]) == TotalReads(es[..i]) + ClockReads(es[i])
  {
    assert es[..i + 1][..i] == es[..i];
  }

  /** The handler: a loop over the tracked entries that stamps each one in
      place. It returns the number of clock reads it took. */
  method AccountsContextSavingChanges(entries: array<EntityEntry>, now: nat -> DateTime) returns (readCount: nat)
    modifies entries
    ensures entries[..] == StampAll(old(entries[..]), now)
    ensures readCount == TotalReads(old(entries[..]))
  {
    ghost var original := entries[..];
    readCount := 0;
    var i := 0;
    while i < entries.Length
      invariant 0 <= i <= entries.Length
      invariant readCount == TotalReads(original[..i])
      invariant entries[..i] == StampAll(original[..i], now)
      invariant entries[i..] == original[i..]
    {
      var changedEntity := entries[i];
      assert changedEntity == original[i] by {
        assert entries[i..][0] == original[i..][0];
      }
      if changedEntity.isEntity && (changedEntity.state == Added || changedEntity.state == Modified || changedEntity.state == Deleted) {
        var entity := changedEntity.entity;
        if changedEntity.state == Added {
          var created := now(readCount);
          var updated := now(readCount + 1);
          entity := entity.(createdDate := created, updatedDate := updated);
          readCount := readCount + 2;
        } else {
          var updated := now(readCount);
          entity := entity.(updatedDate := updated);
          readCount := readCount + 1;
        }
        entries[i] := changedEntity.(entity := entity);
      }
      StampAllSnoc(original, i, now);
      assert entries[..i + 1] == entries[..i] + [entries[i]];
      i := i + 1;
    }
    assert original[..entries.Length] == original;
  }

  /** The older generation's database context: the constructor registers
      the handler, so every save stamps the tracked entries first. */
  class AccountsDbContext {
    const entries: array<EntityEntry>

    constructor (tracked: array<EntityEntry>)
      ensures entries == tracked
    {
      entries := tracked;
    }

    /** `SaveChangesAsync`: runs the handler, then writes (the write itself
        is outside the model). */
    method SaveChanges(now: nat -> DateTime) returns (readCount: nat)
      modifies entries
      ensures entries[..] == StampAll(old(entries[..]), now)
      ensures readCount == TotalReads(old(entries[..]))
    {
      readCount := AccountsContextSavingChanges(entries, now);
    }
  }

  /** Entries the handler does not select keep their dates, and every
      entry keeps its state, its kind and every field but the dates. */
  lemma StampAllTouchesOnlyDates(es: seq<EntityEntry>, now: nat -> DateTime, i: int)
    requires 0 <= i < |es|
    ensures !Stamped(es[i]) ==> StampAll(es, now)[i] == es[i]
    ensures var r := StampAll(es, now)[i];
      && r.state == es[i].state && r.isEntity == es[i].isEntity
      && r.entity.(createdDate := es[i].entity.createdDate, updatedDate := es[i].entity.updatedDate) == es[i].entity
  {
    StampAllAt(es, now, i);
  }

  /** An Added entity's two dates come from two consecutive clock reads, so
      a clock that moves between them makes them differ. */
  lemma AddedDatesMayDiffer()
    ensures var e := EntityEntry(Added, NewAccount(1, "a", 0), true);
      var r := StampAll([e], (k: nat) => k as DateTime)[0];
      r.entity.createdDate == 0 && r.entity.updatedDate == 1
  {
    var e := EntityEntry(Added, NewAccount(1, "a", 0), true);
    assert [e][..0] == [];
  }

  /** The older generation tracks its own account class, which declares the
      two dates but does not derive from `Entity`; its entries are never
      selected by the handler. */
  function LegacyAccountEntry(state: EntityState, a: Account): (r: EntityEntry)
    ensures r.state == state && r.entity == a && !Stamped(r)
  {
    EntityEntry(state, a, false)
  }

  /** As written: saving leaves every entry of the older generation's
      accounts as it was, whatever their states and the clock. */
  lemma {:induction false} LegacyAccountsNeverStamped(es: seq<EntityEntry>, now: nat -> DateTime)
    requires forall i | 0 <= i < |es| :: es[i] == LegacyAccountEntry(es[i].state, es[i].entity)
    ensures StampAll(es, now) == es
  {
    if es != [] {
      var n := |es| - 1;
      LegacyAccountsNeverStamped(es[..n], now);
      assert es == es[..n] + [es[n]];
    }
  }

  /** As written: an account created in the older generation is saved
      with the default dates. */
  lemma LegacyCreatedAccountKeepsDefaultDates(id: Guid, name: string, balance: int, now: nat -> DateTime)
    ensures var r := StampAll([LegacyAccountEntry(Added, NewAccount(id, name, balance))], now)[0].entity;
      r.createdDate == DefaultDate && r.updatedDate == DefaultDate
  {
    LegacyAccountsNeverStamped([LegacyAccountEntry(Added, NewAccount(id, name, balance))], now);
  }

  /** The account entry as evidently intended: an account is an `Entity`,
      as the layered generation's account class is. */
  function AccountEntry(state: EntityState, a: Account): (r: EntityEntry)
    ensures r.state == state && r.entity == a
    ensures Stamped(r) <==> state == Added || state == Modified || state == Deleted
  {
    EntityEntry(state, a, true)
  }

  /** Corrected: a created account gets both dates from the clock, a
      modified or deleted one gets a new update date and keeps its creation
      date. */
  lemma AccountsAreStamped(a: Account, state: EntityState, now: nat -> DateTime)
    ensures var r := StampAll([AccountEntry(state, a)], now)[0].entity;
      && (state == Added ==> r.createdDate == now(0) && r.updatedDate == now(1))
      && (state == Modified || state == Deleted ==> r.createdDate == a.createdDate && r.updatedDate == now(0))
      && (state == Unchanged || state == Detached ==> r == a)
  {
    assert [AccountEntry(state, a)][..0] == [];
  }
}
