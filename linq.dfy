/** `OrderByDynamic` and `ThenByDynamic`: ordering a sequence of accounts by
    one of the four sort fields, ascending or descending as a flag chooses.
    An ordered sequence is kept, as LINQ keeps it, as its source together
    with the ordering built so far; its items are the stable sort of the
    source by that ordering. */
module Linq {
  import opened Entities
  import Text

  /** The key of `field` in a is at most the key of `field` in b. */
  predicate KeyAtMost(field: SortField, a: Account, b: Account)
  {
    match field
    case CreatedDate => a.createdDate <= b.createdDate
    case UpdatedDate => a.updatedDate <= b.updatedDate
    case Name => Text.LessOrEqual(a.name, b.name)
    case Balance => a.balance <= b.balance
  }

  /** a may come before b when ordering by `field` in the chosen direction. */
  predicate InDirection(field: SortField, ascending: bool, a: Account, b: Account)
  {
    if ascending then KeyAtMost(field, a, b) else KeyAtMost(field, b, a)
  }

  /** An ordering: a primary key, refined by any number of secondary keys. */
  datatype Ordering =
    | OrderBy(field: SortField, ascending: bool)
    | ThenBy(primary: Ordering, field: SortField, ascending: bool)

  /** a may come before b under ordering o. A secondary key decides only
      between items the primary ordering ties. */
  predicate Before(o: Ordering, a: Account, b: Account)
  {
    match o
    case OrderBy(f, asc) => InDirection(f, asc, a, b)
    case ThenBy(p, f, asc) => Before(p, a, b) && (!Before(p, b, a) || InDirection(f, asc, a, b))
  }

  predicate Sorted(s: seq<Account>, o: Ordering)
  {
    forall i, j :: 0 <= i < j < |s| ==> Before(o, s[i], s[j])
  }

  lemma KeyAtMostTotal(field: SortField, a: Account, b: Account)
    ensures KeyAtMost(field, a, b) || KeyAtMost(field, b, a)
  {
    if field == Name {
      Text.LessOrEqualTotal(a.name, b.name);
    }
  }

  lemma KeyAtMostTransitive(field: SortField, a: Account, b: Account, c: Account)
    requires KeyAtMost(field, a, b) && KeyAtMost(field, b, c)
    ensures KeyAtMost(field, a, c)
  {
    if field == Name {
      Text.LessOrEqualTransitive(a.name, b.name, c.name);
    }
  }

  /** Any two accounts are comparable under every ordering. */
  lemma {:induction false} BeforeTotal(o: Ordering, a: Account, b: Account)
    ensures Before(o, a, b) || Before(o, b, a)
  {
    match o
    case OrderBy(f, asc) =>
      KeyAtMostTotal(f, a, b);
    case ThenBy(p, f, asc) =>
      BeforeTotal(p, a, b);
      KeyAtMostTotal(f, a, b);
  }

  /** Every ordering is transitive. */
  lemma {:induction false} BeforeTransitive(o: Ordering, a: Account, b: Account, c: Account)
    requires Before(o, a, b) && Before(o, b, c)
    ensures Before(o, a, c)
  {
    match o
    case OrderBy(f, asc) =>
      if asc {
        KeyAtMostTransitive(f, a, b, c);
      } else {
        KeyAtMostTransitive(f, c, b, a);
      }
    case ThenBy(p, f, asc) =>
      BeforeTransitive(p, a, b, c);
      if Before(p, c, a) {
        BeforeTransitive(p, c, a, b);
        BeforeTransitive(p, b, c, a);
        if asc {
          KeyAtMostTransitive(f, a, b, c);
        } else {
          KeyAtMostTransitive(f, c, b, a);
        }
      }
  }

  /** Inserts x ahead of the first item it may come before, so x stays ahead
      of the items it ties with. */
  function Insert(x: Account, s: seq<Account>, o: Ordering): (r: seq<Account>)
    ensures multiset(r) == multiset(s) + multiset{x}
  {
    if s == [] || Before(o, x, s[0]) then [x] + s
    else
      assert s == [s[0]] + s[1..];
      [s[0]] + Insert(x, s[1..], o)
  }

  lemma {:induction false} InsertKeepsSorted(x: Account, s: seq<Account>, o: Ordering)
    requires Sorted(s, o)
    ensures Sorted(Insert(x, s, o), o)
  {
    var r := Insert(x, s, o);
    if s == [] {
    } else if Before(o, x, s[0]) {
      forall j | 1 <= j < |r| ensures Before(o, x, r[j]) {
        if j > 1 {
          BeforeTransitive(o, x, s[0], s[j - 1]);
        }
      }
    } else {
      BeforeTotal(o, x, s[0]);
      var t := Insert(x, s[1..], o);
      InsertKeepsSorted(x, s[1..], o);
      forall j | 0 <= j < |t| ensures Before(o, s[0], t[j]) {
        assert t[j] in multiset(t);
        assert t[j] in multiset(s[1..]) || t[j] == x;
        if t[j] != x {
          var k :| 0 <= k < |s[1..]| && s[1..][k] == t[j];
          assert s[k + 1] == t[j];
        }
      }
    }
  }

  /** The stable sort of s under o, by insertion from the back. */
  function Sort(s: seq<Account>, o: Ordering): (r: seq<Account>)
    ensures multiset(r) == multiset(s)
  {
    if s == [] then []
    else
      assert s == [s[0]] + s[1..];
      Insert(s[0], Sort(s[1..], o), o)
  }

  lemma {:induction false} SortIsSorted(s: seq<Account>, o: Ordering)
    ensures Sorted(Sort(s, o), o)
  {
    if s != [] {
      SortIsSorted(s[1..], o);
      InsertKeepsSorted(s[0], Sort(s[1..], o), o);
    }
  }

  /** An `IOrderedEnumerable`: a source and the ordering built on it. */
  datatype Ordered = Ordered(source: seq<Account>, ordering: Ordering)

  /** Enumerating an ordered sequence sorts its source. */
  function Items(o: Ordered): (r: seq<Account>)
    ensures multiset(r) == multiset(o.source)
    ensures Sorted(r, o.ordering)
  {
    SortIsSorted(o.source, o.ordering);
    Sort(o.source, o.ordering)
  }

  /** `OrderByDynamic`: ascending order when the flag is set, descending
      otherwise; the items are a permutation of the source. */
  function OrderByDynamic(source: seq<Account>, key: SortField, ascending: bool): (r: Ordered)
    ensures multiset(Items(r)) == multiset(source)
    ensures ascending ==>
      forall i, j :: 0 <= i < j < |Items(r)| ==> KeyAtMost(key, Items(r)[i], Items(r)[j])
    ensures !ascending ==>
      forall i, j :: 0 <= i < j < |Items(r)| ==> KeyAtMost(key, Items(r)[j], Items(r)[i])
  {
    var r := Ordered(source, OrderBy(key, ascending));
    assert Sorted(Items(r), r.ordering);
    r
  }

  /** `ThenByDynamic`: the items keep the order already built, and items
      that order ties are put in order of the new key, in the chosen
      direction. */
  function ThenByDynamic(source: Ordered, key: SortField, ascending: bool): (r: Ordered)
    ensures multiset(Items(r)) == multiset(source.source)
    ensures forall i, j :: 0 <= i < j < |Items(r)| ==>
      Before(source.ordering, Items(r)[i], Items(r)[j])
    ensures forall i, j ::
      0 <= i < j < |Items(r)| && Before(source.ordering, Items(r)[j], Items(r)[i]) ==>
        InDirection(key, ascending, Items(r)[i], Items(r)[j])
  {
    var r := Ordered(source.source, ThenBy(source.ordering, key, ascending));
    assert Sorted(Items(r), r.ordering);
    r
  }
}
