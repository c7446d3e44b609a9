/** The `GetAccounts` listing pipeline shared by both repository generations:
    keep the accounts the filter matches, order them by the sort field in the
    sort order, skip the earlier pages and take one page. */
module Listing {
  import opened Entities
  import Text
  import Linq

  /** The `Where` clause: the lowered name contains the lowered search term,
      and the active flag equals the filter's when the filter sets one. */
  predicate Matches(filter: AccountsFilter, a: Account)
  {
    Text.Contains(Text.Lower(a.name), Text.Lower(filter.searchTerm))
    && (if filter.active.Some? then filter.active.value == a.active else true)
  }

  /** `Where`: the matching rows, in the order the table yields them. */
  function Where(rows: seq<Account>, filter: AccountsFilter): (r: seq<Account>)
    ensures |r| <= |rows|
    ensures forall a :: a in r <==> a in rows && Matches(filter, a)
  {
    if rows == [] then []
    else if Matches(filter, rows[0]) then [rows[0]] + Where(rows[1..], filter)
    else Where(rows[1..], filter)
  }

  /** `Skip(n)`: a count of zero or less skips nothing. */
  function Skip(s: seq<Account>, n: int): (r: seq<Account>)
    ensures n <= 0 ==> r == s
    ensures 0 < n <= |s| ==> r == s[n..]
    ensures n > |s| ==> r == []
  {
    if n <= 0 then s else if n >= |s| then [] else s[n..]
  }

  /** `Take(n)`: a count of zero or less takes nothing. */
  function Take(s: seq<Account>, n: int): (r: seq<Account>)
    ensures |r| == if n <= 0 then 0 else if n < |s| then n else |s|
    ensures r == s[..|r|]
  {
    if n <= 0 then [] else if n >= |s| then s else s[..n]
  }

  /** Skipping then taking cuts one contiguous slice; when the skip count
      is within the sequence, the slice starts there. */
  lemma TakeSkipIsSlice(s: seq<Account>, n: int, m: int)
    ensures var lo := if n <= 0 then 0 else if n < |s| then n else |s|;
      var hi := if m <= 0 then lo else if lo + m < |s| then lo + m else |s|;
      Take(Skip(s, n), m) == s[lo..hi]
    ensures 0 <= n <= |s| ==> Take(Skip(s, n), m) == Take(s[n..], m)
  {
  }

  /** The index of the first item of the requested page. The page number
      and the page size are 32-bit integers and the arithmetic is unchecked,
      so the subtraction and the product wrap around; the result agrees
      with the exact product modulo 2^32, and equals it when it fits. */
  function PageStart(filter: AccountsFilter): (r: Int32)
    ensures (r - filter.pageSize * (filter.pageNumber - 1)) % 0x1_0000_0000 == 0
    ensures -0x8000_0000 <= filter.pageSize * (filter.pageNumber - 1) < 0x8000_0000 ==>
      r == filter.pageSize * (filter.pageNumber - 1)
  {
    UncheckedProduct(filter.pageSize, filter.pageNumber - 1);
    Wrap32(filter.pageSize * Wrap32(filter.pageNumber - 1))
  }

  /** 32-bit unchecked `a * b`, with b wrapped first: it agrees with the
      exact product modulo 2^32, and equals it when it fits. */
  lemma UncheckedProduct(a: int, b: int)
    requires -0x8000_0001 <= b < 0x8000_0000
    ensures var r := Wrap32(a * Wrap32(b));
      && (r - a * b) % 0x1_0000_0000 == 0
      && (-0x8000_0000 <= a * b < 0x8000_0000 ==> r == a * b)
  {
    var c := Wrap32(b);
    var r := Wrap32(a * c);
    WrapFactor(a, b, c);
    SumOfMultiples(r - a * c, a * c - a * b);
    assert r - a * b == (r - a * c) + (a * c - a * b);
    if b < -0x8000_0000 && a != 0 {
      if a >= 1 {
        FactorAtMostProduct(a, -b);
        assert a * b <= b;
      } else {
        FactorAtMostProduct(-a, -b);
        assert a * b >= -b;
      }
    }
  }

  lemma WrapFactor(a: int, b: int, c: int)
    requires (c - b) % 0x1_0000_0000 == 0
    ensures (a * c - a * b) % 0x1_0000_0000 == 0
  {
    var q := (c - b) / 0x1_0000_0000;
    assert c - b == 0x1_0000_0000 * q;
    assert a * c - a * b == a * (c - b) == 0x1_0000_0000 * (a * q);
  }

  lemma SumOfMultiples(x: int, y: int)
    requires x % 0x1_0000_0000 == 0 && y % 0x1_0000_0000 == 0
    ensures (x + y) % 0x1_0000_0000 == 0
  {
    assert x == 0x1_0000_0000 * (x / 0x1_0000_0000);
    assert y == 0x1_0000_0000 * (y / 0x1_0000_0000);
    assert x + y == 0x1_0000_0000 * (x / 0x1_0000_0000 + y / 0x1_0000_0000);
  }

  /** The matching rows, in the order the filter asks for. */
  function Ordered(rows: seq<Account>, filter: AccountsFilter): seq<Account>
  {
    Linq.Items(Linq.OrderByDynamic(Where(rows, filter), filter.sortBy, IsAscending(filter.sortOrder)))
  }

  /** A slice of a sequence ordered by `field` in a direction is ordered
      the same way. */
  lemma SliceKeepsOrder(s: seq<Account>, lo: int, hi: int, field: SortField, ascending: bool)
    requires 0 <= lo <= hi <= |s|
    requires forall i, j :: 0 <= i < j < |s| ==> Linq.InDirection(field, ascending, s[i], s[j])
    ensures forall i, j :: 0 <= i < j < hi - lo ==> Linq.InDirection(field, ascending, s[lo..hi][i], s[lo..hi][j])
  {
    forall i, j | 0 <= i < j < hi - lo
      ensures Linq.InDirection(field, ascending, s[lo..hi][i], s[lo..hi][j])
    {
      assert s[lo..hi][i] == s[lo + i] && s[lo..hi][j] == s[lo + j];
    }
  }

  /** The ordered matches are exactly the matching rows, ordered. */
  lemma OrderedMatches(rows: seq<Account>, filter: AccountsFilter)
    ensures forall a :: a in Ordered(rows, filter) ==> a in rows && Matches(filter, a)
    ensures var s := Ordered(rows, filter);
      forall i, j :: 0 <= i < j < |s| ==>
        Linq.InDirection(filter.sortBy, IsAscending(filter.sortOrder), s[i], s[j])
  {
    var s := Ordered(rows, filter);
    forall a | a in s ensures a in rows && Matches(filter, a) {
      assert a in multiset(s);
      assert a in multiset(Where(rows, filter));
    }
  }

  /** One page of the listing: at most a page size of accounts, each one a
      row the filter matches, in the requested order, and exactly the slice
      of the ordered matches that starts at the page's first index. A first
      index below zero skips nothing; one past the end leaves the page
      empty. */
  function Query(rows: seq<Account>, filter: AccountsFilter): (r: seq<Account>)
    ensures |r| <= if filter.pageSize < 0 then 0 else filter.pageSize
    ensures forall a :: a in r ==> a in rows && Matches(filter, a)
    ensures forall i, j :: 0 <= i < j < |r| ==>
      Linq.InDirection(filter.sortBy, IsAscending(filter.sortOrder), r[i], r[j])
    ensures var s, start := Ordered(rows, filter), PageStart(filter);
      && (0 <= start <= |s| ==> r == Take(s[start..], filter.pageSize))
      && (start < 0 ==> r == Take(s, filter.pageSize))
      && (start > |s| ==> r == [])
  {
    SliceProperties(Ordered(rows, filter), rows, filter);
    Take(Skip(Ordered(rows, filter), PageStart(filter)), filter.pageSize)
  }

  /** The page cut from the ordered matches s keeps their properties. */
  lemma SliceProperties(s: seq<Account>, rows: seq<Account>, filter: AccountsFilter)
    requires s == Ordered(rows, filter)
    ensures var r := Take(Skip(s, PageStart(filter)), filter.pageSize);
      && (forall a :: a in r ==> a in rows && Matches(filter, a))
      && (forall i, j :: 0 <= i < j < |r| ==>
           Linq.InDirection(filter.sortBy, IsAscending(filter.sortOrder), r[i], r[j]))
  {
    var n, m := PageStart(filter), filter.pageSize;
    var lo := if n <= 0 then 0 else if n < |s| then n else |s|;
    var hi := if m <= 0 then lo else if lo + m < |s| then lo + m else |s|;
    TakeSkipIsSlice(s, n, m);
    OrderedMatches(rows, filter);
    assert forall a :: a in s[lo..hi] ==> a in s;
    SliceKeepsOrder(s, lo, hi, filter.sortBy, IsAscending(filter.sortOrder));
  }

  /** The first index wraps around: with two accounts to a page, page
      2^30 + 1 starts at -2^31, so it skips nothing and yields the first
      page. */
  lemma PageStartWraps(rows: seq<Account>, filter: AccountsFilter)
    requires filter.pageSize == 2 && filter.pageNumber == 0x4000_0001
    ensures PageStart(filter) == -0x8000_0000
    ensures Query(rows, filter) == Take(Ordered(rows, filter), 2)
  {
    assert filter.pageSize * (filter.pageNumber - 1) == 0x8000_0000;
  }

  /** The metadata both generations attach to a page: the number of items
      on the page, the page size and the page number. */
  datatype PaginationMetadata = PaginationMetadata(totalItemCount: int, pageSize: int, currentPage: int)

  /** The page and its metadata; the count is that of the page itself, so
      it never exceeds the page size. */
  function List(rows: seq<Account>, filter: AccountsFilter): (r: (seq<Account>, PaginationMetadata))
    ensures r.0 == Query(rows, filter)
    ensures r.1.totalItemCount == |r.0|
    ensures 0 <= r.1.totalItemCount && (0 <= filter.pageSize ==> r.1.totalItemCount <= filter.pageSize)
    ensures r.1.pageSize == filter.pageSize && r.1.currentPage == filter.pageNumber
  {
    var page := Query(rows, filter);
    (page, PaginationMetadata(|page|, filter.pageSize, filter.pageNumber))
  }

  /** A filter without an active flag places no restriction on it. */
  lemma NoActiveFlagKeepsBoth(filter: AccountsFilter, a: Account)
    requires filter.active == None
    ensures Matches(filter, a) <==> Matches(filter, a.(active := !a.active))
  {
  }

  /** The default search term excludes nothing: every row is kept, in
      table order. */
  lemma {:induction false} EmptySearchKeepsAll(rows: seq<Account>, filter: AccountsFilter)
    requires filter.searchTerm == [] && filter.active == None
    ensures Where(rows, filter) == rows
  {
    if rows != [] {
      Text.EveryStringContainsEmpty(Text.Lower(rows[0].name));
      EmptySearchKeepsAll(rows[1..], filter);
    }
  }

  /** The ordered matches do not depend on the paging fields. */
  lemma {:induction false} WhereIgnoresPaging(rows: seq<Account>, f: AccountsFilter, g: AccountsFilter)
    requires f.searchTerm == g.searchTerm && f.active == g.active
    ensures Where(rows, f) == Where(rows, g)
  {
    if rows != [] {
      WhereIgnoresPaging(rows[1..], f, g);
    }
  }

  /** Paging loses nothing: with a positive page size, every account the
      filter matches is on some page. Page numbers are 32-bit, so this holds
      for tables of fewer than 2^31 rows, where no page start wraps. */
  lemma EveryMatchIsOnSomePage(rows: seq<Account>, filter: AccountsFilter, a: Account)
    requires a in rows && Matches(filter, a)
    requires filter.pageSize > 0 && |rows| < 0x8000_0000
    ensures exists n: Int32 :: 1 <= n && a in Query(rows, filter.(pageNumber := n))
  {
    var s := Ordered(rows, filter);
    assert a in s by {
      assert a in multiset(Where(rows, filter));
      assert a in multiset(s);
    }
    var k :| 0 <= k < |s| && s[k] == a;
    assert |s| <= |rows| by {
      assert |s| == |multiset(s)| == |multiset(Where(rows, filter))|;
    }
    var size := filter.pageSize;
    IndexIsOnItsPage(k, size);
    var n: Int32 := k / size + 1;
    var f := filter.(pageNumber := n);
    WhereIgnoresPaging(rows, f, filter);
    assert PageStart(f) == size * (k / size);
    ItemOnItsPage(rows, f, k);
    assert 1 <= n && a in Query(rows, filter.(pageNumber := n));
  }

  /** The item at index k of the ordered matches is on the page that
      covers k. */
  lemma ItemOnItsPage(rows: seq<Account>, f: AccountsFilter, k: int)
    requires 0 <= PageStart(f) <= k < PageStart(f) + f.pageSize
    requires k < |Ordered(rows, f)|
    ensures Ordered(rows, f)[k] in Query(rows, f)
  {
    var s, start := Ordered(rows, f), PageStart(f);
    TakeKeepsIndex(s[start..], f.pageSize, k - start);
    assert Query(rows, f)[k - start] == s[k];
  }

  lemma TakeKeepsIndex(t: seq<Account>, n: int, i: int)
    requires 0 <= i < n && i < |t|
    ensures i < |Take(t, n)| && Take(t, n)[i] == t[i]
  {
  }

  /** Index k lies on page k / size (counting from zero). */
  lemma IndexIsOnItsPage(k: nat, size: int)
    requires size > 0
    ensures 0 <= k / size <= k
    ensures 0 <= size * (k / size) <= k < size * (k / size) + size
  {
    var q, m := k / size, k % size;
    assert k == size * q + m && 0 <= m < size;
    assert 0 <= q;
    FactorAtMostProduct(size, q);
  }

  lemma FactorAtMostProduct(a: int, b: nat)
    requires a >= 1
    ensures b <= a * b
  {
    assert a * b == (a - 1) * b + b;
  }
}
