/** The account table as a value: a map from identifier to record, and the
    order in which the table yields its rows. The update functions are the
    field writes the repositories perform on a looked-up record. */
module Ledger {
  import opened Entities

  type Accounts = map<Guid, Account>

  /** Every record is stored under its own identifier. */
  ghost predicate KeyedById(s: Accounts)
  {
    forall id | id in s :: s[id].id == id
  }

  /** No identifier occurs twice in the row order. */
  ghost predicate Distinct(order: seq<Guid>)
  {
    forall i, j :: 0 <= i < j < |order| ==> order[i] != order[j]
  }

  /** The table's consistency: the row order lists each stored identifier
      exactly once, and records sit under their own identifiers. */
  ghost predicate Consistent(s: Accounts, order: seq<Guid>)
  {
    && KeyedById(s)
    && Distinct(order)
    && (forall id :: id in order <==> id in s)
  }

  /** The rows of the table in its row order. */
  function Rows(s: Accounts, order: seq<Guid>): (r: seq<Account>)
    requires forall i | 0 <= i < |order| :: order[i] in s
    ensures |r| == |order|
    ensures forall i :: 0 <= i < |order| ==> r[i] == s[order[i]]
  {
    if order == [] then [] else [s[order[0]]] + Rows(s, order[1..])
  }

  /** The rows of a consistent table, in its row order: one row per
      stored record. */
  function Table(s: Accounts, order: seq<Guid>): (r: seq<Account>)
    requires Consistent(s, order)
    ensures |r| == |order| == |s|
    ensures forall i | 0 <= i < |r| :: order[i] in s && r[i] == s[order[i]]
    ensures forall id | id in s :: s[id] in r
  {
    assert forall i | 0 <= i < |order| :: order[i] in s by {
      forall i | 0 <= i < |order| ensures order[i] in s {
        var id := order[i];
        assert id in order;
        assert id in order <==> id in s;
      }
    }
    var r := Rows(s, order);
    assert forall id | id in s :: s[id] in r by {
      forall id | id in s ensures s[id] in r {
        var i :| 0 <= i < |order| && order[i] == id;
        assert r[i] == s[id];
      }
    }
    DistinctCoversKeys(s, order);
    r
  }

  /** A row order listing each stored identifier once is as long as the
      table. */
  lemma {:induction false} DistinctCoversKeys(s: Accounts, order: seq<Guid>)
    requires Distinct(order) && (forall id :: id in order <==> id in s)
    ensures |order| == |s|
  {
    if order == [] {
      forall x ensures x !in s {
        assert x !in order;
      }
      assert s.Keys == {};
    } else {
      var id := order[0];
      var rest := order[1..];
      assert Distinct(rest);
      forall x ensures x in rest <==> x in s - {id} {
        if x in rest {
          var k :| 0 <= k < |rest| && rest[k] == x;
          assert order[k + 1] == x && order[0] != order[k + 1];
        }
        if x in s - {id} {
          assert x in order;
          var k :| 0 <= k < |order| && order[k] == x;
          assert k != 0 && rest[k - 1] == x;
        }
      }
      DistinctCoversKeys(s - {id}, rest);
    }
  }

  /** The row order with one identifier taken out. */
  function Without(order: seq<Guid>, id: Guid): (r: seq<Guid>)
    ensures forall x :: x in r <==> x in order && x != id
    ensures Distinct(order) ==> Distinct(r)
  {
    if order == [] then []
    else if order[0] == id then Without(order[1..], id)
    else
      assert Distinct(order) ==> order[0] !in order[1..] && Distinct(order[1..]) by {
        if Distinct(order) {
          forall i | 0 < i < |order| ensures order[i] != order[0] {
            assert order[0] != order[i];
          }
        }
      }
      [order[0]] + Without(order[1..], id)
  }

  /** `account.Name = name`: that account's name changes, nothing else. */
  function Renamed(s: Accounts, id: Guid, name: string): (r: Accounts)
    requires id in s
    ensures r.Keys == s.Keys
    ensures r[id].name == name
    ensures r[id] == s[id].(name := r[id].name)
    ensures forall k | k in s && k != id :: r[k] == s[k]
  {
    s[id := s[id].(name := name)]
  }

  /** `account.Balance += amount`, with no check of the amount's sign. */
  function Credited(s: Accounts, id: Guid, amount: int): (r: Accounts)
    requires id in s
    ensures r.Keys == s.Keys
    ensures r[id].balance - s[id].balance == amount
    ensures r[id] == s[id].(balance := r[id].balance)
    ensures forall k | k in s && k != id :: r[k] == s[k]
  {
    s[id := s[id].(balance := s[id].balance + amount)]
  }

  /** `account.Balance -= amount`, with no check of sign or sufficiency. */
  function Debited(s: Accounts, id: Guid, amount: int): (r: Accounts)
    requires id in s
    ensures r.Keys == s.Keys
    ensures s[id].balance - r[id].balance == amount
    ensures r[id] == s[id].(balance := r[id].balance)
    ensures forall k | k in s && k != id :: r[k] == s[k]
  {
    s[id := s[id].(balance := s[id].balance - amount)]
  }

  /** `account.Active = active`: only that flag of that account changes. */
  function WithActive(s: Accounts, id: Guid, active: bool): (r: Accounts)
    requires id in s
    ensures r.Keys == s.Keys
    ensures r[id].active == active
    ensures r[id] == s[id].(active := r[id].active)
    ensures forall k | k in s && k != id :: r[k] == s[k]
  {
    s[id := s[id].(active := active)]
  }

  /** Debiting what was credited restores the table. */
  lemma DebitUndoesCredit(s: Accounts, id: Guid, amount: int)
    requires id in s
    ensures Debited(Credited(s, id, amount), id, amount) == s
  {
    var r := Debited(Credited(s, id, amount), id, amount);
    assert r[id] == s[id];
  }

  /** The field writes keep every record under its own identifier. */
  lemma UpdatesKeepKeys(s: Accounts, id: Guid, name: string, amount: int, active: bool)
    requires id in s && KeyedById(s)
    ensures KeyedById(Renamed(s, id, name))
    ensures KeyedById(Credited(s, id, amount)) && KeyedById(Debited(s, id, amount))
    ensures KeyedById(WithActive(s, id, active))
  {
  }

  /** Removing a row keeps the table consistent. */
  lemma RemoveKeepsConsistent(s: Accounts, order: seq<Guid>, id: Guid)
    requires Consistent(s, order)
    ensures Consistent(s - {id}, Without(order, id))
  {
  }

  /** Adding a record under a new identifier at the end of the row order
      keeps the table consistent. */
  lemma AddKeepsConsistent(s: Accounts, order: seq<Guid>, a: Account)
    requires Consistent(s, order) && a.id !in s
    ensures Consistent(s[a.id := a], order + [a.id])
  {
  }
}
