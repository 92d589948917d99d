/** What the listing and insert paths rely on from the relational store:
    the order of a full table scan and the id a new row receives. The store is
    SQLite throughout, and both follow SQLite's rule for a table whose primary
    key is an INTEGER column (the row id): a scan without ORDER BY visits rows
    by ascending id, and a new row without an explicit id gets one more than
    the largest id in use, or 1. */
module Table {
  import opened Wrappers
  import opened Json

  lemma {:induction false} LeastExists(s: set<int>)
    requires s != {}
    ensures exists m :: m in s && forall k :: k in s ==> m <= k
  {
    var x := PickFrom(s);
    var rest := s - {x};
    if rest == {} {
      assert s == {x};
    } else {
      LeastExists(rest);
      var m :| m in rest && forall k :: k in rest ==> m <= k;
      var least := if x < m then x else m;
      assert forall k :: k in s ==> k == x || k in rest;
      assert least in s && forall k :: k in s ==> least <= k;
    }
  }

  lemma {:induction false} GreatestExists(s: set<int>)
    requires s != {}
    ensures exists m :: m in s && forall k :: k in s ==> k <= m
  {
    var x := PickFrom(s);
    var rest := s - {x};
    if rest == {} {
      assert s == {x};
    } else {
      GreatestExists(rest);
      var m :| m in rest && forall k :: k in rest ==> k <= m;
      var greatest := if m < x then x else m;
      assert forall k :: k in s ==> k == x || k in rest;
      assert greatest in s && forall k :: k in s ==> k <= greatest;
    }
  }

  /** Some element of a non-empty set. */
  ghost function PickFrom(s: set<int>): (x: int)
    requires s != {}
    ensures x in s
  {
    HasElement(s);
    var x :| x in s; x
  }

  lemma HasElement(s: set<int>)
    requires s != {}
    ensures exists x :: x in s
  {
    if forall x :: x !in s {
      assert false;
    }
  }

  function Least(s: set<int>): (m: int)
    requires s != {}
    ensures m in s && forall k :: k in s ==> m <= k
  {
    LeastExists(s);
    var m :| m in s && forall k :: k in s ==> m <= k; m
  }

  function Greatest(s: set<int>): (m: int)
    requires s != {}
    ensures m in s && forall k :: k in s ==> k <= m
  {
    GreatestExists(s);
    var m :| m in s && forall k :: k in s ==> k <= m; m
  }

  /** The ids of a table in the order a full scan visits them: every id
      exactly once, ascending. */
  function ScanOrder(ids: set<int>): (order: seq<int>)
    ensures |order| == |ids|
    ensures forall k :: k in order <==> k in ids
    ensures forall i, j :: 0 <= i < j < |order| ==> order[i] < order[j]
    decreases |ids|
  {
    if ids == {} then []
    else
      var m := Least(ids);
      [m] + ScanOrder(ids - {m})
  }

  /** The id SQLite gives a row inserted without one. */
  function NextId(ids: set<int>): (n: int)
    ensures forall k :: k in ids ==> k < n
    ensures ids == {} ==> n == 1
    ensures ids != {} ==> n - 1 in ids
  {
    if ids == {} then 1 else Greatest(ids) + 1
  }

  /** `items` lists `table` through `view`: one entry per stored row, each
      entry the view of the row whose id it carries, in ascending id order. */
  ghost predicate ListsTable<T>(items: seq<Json>, table: map<int, T>, view: T -> Json)
  {
    && |items| == |table|
    && (forall i :: 0 <= i < |items| ==>
          IdOf(items[i]).Some? && IdOf(items[i]).value in table
          && items[i] == view(table[IdOf(items[i]).value]))
    && (forall i, j :: 0 <= i < j < |items| ==>
          IdOf(items[i]).Some? && IdOf(items[j]).Some? && IdOf(items[i]).value < IdOf(items[j]).value)
    && (forall id :: id in table ==> exists i :: 0 <= i < |items| && IdOf(items[i]) == Some(id))
  }

  /** A full scan of `table`, each row projected through `view`, which must
      keep the row's id under "id". */
  function Listing<T>(table: map<int, T>, view: T -> Json): (items: seq<Json>)
    requires forall id :: id in table ==> IdOf(view(table[id])) == Some(id)
    ensures ListsTable(items, table, view)
  {
    var order := ScanOrder(table.Keys);
    ProjectionLists(table, view, order, Project(order, table, view));
    Project(order, table, view)
  }

  function Project<T>(order: seq<int>, table: map<int, T>, view: T -> Json): (items: seq<Json>)
    requires forall i :: 0 <= i < |order| ==> order[i] in table
    ensures |items| == |order|
    ensures forall i :: 0 <= i < |order| ==> items[i] == view(table[order[i]])
  {
    seq(|order|, i requires 0 <= i < |order| => view(table[order[i]]))
  }

  lemma ProjectionLists<T>(table: map<int, T>, view: T -> Json, order: seq<int>, items: seq<Json>)
    requires forall id :: id in table ==> IdOf(view(table[id])) == Some(id)
    requires order == ScanOrder(table.Keys)
    requires items == Project(order, table, view)
    ensures ListsTable(items, table, view)
  {
    assert |table.Keys| == |table|;
    forall i | 0 <= i < |items|
      ensures IdOf(items[i]) == Some(order[i])
    {
      assert order[i] in table;
    }
    forall i, j | 0 <= i < j < |items|
      ensures IdOf(items[i]).Some? && IdOf(items[j]).Some? && IdOf(items[i]).value < IdOf(items[j]).value
    {
      assert IdOf(items[i]) == Some(order[i]) && IdOf(items[j]) == Some(order[j]);
    }
    forall id | id in table
      ensures exists i :: 0 <= i < |items| && IdOf(items[i]) == Some(id)
    {
      var i :| 0 <= i < |order| && order[i] == id;
      assert IdOf(items[i]) == Some(id);
    }
  }

  /** Two strictly ascending sequences with the same elements are equal. */
  lemma {:induction false} AscendingUnique(a: seq<int>, b: seq<int>)
    requires forall i, j :: 0 <= i < j < |a| ==> a[i] < a[j]
    requires forall i, j :: 0 <= i < j < |b| ==> b[i] < b[j]
    requires forall k :: k in a <==> k in b
    ensures a == b
  {
    assert a != [] ==> a[0] in a && a[0] in b;
    assert b != [] ==> b[0] in b && b[0] in a;
    if a != [] && b != [] {
      assert a[0] == b[0];
      forall k ensures k in a[1..] <==> k in b[1..] {
        assert k in a[1..] <==> k in a && k != a[0];
        assert k in b[1..] <==> k in b && k != b[0];
      }
      AscendingUnique(a[1..], b[1..]);
      assert a == [a[0]] + a[1..] && b == [b[0]] + b[1..];
    }
  }

  /** The ids a listing carries, in order. */
  ghost function IdsOf(items: seq<Json>): (ids: seq<int>)
    requires forall i :: 0 <= i < |items| ==> IdOf(items[i]).Some?
    ensures |ids| == |items| && forall i :: 0 <= i < |items| ==> IdOf(items[i]) == Some(ids[i])
  {
    seq(|items|, i requires 0 <= i < |items| => IdOf(items[i]).value)
  }

  /** A table has exactly one listing: whatever satisfies ListsTable is the
      same sequence. */
  lemma ListingDetermined<T>(items: seq<Json>, others: seq<Json>, table: map<int, T>, view: T -> Json)
    requires ListsTable(items, table, view) && ListsTable(others, table, view)
    ensures items == others
  {
    var ids, otherIds := IdsOf(items), IdsOf(others);
    forall k ensures k in ids <==> k in otherIds {
      if k in ids {
        var i :| 0 <= i < |ids| && ids[i] == k;
        assert IdOf(items[i]) == Some(k);
        var j :| 0 <= j < |others| && IdOf(others[j]) == Some(k);
        assert otherIds[j] == k;
      }
      if k in otherIds {
        var j :| 0 <= j < |otherIds| && otherIds[j] == k;
        assert IdOf(others[j]) == Some(k);
        var i :| 0 <= i < |items| && IdOf(items[i]) == Some(k);
        assert ids[i] == k;
      }
    }
    AscendingUnique(ids, otherIds);
    forall i | 0 <= i < |items| ensures items[i] == others[i] {
      assert IdOf(items[i]) == Some(ids[i]) && IdOf(others[i]) == Some(otherIds[i]);
    }
  }
}
