/** SQL tables with an INTEGER PRIMARY KEY: rows in the order of their row IDs, a new row
    getting the largest ID plus one. */
module Tables {

  datatype Row<+T> = Row(id: int, data: T)

  /** Row IDs are positive and ascend. */
  predicate Ascending<T>(t: seq<Row<T>>) {
    && (forall i | 0 <= i < |t| :: t[i].id > 0)
    && (forall i, j | 0 <= i < j < |t| :: t[i].id < t[j].id)
  }

  /** Row IDs count from 1 without a gap: a table no row of which was ever deleted. */
  predicate Dense<T>(t: seq<Row<T>>) {
    forall i | 0 <= i < |t| :: t[i].id == i + 1
  }

  function NextId<T>(t: seq<Row<T>>): int {
    if t == [] then 1 else t[|t| - 1].id + 1
  }

  /** INSERT. */
  function Insert<T>(t: seq<Row<T>>, d: T): seq<Row<T>> {
    t + [Row(NextId(t), d)]
  }

  /** DELETE ... WHERE the column is `d`. */
  function Delete<T(==)>(t: seq<Row<T>>, d: T): seq<Row<T>> {
    if t == [] then []
    else
      var n := |t| - 1;
      Delete(t[..n], d) + (if t[n].data == d then [] else [t[n]])
  }

  function Ids<T(==)>(t: seq<Row<T>>): set<int> {
    set r | r in t :: r.id
  }

  function Values<T(==)>(t: seq<Row<T>>): set<T> {
    set r | r in t :: r.data
  }

  /** The UNIQUE constraint. */
  predicate Distinct<T(==)>(t: seq<Row<T>>) {
    forall i, j | 0 <= i < j < |t| :: t[i].data != t[j].data
  }

  lemma InsertRows<T>(t: seq<Row<T>>, d: T)
    ensures forall r :: r in Insert(t, d) <==> r in t || r == Row(NextId(t), d)
  {
  }

  lemma InsertAscends<T>(t: seq<Row<T>>, d: T)
    requires Ascending(t)
    ensures Ascending(Insert(t, d)) && NextId(t) > 0 && NextId(t) !in Ids(t)
  {
    var r := Insert(t, d);
    forall i | 0 <= i < |t|
      ensures r[i] == t[i] && t[i].id < NextId(t)
    {
      assert i < |t| - 1 ==> t[i].id < t[|t| - 1].id;
    }
    assert r[|t|] == Row(NextId(t), d);
  }

  lemma InsertSets<T>(t: seq<Row<T>>, d: T)
    ensures Ids(Insert(t, d)) == Ids(t) + {NextId(t)}
    ensures Values(Insert(t, d)) == Values(t) + {d}
  {
    InsertRows(t, d);
    hide Insert;
    var r := Insert(t, d);
    var last := Row(NextId(t), d);
    assert last in r && last.id in Ids(r) && last.data in Values(r);
    forall x | x in t
      ensures x.id in Ids(r) && x.data in Values(r)
    {
      assert x in r;
    }
    forall x | x in r
      ensures x.id in Ids(t) + {NextId(t)} && x.data in Values(t) + {d}
    {
      if x != last {
        assert x in t;
      }
    }
  }

  lemma InsertDistinct<T>(t: seq<Row<T>>, d: T)
    requires Distinct(t) && d !in Values(t)
    ensures Distinct(Insert(t, d))
  {
    var r := Insert(t, d);
    forall i | 0 <= i < |t|
      ensures r[i] == t[i] && r[i].data != d
    {
      assert t[i] in t && t[i].data in Values(t);
    }
  }

  /** Inserting gives a fresh ID and adds one row. */
  lemma InsertKeeps<T>(t: seq<Row<T>>, d: T)
    requires Ascending(t)
    ensures Ascending(Insert(t, d)) && NextId(t) > 0 && NextId(t) !in Ids(t)
    ensures Ids(Insert(t, d)) == Ids(t) + {NextId(t)}
    ensures Values(Insert(t, d)) == Values(t) + {d}
    ensures Distinct(t) && d !in Values(t) ==> Distinct(Insert(t, d))
    ensures Dense(t) ==> Dense(Insert(t, d)) && NextId(t) == |t| + 1
  {
    InsertAscends(t, d);
    InsertSets(t, d);
    if Distinct(t) && d !in Values(t) {
      InsertDistinct(t, d);
    }
  }

  lemma DeleteSnoc<T>(t: seq<Row<T>>, r: Row<T>, d: T)
    ensures Delete(t + [r], d) == Delete(t, d) + (if r.data == d then [] else [r])
  {
    assert (t + [r])[..|t|] == t;
  }

  /** Deleting keeps exactly the other rows. */
  lemma {:induction false} DeleteRows<T>(t: seq<Row<T>>, d: T)
    ensures forall r :: r in Delete(t, d) <==> r in t && r.data != d
  {
    if t != [] {
      var n := |t| - 1;
      DeleteRows(t[..n], d);
      assert t == t[..n] + [t[n]];
    }
  }

  lemma DeletedFrom<T>(t: seq<Row<T>>, d: T, x: Row<T>)
    requires x in Delete(t, d)
    ensures x in t && x.data != d
  {
    DeleteRows(t, d);
  }

  /** Deleting keeps the order of the other rows. */
  lemma {:induction false} DeleteAscends<T>(t: seq<Row<T>>, d: T)
    requires Ascending(t)
    ensures Ascending(Delete(t, d))
  {
    if t != [] {
      var n := |t| - 1;
      var rest := Delete(t[..n], d);
      DeleteAscends(t[..n], d);
      forall i | 0 <= i < |rest|
        ensures rest[i].id < t[n].id
      {
        var x := rest[i];
        DeletedFrom(t[..n], d, x);
        var j :| 0 <= j < n && t[..n][j] == x;
        assert t[j] == x;
      }
    }
  }

  lemma {:induction false} DeleteDistinct<T>(t: seq<Row<T>>, d: T)
    requires Distinct(t)
    ensures Distinct(Delete(t, d))
  {
    if t != [] {
      var n := |t| - 1;
      var rest := Delete(t[..n], d);
      DeleteDistinct(t[..n], d);
      forall i | 0 <= i < |rest|
        ensures rest[i].data != t[n].data
      {
        var x := rest[i];
        DeletedFrom(t[..n], d, x);
        var j :| 0 <= j < n && t[..n][j] == x;
        assert t[j] == x;
      }
    }
  }

  lemma DeleteKeeps<T>(t: seq<Row<T>>, d: T)
    requires Ascending(t)
    ensures Ascending(Delete(t, d))
    ensures Distinct(t) ==> Distinct(Delete(t, d))
  {
    DeleteAscends(t, d);
    if Distinct(t) {
      DeleteDistinct(t, d);
    }
  }

  lemma DeleteValues<T>(t: seq<Row<T>>, d: T)
    ensures Values(Delete(t, d)) == Values(t) - {d}
  {
    DeleteRows(t, d);
    var u := Delete(t, d);
    forall v | v in Values(u)
      ensures v in Values(t) - {d}
    {
      var r :| r in u && r.data == v;
      assert r in t;
    }
    forall v | v in Values(t) - {d}
      ensures v in Values(u)
    {
      var r :| r in t && r.data == v;
      assert r in u;
    }
  }

  /** Deleting a value that is not there changes nothing. */
  lemma {:induction false} DeleteNothing<T>(t: seq<Row<T>>, d: T)
    requires d !in Values(t)
    ensures Delete(t, d) == t
  {
    if t != [] {
      var n := |t| - 1;
      assert t[n] in t;
      forall r | r in t[..n]
        ensures r in t
      {
      }
      DeleteNothing(t[..n], d);
      assert t == t[..n] + [t[n]];
    }
  }
}
