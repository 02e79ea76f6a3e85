/** Database tables as sequences of keyed rows, in insertion order, with the
    handful of Prisma operations the services use: findUnique by key,
    findFirst and findMany with a filter, create, update and delete. */
module Tables {
  import opened Common

  /** One stored record and its primary key. */
  datatype Row<+T> = Row(id: Id, val: T)

  type Table<T> = seq<Row<T>>

  function Ids<T(==,!new)>(t: Table<T>): set<Id>
  {
    set r | r in t :: r.id
  }

  /** The primary key constraint: no two different rows share a key. */
  ghost predicate Keyed<T>(t: Table<T>)
  {
    forall a, b :: a in t && b in t && a.id == b.id ==> a == b
  }

  /** Every key is below the next value of the autoincrement counter. */
  ghost predicate Below<T>(t: Table<T>, next: Id)
  {
    forall r :: r in t ==> r.id < next
  }

  ghost predicate WellKeyed<T>(t: Table<T>, next: Id)
  {
    Keyed(t) && Below(t, next)
  }

  /** findUnique by primary key: the record of the first row with that key. */
  function Find<T(==,!new)>(t: Table<T>, id: Id): (r: Option<T>)
    ensures r.Some? <==> id in Ids(t)
    ensures r.Some? ==> Row(id, r.value) in t
  {
    if |t| == 0 then None
    else if t[0].id == id then Some(t[0].val)
    else
      assert Ids(t) == {t[0].id} + Ids(t[1..]) by {
        assert forall r :: r in t <==> r == t[0] || r in t[1..];
      }
      Find(t[1..], id)
  }

  /** Under the key constraint, the row found is the only row with that key. */
  lemma FindKeyed<T(!new)>(t: Table<T>, id: Id, v: T)
    requires Keyed(t)
    ensures Find(t, id) == Some(v) <==> Row(id, v) in t
  {
    if Row(id, v) in t {
      assert id in Ids(t);
    }
  }

  /** findFirst: the first row whose record satisfies the filter. */
  function FindWhere<T(==,!new)>(t: Table<T>, p: T -> bool): (r: Option<Row<T>>)
    ensures r.Some? ==> r.value in t && p(r.value.val)
    ensures r.None? <==> forall row :: row in t ==> !p(row.val)
  {
    if |t| == 0 then None
    else if p(t[0].val) then Some(t[0])
    else
      assert forall row :: row in t <==> row == t[0] || row in t[1..];
      FindWhere(t[1..], p)
  }

  /** findFirst with a condition on the key as well as the record. */
  function FindFirst<T(==,!new)>(t: Table<T>, p: Row<T> -> bool): (r: Option<Row<T>>)
    ensures r.Some? ==> r.value in t && p(r.value)
    ensures r.None? <==> forall row :: row in t ==> !p(row)
  {
    if |t| == 0 then None
    else if p(t[0]) then Some(t[0])
    else
      assert forall row :: row in t <==> row == t[0] || row in t[1..];
      FindFirst(t[1..], p)
  }

  /** The rows that pass a test, in table order. */
  function Filter<T(==,!new)>(t: Table<T>, keep: Row<T> -> bool): (r: Table<T>)
    ensures forall row :: row in r <==> row in t && keep(row)
    ensures |r| <= |t|
  {
    if |t| == 0 then []
    else
      assert forall row :: row in t <==> row == t[0] || row in t[1..];
      (if keep(t[0]) then [t[0]] else []) + Filter(t[1..], keep)
  }

  /** findMany with a `where` on the record. */
  function Select<T(==,!new)>(t: Table<T>, p: T -> bool): (r: Table<T>)
    ensures forall row :: row in r <==> row in t && p(row.val)
  {
    Filter(t, (row: Row<T>) => p(row.val))
  }

  /** delete by primary key. */
  function Delete<T(==,!new)>(t: Table<T>, id: Id): (r: Table<T>)
    ensures forall row :: row in r <==> row in t && row.id != id
    ensures Ids(r) == Ids(t) - {id}
  {
    var r := Filter(t, (row: Row<T>) => row.id != id);
    assert forall k :: k in Ids(r) <==> k in Ids(t) - {id} by {
      forall k ensures k in Ids(r) <==> k in Ids(t) - {id} {
        if k in Ids(t) - {id} {
          var row :| row in t && row.id == k;
          assert row in r;
        }
      }
    }
    r
  }

  /** update by primary key: every row with that key now holds `v`. */
  function Replace<T(==,!new)>(t: Table<T>, id: Id, v: T): (r: Table<T>)
    ensures |r| == |t|
    ensures forall i :: 0 <= i < |t| ==> r[i] == if t[i].id == id then Row(id, v) else t[i]
  {
    seq(|t|, i requires 0 <= i < |t| => if t[i].id == id then Row(id, v) else t[i])
  }

  /** update by key of a row whose new record is computed from the stored
      one; a missing key is an error that leaves the table as it was. */
  function UpdateRow<T(==,!new)>(t: Table<T>, id: Id, change: T -> T): (r: Table<T>)
    ensures Find(t, id).None? ==> r == t
    ensures Find(t, id).Some? ==> r == Replace(t, id, change(Find(t, id).value))
  {
    var found := Find(t, id);
    if found.None? then t else Replace(t, id, change(found.value))
  }

  /** What an update by key leaves in the table: the new row where the key was,
      every other row as it was. */
  lemma {:induction false} ReplaceRows<T(!new)>(t: Table<T>, id: Id, v: T)
    ensures forall row :: row in Replace(t, id, v) <==>
      (row in t && row.id != id) || (row == Row(id, v) && id in Ids(t))
    ensures Ids(Replace(t, id, v)) == Ids(t)
  {
    var r := Replace(t, id, v);
    forall row ensures row in r <==> (row in t && row.id != id) || (row == Row(id, v) && id in Ids(t)) {
      if row in r {
        var i :| 0 <= i < |r| && r[i] == row;
        assert t[i] in t;
      }
      if row in t && row.id != id {
        var i :| 0 <= i < |t| && t[i] == row;
        assert r[i] == row;
      }
      if row == Row(id, v) && id in Ids(t) {
        var w :| w in t && w.id == id;
        var i :| 0 <= i < |t| && t[i] == w;
        assert r[i] == row;
      }
    }
    forall k ensures k in Ids(r) <==> k in Ids(t) {
      if k in Ids(t) {
        var w :| w in t && w.id == k;
        var i :| 0 <= i < |t| && t[i] == w;
        assert r[i] in r;
      }
      if k in Ids(r) {
        var w :| w in r && w.id == k;
        var i :| 0 <= i < |r| && r[i] == w;
        assert t[i] in t;
      }
    }
  }

  /** After an update by key, the key finds the new record and every other key
      finds what it found before. */
  lemma FindAfterReplace<T(!new)>(t: Table<T>, id: Id, v: T, k: Id)
    requires Keyed(t)
    ensures Keyed(Replace(t, id, v))
    ensures Find(Replace(t, id, v), k) == if k == id && id in Ids(t) then Some(v) else Find(t, k)
  {
    ReplaceRows(t, id, v);
    var r := Replace(t, id, v);
    if k == id && id in Ids(t) {
      FindKeyed(r, k, v);
    } else if k in Ids(t) {
      var w := Find(t, k).value;
      FindKeyed(r, k, w);
    }
  }

  /** A delete keeps the key constraint and leaves every other key's row. */
  lemma FindAfterDelete<T(!new)>(t: Table<T>, id: Id, k: Id)
    requires Keyed(t)
    ensures Keyed(Delete(t, id))
    ensures Find(Delete(t, id), k) == if k == id then None else Find(t, k)
  {
    var r := Delete(t, id);
    if k != id && k in Ids(t) {
      var w := Find(t, k).value;
      FindKeyed(r, k, w);
    }
  }

  /** create: a row keyed by the counter keeps every key unique and below the
      advanced counter. */
  lemma AppendFresh<T(!new)>(t: Table<T>, next: Id, v: T)
    requires WellKeyed(t, next)
    ensures WellKeyed(t + [Row(next, v)], next + 1)
    ensures Ids(t + [Row(next, v)]) == Ids(t) + {next}
  {
    assert forall row :: row in t + [Row(next, v)] <==> row in t || row == Row(next, v);
  }

  /** Advancing the counter keeps a table below it. */
  lemma BelowGrows<T(!new)>(t: Table<T>, next: Id, later: Id)
    requires WellKeyed(t, next) && next <= later
    ensures WellKeyed(t, later)
  {
  }

  /** The counter's value is not yet a key, and the keys stay below it once
      it advances. */
  lemma FreshKey<T(!new)>(t: Table<T>, next: Id)
    requires WellKeyed(t, next)
    ensures WellKeyed(t, next + 1) && next !in Ids(t)
  {
  }

  /** A delete keeps every key unique and below the counter. */
  lemma DeleteWellKeyed<T(!new)>(t: Table<T>, id: Id, next: Id)
    requires WellKeyed(t, next)
    ensures WellKeyed(Delete(t, id), next)
  {
    FindAfterDelete(t, id, id);
  }

  /** An update by key keeps every key unique and below the counter. */
  lemma ReplaceWellKeyed<T(!new)>(t: Table<T>, id: Id, v: T, next: Id)
    requires WellKeyed(t, next)
    ensures WellKeyed(Replace(t, id, v), next)
  {
    FindAfterReplace(t, id, v, id);
    ReplaceRows(t, id, v);
  }

  /** Writing back the record a key held undoes an update of that key. */
  lemma ReplaceRestores<T(!new)>(t: Table<T>, id: Id, v: T)
    requires Keyed(t) && Find(t, id).Some?
    ensures Replace(Replace(t, id, v), id, Find(t, id).value) == t
  {
    var w := Find(t, id).value;
    var r := Replace(Replace(t, id, v), id, w);
    forall i | 0 <= i < |t|
      ensures r[i] == t[i]
    {
      if t[i].id == id {
        assert t[i] in t;
      }
    }
  }

  /** findFirst after an insert that no earlier row matched finds the new row
      exactly when it matches. */
  lemma {:induction false} FindWhereAppend<T(!new)>(t: Table<T>, row: Row<T>, p: T -> bool)
    requires forall r :: r in t ==> !p(r.val)
    ensures FindWhere(t + [row], p) == if p(row.val) then Some(row) else None
  {
    if |t| > 0 {
      assert (t + [row])[1..] == t[1..] + [row];
      assert forall r :: r in t[1..] ==> r in t;
      FindWhereAppend(t[1..], row, p);
    }
  }

  /** An update by key of an existing row keeps keys unique and below the
      counter. */
  lemma UpdateRowWellKeyed<T(!new)>(t: Table<T>, id: Id, change: T -> T, next: Id)
    requires WellKeyed(t, next)
    ensures WellKeyed(UpdateRow(t, id, change), next)
  {
    if Find(t, id).Some? {
      ReplaceWellKeyed(t, id, change(Find(t, id).value), next);
    }
  }
}
