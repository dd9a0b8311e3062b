/**
 * One SQLite table declared `id INTEGER PRIMARY KEY AUTOINCREMENT` with a
 * `created_at DEFAULT CURRENT_TIMESTAMP` column, as a map from id to row plus
 * the next id the store will hand out. AUTOINCREMENT never reuses an id, even
 * one whose row was deleted, so the counter only grows.
 */
module Tables {
  import opened Optional

  /** A stored row without its id: the entity's columns and its creation time
      on an abstract clock. */
  datatype Entry<R> = Entry(data: R, createdAt: nat)

  datatype Table<R> = Table(rows: map<int, Entry<R>>, nextId: int)

  /** A row as a query returns it, id included. */
  datatype Row<R> = Row(id: int, data: R, createdAt: nat)

  /** Ids start at 1 and every id in use was handed out before `nextId`. */
  predicate Valid<R>(t: Table<R>) {
    1 <= t.nextId && forall id :: id in t.rows ==> 1 <= id < t.nextId
  }

  /** `row` is what the table stores under `row.id`. */
  predicate Holds<R(==)>(t: Table<R>, row: Row<R>) {
    row.id in t.rows && t.rows[row.id] == Entry(row.data, row.createdAt)
  }

  /** A freshly created table. */
  function Empty<R>(): (t: Table<R>)
    ensures Valid(t) && |t.rows| == 0
  {
    Table(map[], 1)
  }

  /** `SELECT COUNT(*)`. */
  function Count<R>(t: Table<R>): nat {
    |t.rows|
  }

  /** `SELECT * ... WHERE id = ?`: the row with that id, if any. */
  function Find<R(==)>(t: Table<R>, id: int): (r: Option<Row<R>>)
    ensures r.Some? <==> id in t.rows
    ensures r.Some? ==> r.value.id == id && Holds(t, r.value)
  {
    if id in t.rows then Some(Row(id, t.rows[id].data, t.rows[id].createdAt)) else None
  }

  /** `INSERT`: stores `data` under a fresh id stamped `now`, and reports the id
      (node-sqlite3's `this.lastID`). */
  function Insert<R(==)>(t: Table<R>, data: R, now: nat): (r: (Table<R>, int))
    requires Valid(t)
    ensures Valid(r.0)
    ensures r.1 !in t.rows && t.nextId <= r.1 < r.0.nextId
    ensures r.1 == t.nextId && r.0.nextId == t.nextId + 1
    ensures forall id :: id in t.rows ==> id < r.1
    ensures r.0.rows == t.rows[r.1 := Entry(data, now)]
    ensures |r.0.rows| == |t.rows| + 1
  {
    (Table(t.rows[t.nextId := Entry(data, now)], t.nextId + 1), t.nextId)
  }

  /** `UPDATE ... WHERE id = ?`: replaces the columns of the row with that id,
      keeping its creation time; without such a row nothing changes. */
  function Update<R(==)>(t: Table<R>, id: int, data: R): (r: Table<R>)
    requires Valid(t)
    ensures Valid(r) && r.nextId == t.nextId
    ensures r.rows.Keys == t.rows.Keys
    ensures id in t.rows ==> r.rows[id] == Entry(data, t.rows[id].createdAt)
    ensures forall k :: k in t.rows && k != id ==> r.rows[k] == t.rows[k]
    ensures id !in t.rows ==> r == t
  {
    if id in t.rows then t.(rows := t.rows[id := Entry(data, t.rows[id].createdAt)]) else t
  }

  /** `DELETE ... WHERE id = ?`: removes the row with that id, if any; the
      counter is untouched, so the id is never handed out again. */
  function Delete<R(==)>(t: Table<R>, id: int): (r: Table<R>)
    requires Valid(t)
    ensures Valid(r) && r.nextId == t.nextId
    ensures r.rows.Keys == t.rows.Keys - {id}
    ensures forall k :: k in r.rows ==> r.rows[k] == t.rows[k]
    ensures id in t.rows ==> |r.rows| == |t.rows| - 1
    ensures id !in t.rows ==> r == t
  {
    if id in t.rows then t.(rows := t.rows - {id}) else t
  }

  /** The ids of the stored rows at or above `lo`. */
  function KeysFrom<R>(t: Table<R>, lo: int): set<int> {
    set id | id in t.rows && lo <= id
  }

  /** The ids the rows carry. */
  function Ids<R>(rows: seq<Row<R>>): set<int> {
    set k | 0 <= k < |rows| :: rows[k].id
  }

  lemma IdsCons<R>(x: Row<R>, rest: seq<Row<R>>)
    ensures Ids([x] + rest) == {x.id} + Ids(rest)
  {
    var r := [x] + rest;
    forall id | id in Ids(r) ensures id in {x.id} + Ids(rest) {
      var k :| 0 <= k < |r| && r[k].id == id;
      if k > 0 {
        assert rest[k - 1].id == id;
      }
    }
    forall id | id in Ids(rest) ensures id in Ids(r) {
      var k :| 0 <= k < |rest| && rest[k].id == id;
      assert r[k + 1].id == id;
    }
    assert r[0].id == x.id;
  }

  /** No id occurs twice. */
  predicate DistinctIds<R>(r: seq<Row<R>>) {
    forall k, l :: 0 <= k < l < |r| ==> r[k].id != r[l].id
  }

  /** Rows with pairwise different ids carry as many ids as there are rows. */
  lemma {:induction false} DistinctIdsCount<R>(r: seq<Row<R>>)
    requires DistinctIds(r)
    ensures |Ids(r)| == |r|
  {
    if r != [] {
      var rest := r[1..];
      assert r == [r[0]] + rest;
      IdsCons(r[0], rest);
      DistinctIdsCount(rest);
    }
  }

  /** The stored ids at or above `lo` are `lo` itself, if stored, and those
      above it. */
  lemma KeysFromStep<R>(t: Table<R>, lo: int)
    ensures lo in t.rows ==> KeysFrom(t, lo) == {lo} + KeysFrom(t, lo + 1)
    ensures lo !in t.rows ==> KeysFrom(t, lo) == KeysFrom(t, lo + 1)
    ensures lo !in KeysFrom(t, lo + 1)
  {
  }

  /** The rows with ids in `[lo, nextId)`, in id order: a full-table scan. */
  function ScanFrom<R(==)>(t: Table<R>, lo: int): (r: seq<Row<R>>)
    requires Valid(t)
    decreases t.nextId - lo
    ensures forall k :: 0 <= k < |r| ==> Holds(t, r[k]) && lo <= r[k].id
    ensures forall k, l :: 0 <= k < l < |r| ==> r[k].id < r[l].id
    ensures Ids(r) == KeysFrom(t, lo)
  {
    if lo >= t.nextId then
      assert KeysFrom(t, lo) == {};
      []
    else
      var rest := ScanFrom(t, lo + 1);
      KeysFromStep(t, lo);
      if lo in t.rows then
        var r := [Row(lo, t.rows[lo].data, t.rows[lo].createdAt)] + rest;
        IdsCons(r[0], rest);
        r
      else
        rest
  }

  /** Every row of the table exactly once, in id order. */
  function Scan<R(==)>(t: Table<R>): (r: seq<Row<R>>)
    requires Valid(t)
    ensures forall k :: 0 <= k < |r| ==> Holds(t, r[k])
    ensures forall k, l :: 0 <= k < l < |r| ==> r[k].id < r[l].id
    ensures Ids(r) == t.rows.Keys
    ensures |r| == |t.rows|
  {
    assert KeysFrom(t, 1) == t.rows.Keys;
    var r := ScanFrom(t, 1);
    DistinctIdsCount(r);
    r
  }
}
