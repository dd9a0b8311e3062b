/**
 * The five handlers products, posts and projects share (list, get-one,
 * create, update, delete), stated once over any entity's table. Each handler
 * sees whether the store answers at all (`online`), its own table, and the
 * entity's names for its messages; it yields an HTTP status, a JSON payload
 * and the table afterwards. Any store failure becomes a 500 whose message
 * names the verb and the entity.
 */
module Resource {
  import opened Optional
  import opened Tables
  import opened Listing

  /** The JSON bodies: `{error}`, an array, one object, `{id, message}` and
      `{message}`. */
  datatype Payload<T> =
    | Fail(error: string)
    | Items(items: seq<T>)
    | Item(item: T)
    | Created(id: int, message: string)
    | Done(message: string)

  datatype Outcome<R, T> = Outcome(status: nat, body: Payload<T>, table: Table<R>)

  /** How an entity's messages name it: `product`, `products`, `Product`. */
  datatype Names = Names(singular: string, plural: string, title: string)

  /** `item` is the stored row with that id, shown through `view`. */
  predicate Shows<R, V(==)>(t: Table<R>, view: R -> V, item: Row<V>) {
    item.id in t.rows
    && item.createdAt == t.rows[item.id].createdAt
    && item.data == view(t.rows[item.id].data)
  }

  /** Applies `view` to each row's columns, keeping ids and creation times. */
  function ViewRows<R, V>(rows: seq<Row<R>>, view: R -> V): (r: seq<Row<V>>)
    ensures |r| == |rows|
    ensures forall k :: 0 <= k < |r| ==>
      r[k].id == rows[k].id && r[k].createdAt == rows[k].createdAt && r[k].data == view(rows[k].data)
  {
    seq(|rows|, k requires 0 <= k < |rows| => Row(rows[k].id, view(rows[k].data), rows[k].createdAt))
  }

  /** `GET /<plural>?limit=N`. */
  function ListAction<R(==), V(==)>(online: bool, t: Table<R>, limit: Option<string>, names: Names, view: R -> V)
    : (o: Outcome<R, Row<V>>)
    requires Valid(t)
    ensures o.table == t
    ensures !online ==> o.status == 500 && o.body == Fail("Failed to fetch " + names.plural)
    ensures online ==> o.status == 200 && o.body.Items?
    ensures online ==> |o.body.items| == Bounded(|t.rows|, RowLimit(limit))
    ensures online ==> NewestFirst(o.body.items) && DistinctIds(o.body.items)
    ensures online ==> forall k :: 0 <= k < |o.body.items| ==> Shows(t, view, o.body.items[k])
  {
    if !online then Outcome(500, Fail("Failed to fetch " + names.plural), t)
    else
      var rows := List(t, limit);
      var items := ViewRows(rows, view);
      assert forall k :: 0 <= k < |items| ==> Holds(t, rows[k]);
      Outcome(200, Items(items), t)
  }

  /** `GET /<plural>/:id`: 404 when no row has the id. */
  function GetAction<R(==), V(==)>(online: bool, t: Table<R>, id: int, names: Names, view: R -> V)
    : (o: Outcome<R, Row<V>>)
    requires Valid(t)
    ensures o.table == t
    ensures !online ==> o.status == 500 && o.body == Fail("Failed to fetch " + names.singular)
    ensures online && id !in t.rows ==> o.status == 404 && o.body == Fail(names.title + " not found")
    ensures online && id in t.rows ==>
      o.status == 200 && o.body.Item? && o.body.item.id == id && Shows(t, view, o.body.item)
  {
    if !online then Outcome(500, Fail("Failed to fetch " + names.singular), t)
    else
      match Find(t, id)
      case None => Outcome(404, Fail(names.title + " not found"), t)
      case Some(row) => Outcome(200, Item(Row(row.id, view(row.data), row.createdAt)), t)
  }

  /** `POST /<plural>`: `row` holds the columns to insert, or None when a
      NOT NULL column would receive NULL, which the store refuses. */
  function CreateAction<R(==), V>(online: bool, t: Table<R>, row: Option<R>, now: nat, names: Names)
    : (o: Outcome<R, V>)
    requires Valid(t)
    ensures Valid(o.table) && o.table.nextId >= t.nextId
    ensures o.status == 201 <==> online && row.Some?
    ensures o.status == 201 ==>
      && o.body.Created? && o.body.message == names.title + " created"
      && o.body.id !in t.rows && t.nextId <= o.body.id
      && o.table.rows == t.rows[o.body.id := Entry(row.value, now)]
    ensures o.status != 201 ==>
      o.status == 500 && o.body == Fail("Failed to create " + names.singular) && o.table == t
  {
    if !online || row.None? then Outcome(500, Fail("Failed to create " + names.singular), t)
    else
      var (t', id) := Insert(t, row.value, now);
      Outcome(201, Created(id, names.title + " created"), t')
  }

  /** `PUT /<plural>/:id`: replaces the row's columns. There is no existence
      check: without a row with that id the statement matches nothing, so it
      neither checks constraints nor changes anything, and still answers 200. */
  function UpdateAction<R(==), V>(online: bool, t: Table<R>, id: int, row: Option<R>, names: Names)
    : (o: Outcome<R, V>)
    requires Valid(t)
    ensures Valid(o.table) && o.table.nextId == t.nextId && o.table.rows.Keys == t.rows.Keys
    ensures o.status == 200 <==> online && (id !in t.rows || row.Some?)
    ensures o.status == 200 ==> o.body == Done(names.title + " updated")
    ensures o.status != 200 ==>
      o.status == 500 && o.body == Fail("Failed to update " + names.singular) && o.table == t
    ensures id !in t.rows ==> o.table == t
    ensures o.status == 200 && id in t.rows ==>
      o.table.rows == t.rows[id := Entry(row.value, t.rows[id].createdAt)]
  {
    if !online then Outcome(500, Fail("Failed to update " + names.singular), t)
    else if id !in t.rows then Outcome(200, Done(names.title + " updated"), t)
    else if row.None? then Outcome(500, Fail("Failed to update " + names.singular), t)
    else Outcome(200, Done(names.title + " updated"), Update(t, id, row.value))
  }

  /** `DELETE /<plural>/:id`: removes the row if there is one; 200 either way. */
  function DeleteAction<R(==), V>(online: bool, t: Table<R>, id: int, names: Names)
    : (o: Outcome<R, V>)
    requires Valid(t)
    ensures Valid(o.table) && o.table.nextId == t.nextId
    ensures o.status == 200 <==> online
    ensures online ==> o.body == Done(names.title + " deleted")
    ensures online ==> o.table.rows.Keys == t.rows.Keys - {id}
    ensures forall k :: k in o.table.rows ==> k in t.rows && o.table.rows[k] == t.rows[k]
    ensures !online || id !in t.rows ==> o.table == t
    ensures !online ==> o.status == 500 && o.body == Fail("Failed to delete " + names.singular)
  {
    if !online then Outcome(500, Fail("Failed to delete " + names.singular), t)
    else Outcome(200, Done(names.title + " deleted"), Delete(t, id))
  }
}
