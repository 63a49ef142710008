/** The item service of main.py: four handlers over one `items` table keyed
    by an integer id. The table is a map from id to row; a handler that finds
    no row for the id fails with `NotFound` (the HTTP layer's 404). */
module ItemStore {
  import opened Wrappers

  /** A Python float, carried as its IEEE-754 binary64 bit pattern. The
      handlers store and return prices but never compute with them; the
      model keeps every bit pattern as given. */
  datatype Price = Price(bits: bv64)

  /** `Item`: the record the handlers return. Its price is a required float. */
  datatype Item = Item(id: int, name: string, price: Price, description: Option<string>)

  /** `ItemCreate`: the body of a create request; it has no id. */
  datatype ItemCreate = ItemCreate(name: string, price: Price, description: Option<string>)

  /** `ItemUpdate`: the body of an update request; every field may be `None`. */
  datatype ItemUpdate = ItemUpdate(name: Option<string>, price: Option<Price>, description: Option<string>)

  /** `DBItem`: a row of the `items` table. `name` is a NOT NULL column
      (its annotation is not `Optional`); `price` and `description` may be NULL. */
  datatype Row = Row(id: int, name: string, price: Option<Price>, description: Option<string>)

  datatype Error =
    | NotFound         // HTTPException(404, "Item not found")
    | IntegrityError   // the database refuses NULL in the NOT NULL `name` column
    | ValidationError  // `Item(...)` refuses a row whose price is NULL

  type Table = map<int, Row>

  /** Every row is stored under its own id, and ids are positive rowids. */
  predicate WellKeyed(t: Table) {
    forall k :: k in t ==> t[k].id == k && k >= 1
  }

  /** `Item(**db_item.__dict__)`, written field by field: it succeeds exactly
      when the row has a price, and then copies every field. */
  function ToItem(row: Row): (r: Result<Item, Error>)
    ensures r.Ok? <==> row.price.Some?
    ensures r.Ok? ==> r.value.id == row.id && r.value.name == row.name &&
                      Some(r.value.price) == row.price && r.value.description == row.description
    ensures r.Err? ==> r.error == ValidationError
  {
    match row.price
    case None => Err(ValidationError)
    case Some(p) => Ok(Item(row.id, row.name, p, row.description))
  }

  /** `DBItem(**item.model_dump())` once the database has given it `id`:
      the row reads back as the request under that id. */
  function NewRow(id: int, x: ItemCreate): (row: Row)
    ensures row.id == id
    ensures ToItem(row) == Ok(Item(id, x.name, x.price, x.description))
  {
    Row(id, x.name, Some(x.price), x.description)
  }

  /** The table after `create_item` has inserted `x` under the fresh `id`:
      one more key, whose row reads back as `x`, and every other row as it was. */
  function Inserted(t: Table, id: int, x: ItemCreate): (t': Table)
    ensures t'.Keys == t.Keys + {id}
    ensures id in t' && ToItem(t'[id]) == Ok(Item(id, x.name, x.price, x.description))
    ensures forall k :: k in t && k != id ==> t'[k] == t[k]
  {
    t[id := NewRow(id, x)]
  }

  /** What `read_item` returns for `id`. */
  function ReadOutcome(t: Table, id: int): (r: Result<Item, Error>)
    ensures r == Err(NotFound) <==> id !in t
  {
    if id in t then ToItem(t[id]) else Err(NotFound)
  }

  /** The row after the `setattr` loop: every field of the payload replaces
      the stored one, `None` included; the id is kept. The row then reads
      back as the payload, or fails validation when the price is `None`. */
  function Overwritten(row: Row, name: string, u: ItemUpdate): (r: Row)
    ensures r.id == row.id
    ensures r.name == name && r.price == u.price && r.description == u.description
    ensures ToItem(r) == match u.price
      case Some(p) => Ok(Item(row.id, name, p, u.description))
      case None => Err(ValidationError)
  {
    row.(name := name, price := u.price, description := u.description)
  }

  /** The table and the result after `update_item(id, u)`. A `None` name
      makes the commit fail, so nothing is written; a `None` price is written
      and then makes the response fail. */
  function UpdateOutcome(t: Table, id: int, u: ItemUpdate): (out: (Table, Result<Item, Error>))
    ensures out.0.Keys == t.Keys
    ensures forall k :: k in t && k != id ==> out.0[k] == t[k]
    ensures out.1 == Err(NotFound) <==> id !in t
    ensures out.1 == Err(IntegrityError) <==> id in t && u.name.None?
    ensures out.1.Err? && out.1.error != ValidationError ==> out.0 == t
  {
    if id !in t then (t, Err(NotFound))
    else match u.name
      case None => (t, Err(IntegrityError))
      case Some(n) =>
        var row := Overwritten(t[id], n, u);
        (t[id := row], ToItem(row))
  }

  /** The table and the result after `delete_item(id)`: the row is gone and
      the result is built from it as it was. */
  function DeleteOutcome(t: Table, id: int): (out: (Table, Result<Item, Error>))
    ensures out.0.Keys == t.Keys - {id}
    ensures forall k :: k in out.0 ==> out.0[k] == t[k]
    ensures out.1 == Err(NotFound) <==> id !in t
    ensures id in t ==> out.1 == ToItem(t[id])
  {
    if id !in t then (t, Err(NotFound))
    else (t - {id}, ToItem(t[id]))
  }

  /** The id SQLite gives a new row of a table keyed by an `INTEGER PRIMARY
      KEY`: one more than the largest id in use, or 1 for an empty table.
      The ids in use are positive, as every id this rule hands out is. */
  method NextRowId(ids: set<int>) returns (id: int)
    requires forall k :: k in ids ==> k >= 1
    ensures id >= 1
    ensures id == 1 <==> ids == {}
    ensures forall k :: k in ids ==> k < id
    ensures id == 1 || id - 1 in ids
  {
    var largest := 0;
    var rest := ids;
    while rest != {}
      invariant rest <= ids
      invariant largest == 0 || largest in ids
      invariant largest >= 0
      invariant rest == ids || largest >= 1
      invariant forall k :: k in ids && k !in rest ==> k <= largest
      decreases rest
    {
      NonEmptyHasElement(rest);
      var k :| k in rest;
      if k > largest {
        largest := k;
      }
      rest := rest - {k};
    }
    id := largest + 1;
  }

  /** A non-empty set has an element. `NextRowId` needs this to pick a key
      with `:|`; the verifier does not draw it by itself from `s != {}`. */
  lemma NonEmptyHasElement(s: set<int>)
    requires s != {}
    ensures exists k :: k in s
  {
    if forall k :: k !in s {
      assert false;
    }
  }

  /** The `items` table together with the four handlers. */
  class Store {
    var rows: Table

    ghost predicate Valid()
      reads this
    {
      WellKeyed(rows)
    }

    /** The store over the `items` table of the database file as it is found:
      `create_all` creates the table only when it is missing, so rows
      written before survive. A new database starts from the empty map. */
    constructor (init: Table)
      requires WellKeyed(init)
      ensures Valid() && rows == init
    {
      rows := init;
    }

    /** `create_item`: insert a row under a new id and return it. */
    method Create(x: ItemCreate) returns (item: Item)
      requires Valid()
      modifies this
      ensures Valid()
      ensures item.id !in old(rows) && rows == Inserted(old(rows), item.id, x)
      ensures item == Item(item.id, x.name, x.price, x.description)
      ensures forall k :: k in old(rows) ==> k < item.id
      ensures item.id == 1 || item.id - 1 in old(rows)
    {
      var id := NextRowId(rows.Keys);
      var dbItem := NewRow(id, x);
      rows := rows[id := dbItem];
      var response := ToItem(rows[id]);
      item := response.value;
    }

    /** `read_item`: the stored record, or `NotFound`; nothing is written. */
    method Read(id: int) returns (r: Result<Item, Error>)
      ensures r == ReadOutcome(rows, id)
      ensures r == Err(NotFound) <==> id !in rows
      ensures r.Ok? ==> id in rows && r.value.name == rows[id].name &&
                        Some(r.value.price) == rows[id].price &&
                        r.value.description == rows[id].description
    {
      if id !in rows {
        r := Err(NotFound);
        return;
      }
      r := ToItem(rows[id]);
    }

    /** `update_item`: overwrite every field of the stored row with the
      payload's. */
    method Update(id: int, u: ItemUpdate) returns (r: Result<Item, Error>)
      requires Valid()
      modifies this
      ensures Valid()
      ensures (rows, r) == UpdateOutcome(old(rows), id, u)
    {
      if id !in rows {
        r := Err(NotFound);
        return;
      }
      var dbItem := rows[id];
      if u.name.None? {
        // The commit raises and the session is closed without it.
        r := Err(IntegrityError);
        return;
      }
      dbItem := dbItem.(name := u.name.value);
      dbItem := dbItem.(price := u.price);
      dbItem := dbItem.(description := u.description);
      rows := rows[id := dbItem];
      r := ToItem(rows[id]);
    }

    /** `delete_item`: remove the row and return it as it was. */
    method Delete(id: int) returns (r: Result<Item, Error>)
      requires Valid()
      modifies this
      ensures Valid()
      ensures (rows, r) == DeleteOutcome(old(rows), id)
    {
      if id !in rows {
        r := Err(NotFound);
        return;
      }
      var dbItem := rows[id];
      rows := rows - {id};
      r := ToItem(dbItem);
    }
  }

  /** Every handler keeps rows stored under their own positive ids. */
  lemma OperationsKeepWellKeyed(t: Table, id: int, x: ItemCreate, u: ItemUpdate)
    requires WellKeyed(t)
    ensures id !in t && id >= 1 ==> WellKeyed(Inserted(t, id, x))
    ensures WellKeyed(UpdateOutcome(t, id, u).0)
    ensures WellKeyed(DeleteOutcome(t, id).0)
  {
  }

  /** Create and then read the new id: the same name, price and description,
      under that id; every other id reads as before. */
  lemma CreateThenRead(t: Table, id: int, x: ItemCreate, other: int)
    requires id !in t
    ensures ReadOutcome(Inserted(t, id, x), id) == Ok(Item(id, x.name, x.price, x.description))
    ensures other != id ==> ReadOutcome(Inserted(t, id, x), other) == ReadOutcome(t, other)
  {
  }

  /** Update, read and delete of an id that is not stored all fail with
      `NotFound` and leave the table as it was. */
  lemma AbsentIsNotFound(t: Table, id: int, u: ItemUpdate)
    requires id !in t
    ensures ReadOutcome(t, id) == Err(NotFound)
    ensures UpdateOutcome(t, id, u) == (t, Err(NotFound))
    ensures DeleteOutcome(t, id) == (t, Err(NotFound))
  {
  }

  /** Update of a stored id with a name: the stored row takes exactly the
      payload's name, price and description (a `None` price included), keeps
      its id, and no other id changes. The result is what a read now gives. */
  lemma UpdatePresent(t: Table, id: int, u: ItemUpdate)
    requires WellKeyed(t) && id in t && u.name.Some?
    ensures var (t', r) := UpdateOutcome(t, id, u);
      t'.Keys == t.Keys &&
      t'[id] == Row(id, u.name.value, u.price, u.description) &&
      (forall k :: k in t && k != id ==> t'[k] == t[k]) &&
      r == ReadOutcome(t', id)
  {
  }

  /** The response to an update reports what it wrote: with a price it
      returns the payload's fields under the same id; without one it fails
      validation, and so does every later read of that id. */
  lemma UpdateResponse(t: Table, id: int, u: ItemUpdate)
    requires WellKeyed(t) && id in t && u.name.Some?
    ensures var (t', r) := UpdateOutcome(t, id, u);
      (u.price.Some? ==> r == Ok(Item(id, u.name.value, u.price.value, u.description))) &&
      (u.price.None? ==> r == Err(ValidationError) && ReadOutcome(t', id) == Err(ValidationError))
  {
  }

  /** Update of a stored id with a `None` name is refused by the database:
      the table is unchanged. */
  lemma UpdateNullName(t: Table, id: int, u: ItemUpdate)
    requires id in t && u.name.None?
    ensures UpdateOutcome(t, id, u) == (t, Err(IntegrityError))
  {
  }

  /** Delete of a stored id removes that row only and returns it as it was;
      afterwards a read, an update or a second delete of the id is `NotFound`. */
  lemma DeletePresent(t: Table, id: int, u: ItemUpdate)
    requires id in t
    ensures var (t', r) := DeleteOutcome(t, id);
      t'.Keys == t.Keys - {id} &&
      (forall k :: k in t' ==> t'[k] == t[k]) &&
      r == ToItem(t[id]) &&
      ReadOutcome(t', id) == Err(NotFound) &&
      UpdateOutcome(t', id, u) == (t', Err(NotFound)) &&
      DeleteOutcome(t', id) == (t', Err(NotFound))
  {
    AbsentIsNotFound(DeleteOutcome(t, id).0, id, u);
  }

  /** The requests of the API tests, in order, against one new database:
      create, read, update with the created fields, delete, and read after the
      delete. */
  method ApiScenario() returns (created: Item, read: Result<Item, Error>,
                                updated: Result<Item, Error>, deleted: Result<Item, Error>,
                                gone: Result<Item, Error>)
    ensures created == Item(1, "Test Item", Price(0x4058_F999_9999_999A), Some("This is a test item"))
    ensures read == Ok(created)
    ensures updated == Ok(created)
    ensures deleted == Ok(created)
    ensures gone == Err(NotFound)
  {
    var price := Price(0x4058_F999_9999_999A);  // 99.90
    var store := new Store(map[]);
    created := store.Create(ItemCreate("Test Item", price, Some("This is a test item")));
    read := store.Read(created.id);
    updated := store.Update(created.id, ItemUpdate(Some("Test Item"), Some(price), Some("This is a test item")));
    deleted := store.Delete(created.id);
    gone := store.Read(created.id);
  }

  /** A new row takes one more than the largest id in use, so deleting the
      newest row and creating another hands out the same id again: ids are
      not monotonic. */
  method IdReuseScenario() returns (first: Item, second: Item)
    ensures first.id == 1 && second.id == 1
  {
    var price := Price(0x4058_F999_9999_999A);  // 99.90
    var store := new Store(map[]);
    first := store.Create(ItemCreate("Test Item", price, None));
    var deleted := store.Delete(first.id);
    second := store.Create(ItemCreate("Test Item", price, None));
  }
}
