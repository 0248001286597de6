/** `service.SqliteInventoryService` over the `inventory` table, whose name, quantity and
    expiry are all NOT NULL. A statement that violates NOT NULL fails with
    IllegalStateException and changes nothing; `update` and `delete` of an id with no row
    fail with IllegalArgumentException, where the in-memory service does nothing. */
module SqliteInventory {
  import opened Common
  import opened Table
  import opened Inventory

  /** The columns of `inventory` after `id`; the expiry is stored as the date's text and
      read back with `LocalDate.parse`, which gives the same date. */
  datatype InventoryCols = InventoryCols(name: string, quantity: Int32, expiry: Date)

  function ToValue(r: Row<InventoryCols>): (v: ItemValue)
    requires MinInt32 <= r.id <= MaxInt32
  {
    ItemValue(r.id, Some(r.cols.name), r.cols.quantity, Some(r.cols.expiry))
  }

  function RowValues(rows: seq<Row<InventoryCols>>): (vs: seq<ItemValue>)
    requires forall i :: 0 <= i < |rows| ==> MinInt32 <= rows[i].id <= MaxInt32
    ensures |vs| == |rows| && forall i :: 0 <= i < |rows| ==> vs[i] == ToValue(rows[i])
  {
    if rows == [] then [] else RowValues(rows[..|rows| - 1]) + [ToValue(rows[|rows| - 1])]
  }

  /** The values bound to `name`, `quantity` and `expiry`, or None when one of the NOT NULL
      columns would get NULL. */
  function Bound(name: Option<string>, quantity: Int32, expiry: Option<Date>): (c: Option<InventoryCols>)
    ensures c.None? <==> name.None? || expiry.None?
    ensures c.Some? ==> c.value == InventoryCols(name.value, quantity, expiry.value)
  {
    if name.None? || expiry.None? then None else Some(InventoryCols(name.value, quantity, expiry.value))
  }

  class SqliteInventoryService {
    var rows: seq<Row<InventoryCols>>
    var nextId: int

    /** Ids well formed and within `int`, as `getInt("id")` reads them. */
    predicate Valid()
      reads this
    {
      WellFormed(rows, nextId) && nextId >= 1 && forall i :: 0 <= i < |rows| ==> rows[i].id <= MaxInt32
    }

    /** A new database file: the schema has been created and the table is empty. */
    constructor()
      ensures Valid() && rows == [] && nextId == 1
    {
      rows := [];
      nextId := 1;
    }

    /** `listAll`: every row, in ascending id order. */
    function ListAll(): (r: seq<ItemValue>)
      reads this
      requires Valid()
      ensures |r| == |rows|
      ensures forall i, j :: 0 <= i < j < |r| ==> r[i].id < r[j].id
      ensures forall i :: 0 <= i < |r| ==>
                (r[i].id == rows[i].id && r[i].name == Some(rows[i].cols.name)
                 && r[i].quantity == rows[i].cols.quantity && r[i].expiry == Some(rows[i].cols.expiry))
    {
      RowValues(rows)
    }

    /** `add`: a null name or expiry violates NOT NULL; otherwise one row with a fresh id is
        appended. The quantity is not validated. */
    method Add(name: Option<string>, quantity: Int32, expiry: Option<Date>) returns (o: Outcome)
      requires Valid()
      modifies this
      ensures o.Fail? <==> name.None? || expiry.None?
      ensures o.Fail? ==> o.error == IllegalState && rows == old(rows) && nextId == old(nextId)
      ensures o.Done? ==> && rows == old(rows) + [Row(old(nextId), InventoryCols(name.value, quantity, expiry.value))]
                          && nextId == old(nextId) + 1
      ensures o.Done? && old(nextId) <= MaxInt32 ==> Valid()
      ensures o.Fail? ==> Valid()
    {
      var cols := Bound(name, quantity, expiry);
      if cols.None? {
        return Fail(IllegalState);
      }
      LookupAfterInsert(rows, nextId, cols.value, nextId);
      rows := rows + [Row(nextId, cols.value)];
      nextId := nextId + 1;
      o := Done;
    }

    /** `update`: an id with no row fails with IllegalArgumentException; a null name or
        expiry on an existing row violates NOT NULL; otherwise that row alone gets the new
        columns. */
    method Update(id: Int32, name: Option<string>, quantity: Int32, expiry: Option<Date>) returns (o: Outcome)
      requires Valid()
      modifies this
      ensures Valid() && nextId == old(nextId)
      ensures o == Fail(IllegalArgument) <==> Lookup(old(rows), id).None?
      ensures o == Fail(IllegalState) <==> Lookup(old(rows), id).Some? && (name.None? || expiry.None?)
      ensures o.Fail? ==> (o.error == IllegalArgument || o.error == IllegalState) && rows == old(rows)
      ensures o.Done? ==> rows == Table.Update(old(rows), id, _ => InventoryCols(name.value, quantity, expiry.value))
    {
      if Lookup(rows, id).None? {
        return Fail(IllegalArgument);
      }
      var cols := Bound(name, quantity, expiry);
      if cols.None? {
        return Fail(IllegalState);
      }
      UpdateWellFormed(rows, nextId, id, _ => cols.value);
      rows := Table.Update(rows, id, _ => cols.value);
      o := Done;
    }

    /** `delete`: an id with no row fails with IllegalArgumentException; otherwise its row
        is removed. */
    method Delete(id: Int32) returns (o: Outcome)
      requires Valid()
      modifies this
      ensures Valid() && nextId == old(nextId)
      ensures o.Fail? <==> Lookup(old(rows), id).None?
      ensures o.Fail? ==> o.error == IllegalArgument && rows == old(rows)
      ensures o.Done? ==> rows == Table.Delete(old(rows), id) && |rows| == |old(rows)| - 1
    {
      if Lookup(rows, id).None? {
        return Fail(IllegalArgument);
      }
      DeleteCount(rows, nextId, id);
      rows := Table.Delete(rows, id);
      o := Done;
    }
  }

  /** An `update` that succeeded reads back as the new columns under its id, and every
      other id reads as before. */
  lemma UpdateReadsBack(rows: seq<Row<InventoryCols>>, id: int, c: InventoryCols, other: int)
    requires Lookup(rows, id).Some?
    ensures Lookup(Table.Update(rows, id, _ => c), other) == if other == id then Some(c) else Lookup(rows, other)
  {
    LookupAfterUpdate(rows, id, _ => c, other);
  }

  /** A `delete` that succeeded leaves no row with its id and every other id as before. */
  lemma DeleteReadsBack(rows: seq<Row<InventoryCols>>, nextId: int, id: int, other: int)
    requires WellFormed(rows, nextId) && Lookup(rows, id).Some?
    ensures Lookup(Table.Delete(rows, id), other) == if other == id then None else Lookup(rows, other)
    ensures |Table.Delete(rows, id)| == |rows| - 1
  {
    LookupAfterDelete(rows, id, other);
    DeleteCount(rows, nextId, id);
  }
}
