/** `service.SqliteTripService` over the `trips` and `trip_items` tables. The derived
    column `line_total_cents` of a trip item is its expected price (0 when unknown) times
    its planned quantity; `addItem`, `updateItemQty` and `removeItem` keep that true of
    every row, and a trip's subtotal is the sum of its items' line totals. */
module Trips {
  import opened Common
  import opened Text
  import opened Table

  /** `model.Trip` as `create` returns it. */
  datatype Trip = Trip(id: int, tripDateText: string, storeId: Option<Int32>, budgetCents: Int32, note: string)

  /** `model.TripItem` as `addItem` and `listItems` return it. */
  datatype TripItem = TripItem(
    id: int,
    tripId: Int32,
    itemName: string,
    unit: Option<string>,
    plannedQty: Int32,
    expectedPriceCents: Option<Int32>,
    lineTotalCents: Int32)

  /** The columns of `trips` after `id`; `trip_date` and `budget_cents` are NOT NULL. */
  datatype TripCols = TripCols(tripDate: string, storeId: Option<Int32>, budgetCents: Int32, note: string)

  /** The columns of `trip_items` after `id`. `line_total_cents` is a 64-bit SQLite
      INTEGER, so it is kept exact here. */
  datatype ItemCols = ItemCols(
    tripId: Int32,
    itemName: string,
    unit: Option<string>,
    plannedQty: Int32,
    expectedPriceCents: Option<Int32>,
    lineTotalCents: int)

  /** `COALESCE(expected_price_cents, 0) * qty`, exactly. */
  function LineTotal(price: Option<Int32>, qty: int): (t: int)
    ensures price.None? ==> t == 0
    ensures price.Some? && price.value >= 0 && qty >= 0 ==> t >= 0
    ensures price.Some? && qty == 0 ==> t == 0
  {
    if price.None? then 0 else price.value * qty
  }

  /** The derived-column invariant of one `trip_items` row. */
  predicate Consistent(c: ItemCols) {
    c.plannedQty > 0 && c.lineTotalCents == LineTotal(c.expectedPriceCents, c.plannedQty)
  }

  predicate AllConsistent(rows: seq<Row<ItemCols>>) {
    forall i :: 0 <= i < |rows| ==> Consistent(rows[i].cols)
  }

  /** The SET clause of `updateItemQty`: the new quantity, and the line total recomputed
      from the stored price. */
  function Requantify(c: ItemCols, qty: Int32): (c': ItemCols)
    ensures c'.plannedQty == qty && c'.lineTotalCents == LineTotal(c.expectedPriceCents, qty)
    ensures c'.(plannedQty := c.plannedQty, lineTotalCents := c.lineTotalCents) == c
    ensures qty > 0 ==> Consistent(c')
  {
    c.(plannedQty := qty, lineTotalCents := LineTotal(c.expectedPriceCents, qty))
  }

  /** The row `addItem` inserts: the name unvalidated and untrimmed, the unit through
      `emptyToNull`, the line total computed from the price and quantity. */
  function NewItemCols(tripId: Int32, itemName: string, unit: Option<string>, qty: Int32, price: Option<Int32>): (c: ItemCols)
    ensures c.tripId == tripId && c.itemName == itemName && c.unit == EmptyToNull(unit)
    ensures c.plannedQty == qty && c.expectedPriceCents == price
    ensures qty > 0 ==> Consistent(c)
  {
    ItemCols(tripId, itemName, EmptyToNull(unit), qty, price, LineTotal(price, qty))
  }

  /** One row read back by `listItems`: `getInt` keeps the low 32 bits of the line total,
      and a NULL price stays null. */
  function ToItem(r: Row<ItemCols>): (t: TripItem)
    ensures t.id == r.id && t.tripId == r.cols.tripId && t.itemName == r.cols.itemName
    ensures t.expectedPriceCents == r.cols.expectedPriceCents && t.plannedQty == r.cols.plannedQty
    ensures MinInt32 <= r.cols.lineTotalCents <= MaxInt32 ==> t.lineTotalCents == r.cols.lineTotalCents
  {
    TripItem(r.id, r.cols.tripId, r.cols.itemName, r.cols.unit, r.cols.plannedQty,
             r.cols.expectedPriceCents, Wrap32(r.cols.lineTotalCents))
  }

  predicate OfTrip(tripId: int, r: Row<ItemCols>) {
    r.cols.tripId == tripId
  }

  /** The rows `WHERE trip_id = ?` selects, in table order. */
  function TripRows(rows: seq<Row<ItemCols>>, tripId: int): seq<Row<ItemCols>> {
    Filter(rows, row => OfTrip(tripId, row))
  }

  /** Those rows read back. */
  function Listed(rows: seq<Row<ItemCols>>, tripId: int): seq<TripItem> {
    var f := TripRows(rows, tripId);
    seq(|f|, i requires 0 <= i < |f| => ToItem(f[i]))
  }

  /** `listItems` returns an item for exactly the rows of its trip. */
  lemma ListedExactly(rows: seq<Row<ItemCols>>, tripId: int)
    ensures var r := Listed(rows, tripId);
      && (forall k :: 0 <= k < |rows| ==> (ToItem(rows[k]) in r <==> rows[k].cols.tripId == tripId))
      && (forall i :: 0 <= i < |r| ==> r[i].tripId == tripId && exists k :: 0 <= k < |rows| && r[i] == ToItem(rows[k]))
  {
    var f := TripRows(rows, tripId);
    ListedOfFilter(rows, tripId, f);
    ListedComplete(rows, tripId, f);
  }

  /** Every listed item is a row of the trip. */
  lemma ListedOfFilter(rows: seq<Row<ItemCols>>, tripId: int, f: seq<Row<ItemCols>>)
    requires f == TripRows(rows, tripId)
    ensures var r := Listed(rows, tripId);
      && (forall k :: 0 <= k < |rows| && ToItem(rows[k]) in r ==> rows[k].cols.tripId == tripId)
      && (forall i :: 0 <= i < |r| ==> r[i].tripId == tripId && exists k :: 0 <= k < |rows| && r[i] == ToItem(rows[k]))
  {
    var r := Listed(rows, tripId);
    assert |r| == |f| && forall i :: 0 <= i < |f| ==> r[i] == ToItem(f[i]);
    forall i | 0 <= i < |r| ensures r[i].tripId == tripId && exists k :: 0 <= k < |rows| && r[i] == ToItem(rows[k]) {
      assert OfTrip(tripId, f[i]);
      var k :| 0 <= k < |rows| && rows[k] == f[i];
    }
  }

  /** Every row of the trip is listed. */
  lemma ListedComplete(rows: seq<Row<ItemCols>>, tripId: int, f: seq<Row<ItemCols>>)
    requires f == TripRows(rows, tripId)
    ensures forall k :: 0 <= k < |rows| && rows[k].cols.tripId == tripId ==> ToItem(rows[k]) in Listed(rows, tripId)
  {
    var r := Listed(rows, tripId);
    assert |r| == |f| && forall i :: 0 <= i < |f| ==> r[i] == ToItem(f[i]);
    forall k | 0 <= k < |rows| && rows[k].cols.tripId == tripId ensures ToItem(rows[k]) in r {
      assert OfTrip(tripId, rows[k]);
      var i :| 0 <= i < |f| && f[i] == rows[k];
      assert r[i] == ToItem(rows[k]);
    }
  }

  /** `ORDER BY id`: on a well-formed table the rows already come in ascending id order. */
  lemma ListedAscending(rows: seq<Row<ItemCols>>, tripId: int)
    requires IdsAscending(rows)
    ensures var r := Listed(rows, tripId);
      forall i, j :: 0 <= i < j < |r| ==> r[i].id < r[j].id
  {
    var f := TripRows(rows, tripId);
    assert IdsAscending(f);
  }

  /** `SUM(line_total_cents) ... WHERE trip_id = ?`, with `COALESCE(..., 0)` for no rows. */
  function Subtotal(rows: seq<Row<ItemCols>>, tripId: int): int {
    if rows == [] then 0 else RowTotal(rows[0].cols, tripId) + Subtotal(rows[1..], tripId)
  }

  /** What one row adds to the subtotal of `tripId`. */
  function RowTotal(c: ItemCols, tripId: int): int {
    if c.tripId == tripId then c.lineTotalCents else 0
  }

  class SqliteTripService {
    var trips: seq<Row<TripCols>>
    var nextTripId: int
    var items: seq<Row<ItemCols>>
    var nextItemId: int

    predicate Valid()
      reads this
    {
      && WellFormed(trips, nextTripId) && nextTripId >= 1
      && WellFormed(items, nextItemId) && nextItemId >= 1
      && AllConsistent(items)
    }

    /** A fresh database: `DBMigrator.migrate` has created empty tables. */
    constructor()
      ensures Valid() && trips == [] && items == [] && nextTripId == 1 && nextItemId == 1
    {
      trips, items := [], [];
      nextTripId, nextItemId := 1, 1;
    }

    /** `create`: a null date violates NOT NULL and fails with nothing stored; otherwise
        one trip row is appended with the budget clamped at 0 and a null note as "", and
        the returned trip is that row with its fresh id. */
    method Create(dateText: Option<string>, storeId: Option<Int32>, budgetCents: Int32, note: Option<string>)
      returns (r: Result<Trip>)
      requires Valid()
      modifies this
      ensures Valid() && items == old(items) && nextItemId == old(nextItemId)
      ensures r.Err? <==> dateText.None?
      ensures r.Err? ==> r.error == Runtime && trips == old(trips) && nextTripId == old(nextTripId)
      ensures r.Ok? ==> && trips == old(trips) + [Row(old(nextTripId), NewTripCols(dateText.value, storeId, budgetCents, note))]
                        && nextTripId == old(nextTripId) + 1
                        && r.value == ToTrip(trips[|trips| - 1])
    {
      if dateText.None? {
        return Err(Runtime);
      }
      var cols := NewTripCols(dateText.value, storeId, budgetCents, note);
      LookupAfterInsert(trips, nextTripId, cols, nextTripId);
      trips := trips + [Row(nextTripId, cols)];
      r := Ok(ToTrip(Row(nextTripId, cols)));
      nextTripId := nextTripId + 1;
    }

    /** `listItems(tripId)`: exactly the items of that trip, in ascending id order. */
    function ListItems(tripId: Int32): (r: seq<TripItem>)
      reads this
      requires Valid()
      ensures forall i, j :: 0 <= i < j < |r| ==> r[i].id < r[j].id
      ensures forall k :: 0 <= k < |items| ==> (ToItem(items[k]) in r <==> items[k].cols.tripId == tripId)
      ensures forall i :: 0 <= i < |r| ==> r[i].tripId == tripId && exists k :: 0 <= k < |items| && r[i] == ToItem(items[k])
    {
      ListedExactly(items, tripId);
      ListedAscending(items, tripId);
      Listed(items, tripId)
    }

    /** `addItem`: a non-positive quantity is rejected and a null name violates NOT NULL,
        both with nothing stored; otherwise one row is appended, and the returned item has
        the fresh id, the caller's raw unit and the same line total as the row. */
    method AddItem(tripId: Int32, itemName: Option<string>, unit: Option<string>, qty: Int32, price: Option<Int32>)
      returns (r: Result<TripItem>)
      requires Valid()
      modifies this
      ensures Valid() && trips == old(trips) && nextTripId == old(nextTripId)
      ensures r == Err(IllegalArgument) <==> qty <= 0
      ensures r == Err(Runtime) <==> qty > 0 && itemName.None?
      ensures r.Err? ==> (r.error == IllegalArgument || r.error == Runtime) && items == old(items) && nextItemId == old(nextItemId)
      ensures r.Ok? ==> && items == old(items) + [Row(old(nextItemId), NewItemCols(tripId, itemName.value, unit, qty, price))]
                        && nextItemId == old(nextItemId) + 1
                        && r.value == ToItem(items[|items| - 1]).(unit := unit)
    {
      if qty <= 0 {
        return Err(IllegalArgument);
      }
      if itemName.None? {
        return Err(Runtime);
      }
      var cols := NewItemCols(tripId, itemName.value, unit, qty, price);
      LookupAfterInsert(items, nextItemId, cols, nextItemId);
      items := items + [Row(nextItemId, cols)];
      r := Ok(ToItem(Row(nextItemId, cols)).(unit := unit));
      nextItemId := nextItemId + 1;
    }

    /** `updateItemQty`: a non-positive quantity is rejected; otherwise the row with that
        id, if any, gets the new quantity and a line total recomputed from its stored
        price, and no other row changes. */
    method UpdateItemQty(tripItemId: Int32, newQty: Int32) returns (o: Outcome)
      requires Valid()
      modifies this
      ensures Valid() && trips == old(trips) && nextTripId == old(nextTripId) && nextItemId == old(nextItemId)
      ensures o.Fail? <==> newQty <= 0
      ensures o.Fail? ==> o.error == IllegalArgument && items == old(items)
      ensures o.Done? ==> items == Table.Update(old(items), tripItemId, c => Requantify(c, newQty))
    {
      if newQty <= 0 {
        return Fail(IllegalArgument);
      }
      RequantifyKeepsConsistent(items, tripItemId, newQty);
      UpdateWellFormed(items, nextItemId, tripItemId, c => Requantify(c, newQty));
      items := Table.Update(items, tripItemId, c => Requantify(c, newQty));
      o := Done;
    }

    /** `removeItem`: deletes the row with that id; no row is not an error. */
    method RemoveItem(tripItemId: Int32)
      requires Valid()
      modifies this
      ensures Valid() && trips == old(trips) && nextTripId == old(nextTripId) && nextItemId == old(nextItemId)
      ensures items == Table.Delete(old(items), tripItemId)
    {
      DeleteCount(items, nextItemId, tripItemId);
      items := Table.Delete(items, tripItemId);
    }

    /** `computeSubtotalCents`: the trip's line totals summed in 64 bits, read back with
        `getInt`. */
    function ComputeSubtotalCents(tripId: Int32): (r: Int32)
      reads this
      ensures MinInt32 <= Subtotal(items, tripId) <= MaxInt32 ==> r == Subtotal(items, tripId)
      ensures (forall k :: 0 <= k < |items| ==> items[k].cols.tripId != tripId) ==> r == 0
    {
      SubtotalOfNoItems(items, tripId);
      Wrap32(Subtotal(items, tripId))
    }
  }

  /** The row `create` inserts: the budget clamped at 0 and a null note stored as "". */
  function NewTripCols(dateText: string, storeId: Option<Int32>, budgetCents: Int32, note: Option<string>): (c: TripCols)
    ensures c.tripDate == dateText && c.storeId == storeId
    ensures c.budgetCents >= 0 && (budgetCents >= 0 ==> c.budgetCents == budgetCents)
    ensures budgetCents < 0 ==> c.budgetCents == 0
    ensures note.None? ==> c.note == []
    ensures note.Some? ==> c.note == note.value
  {
    TripCols(dateText, storeId, Max(0, budgetCents), if note.None? then "" else note.value)
  }

  function ToTrip(r: Row<TripCols>): Trip {
    Trip(r.id, r.cols.tripDate, r.cols.storeId, r.cols.budgetCents, r.cols.note)
  }

  /** A trip with no items has subtotal 0. */
  lemma {:induction false} SubtotalOfNoItems(rows: seq<Row<ItemCols>>, tripId: int)
    ensures (forall k :: 0 <= k < |rows| ==> rows[k].cols.tripId != tripId) ==> Subtotal(rows, tripId) == 0
  {
    if rows != [] {
      SubtotalOfNoItems(rows[1..], tripId);
      assert forall k :: 0 <= k < |rows[1..]| ==> rows[1..][k] == rows[k + 1];
    }
  }

  /** Appending a row adds its line total to its own trip's subtotal only. */
  lemma {:induction false} SubtotalAppend(rows: seq<Row<ItemCols>>, r: Row<ItemCols>, tripId: int)
    ensures Subtotal(rows + [r], tripId) == Subtotal(rows, tripId) + RowTotal(r.cols, tripId)
  {
    if rows != [] {
      assert (rows + [r])[1..] == rows[1..] + [r];
      SubtotalAppend(rows[1..], r, tripId);
    }
  }

  /** The subtotal is the sum over exactly the rows `listItems` selects. */
  lemma {:induction false} SubtotalOfFilter(rows: seq<Row<ItemCols>>, tripId: int)
    ensures Subtotal(TripRows(rows, tripId), tripId) == Subtotal(rows, tripId)
  {
    if rows != [] {
      var init := rows[..|rows| - 1];
      var last := rows[|rows| - 1];
      assert rows == init + [last];
      SubtotalOfFilter(init, tripId);
      SubtotalAppend(init, last, tripId);
      var f := TripRows(init, tripId);
      assert TripRows(rows, tripId) == f + (if OfTrip(tripId, last) then [last] else []);
      if last.cols.tripId == tripId {
        SubtotalAppend(f, last, tripId);
      } else {
        assert f + [] == f;
      }
    }
  }

  /** Removing a present row lowers its trip's subtotal by exactly its line total and
      leaves every other trip's subtotal as it was; removing an absent id changes nothing. */
  lemma {:induction false} SubtotalAfterRemove(rows: seq<Row<ItemCols>>, nextId: int, id: int, tripId: int)
    requires WellFormed(rows, nextId)
    ensures var prev := Lookup(rows, id);
      Subtotal(Delete(rows, id), tripId) == Subtotal(rows, tripId) - (if prev.Some? then RowTotal(prev.value, tripId) else 0)
  {
    if rows != [] {
      var init := rows[..|rows| - 1];
      var last := rows[|rows| - 1];
      assert rows == init + [last];
      SubtotalAfterRemove(init, nextId, id, tripId);
      SubtotalAppend(init, last, tripId);
      var d := Delete(init, id);
      if last.id != id {
        assert Delete(rows, id) == d + [last];
        SubtotalAppend(d, last, tripId);
        assert Lookup(rows, id) == Lookup(init, id);
      } else {
        assert Delete(rows, id) == d;
        assert Lookup(init, id).None?;
        assert Lookup(rows, id) == Some(last.cols);
      }
    }
  }

  /** Re-quantifying a present row changes its trip's subtotal by the difference of its
      new and old line totals and leaves every other trip's subtotal as it was. */
  lemma {:induction false} SubtotalAfterRequantify(rows: seq<Row<ItemCols>>, nextId: int, id: int, qty: Int32, tripId: int)
    requires WellFormed(rows, nextId)
    ensures var prev := Lookup(rows, id);
      Subtotal(Table.Update(rows, id, c => Requantify(c, qty)), tripId) ==
      Subtotal(rows, tripId) + (if prev.Some? then RowTotal(Requantify(prev.value, qty), tripId) - RowTotal(prev.value, tripId) else 0)
  {
    if rows != [] {
      var init := rows[..|rows| - 1];
      var last := rows[|rows| - 1];
      var f := c => Requantify(c, qty);
      var u := Table.Update(rows, id, f);
      var ui := Table.Update(init, id, f);
      var last' := u[|rows| - 1];
      assert rows == init + [last];
      assert u == ui + [last'];
      SubtotalAfterRequantify(init, nextId, id, qty, tripId);
      SubtotalAppend(init, last, tripId);
      SubtotalAppend(ui, last', tripId);
      if last.id == id {
        assert Lookup(init, id).None?;
        assert Lookup(rows, id) == Some(last.cols);
        assert last'.cols == Requantify(last.cols, qty);
      } else {
        assert last' == last;
        assert Lookup(rows, id) == Lookup(init, id);
      }
    }
  }

  /** `addItem` keeps every row consistent. */
  lemma AddKeepsConsistent(rows: seq<Row<ItemCols>>, id: int, tripId: Int32, itemName: string, unit: Option<string>, qty: Int32, price: Option<Int32>)
    requires AllConsistent(rows) && qty > 0
    ensures AllConsistent(rows + [Row(id, NewItemCols(tripId, itemName, unit, qty, price))])
  {
  }

  /** `updateItemQty` with a positive quantity keeps every row consistent. */
  lemma RequantifyKeepsConsistent(rows: seq<Row<ItemCols>>, id: int, qty: Int32)
    requires AllConsistent(rows) && qty > 0
    ensures AllConsistent(Table.Update(rows, id, c => Requantify(c, qty)))
  {
  }

  /** `removeItem` keeps every row consistent. */
  lemma RemoveKeepsConsistent(rows: seq<Row<ItemCols>>, id: int)
    requires AllConsistent(rows)
    ensures AllConsistent(Delete(rows, id))
  {
    var d := Delete(rows, id);
    forall i | 0 <= i < |d| ensures Consistent(d[i].cols) {
      var k :| 0 <= k < |rows| && rows[k] == d[i];
    }
  }

  /** On a consistent row, re-quantifying to the quantity it already has is a no-op. */
  lemma RequantifySameQty(c: ItemCols)
    requires Consistent(c)
    ensures Requantify(c, c.plannedQty) == c
  {
  }

  /** On a consistent table the subtotal of a trip is the sum of price times quantity over
      its items. */
  lemma {:induction false} SubtotalOfConsistent(rows: seq<Row<ItemCols>>, tripId: int)
    requires AllConsistent(rows)
    ensures Subtotal(rows, tripId) == PriceSum(rows, tripId)
  {
    if rows != [] {
      SubtotalOfConsistent(rows[1..], tripId);
    }
  }

  /** Price times quantity summed over a trip's items, without the stored column. */
  function PriceSum(rows: seq<Row<ItemCols>>, tripId: int): int {
    if rows == [] then 0
    else (if rows[0].cols.tripId == tripId then LineTotal(rows[0].cols.expectedPriceCents, rows[0].cols.plannedQty) else 0)
         + PriceSum(rows[1..], tripId)
  }

  // As written, `addItem` computes the line total with Java `int` multiplication, which
  // wraps, while `updateItemQty` computes it in SQLite's 64-bit arithmetic. The model
  // above stores the exact product; the members below state the code as written.

  /** `expectedPriceCents * qty` as Java evaluates it. */
  function JavaLineTotal(price: Option<Int32>, qty: Int32): (t: Int32)
    ensures MinInt32 <= LineTotal(price, qty) <= MaxInt32 ==> t == LineTotal(price, qty)
  {
    Wrap32(LineTotal(price, qty))
  }

  /** The row `addItem` inserts as written. */
  function JavaNewItemCols(tripId: Int32, itemName: string, unit: Option<string>, qty: Int32, price: Option<Int32>): (c: ItemCols)
    ensures c == NewItemCols(tripId, itemName, unit, qty, price).(lineTotalCents := JavaLineTotal(price, qty))
  {
    ItemCols(tripId, itemName, EmptyToNull(unit), qty, price, JavaLineTotal(price, qty))
  }

  /** The wrap is invisible through `getInt`: the item read back and the subtotal
      `computeSubtotalCents` returns are the same whether the row holds the wrapped or the
      exact line total. Only the raw column, and SQL arithmetic on it, differ. */
  lemma JavaRowReadsAlike(rows: seq<Row<ItemCols>>, id: int, tripId: Int32, itemName: string, unit: Option<string>,
                          qty: Int32, price: Option<Int32>, t: int)
    ensures var java := Row(id, JavaNewItemCols(tripId, itemName, unit, qty, price));
      var exact := Row(id, NewItemCols(tripId, itemName, unit, qty, price));
      && ToItem(java) == ToItem(exact)
      && Wrap32(Subtotal(rows + [java], t)) == Wrap32(Subtotal(rows + [exact], t))
  {
    var java := Row(id, JavaNewItemCols(tripId, itemName, unit, qty, price));
    var exact := Row(id, NewItemCols(tripId, itemName, unit, qty, price));
    SubtotalAppend(rows, java, t);
    SubtotalAppend(rows, exact, t);
    Wrap32OfSum(Subtotal(rows, t), exact.cols.lineTotalCents);
  }

  /** A price of NT$1,000.00 for 100,000 units: the row `addItem` stores breaks the
      derived-column invariant, and `updateItemQty` with the unchanged quantity then
      rewrites its line total. */
  lemma JavaLineTotalOverflows()
    ensures var c := JavaNewItemCols(1, "rice", None, 100000, Some(100000));
      && c.lineTotalCents == 1410065408
      && !Consistent(c)
      && Requantify(c, 100000).lineTotalCents == 10000000000
  {
    var c := JavaNewItemCols(1, "rice", None, 100000, Some(100000));
    assert LineTotal(Some(100000), 100000) == 10000000000;
    assert Wrap32(10000000000) == 1410065408;
  }
}
