/** `service.SqlitePantryService` over the `pantry_items` table: a validated add that
    trims and normalises text, an update that clamps quantities instead of rejecting them,
    a delete that reports whether the row existed, and three sorted views. */
module Pantry {
  import opened Common
  import opened Text
  import opened Table
  import opened Sorting

  /** `model.PantryItem` as the caller passes it in and gets it back. */
  datatype PantryItem = PantryItem(
    id: Option<int>,
    name: Option<string>,
    category: Option<string>,
    onHandQty: Int32,
    unit: Option<string>,
    expiry: Option<string>,   // "YYYY-MM-DD" text
    minQty: Int32,
    updatedAt: Option<string>)

  /** The columns of `pantry_items` after `id`; `name`, `on_hand_qty` and `min_qty` are
      NOT NULL. */
  datatype PantryCols = PantryCols(
    name: string,
    category: Option<string>,
    onHandQty: Int32,
    unit: Option<string>,
    expiry: Option<string>,
    minQty: Int32,
    updatedAt: Option<string>)

  /** The expiry column gets NULL for a null or blank text, the text itself otherwise. */
  function BlankToNull(s: Option<string>): (r: Option<string>)
    ensures r.None? <==> s.None? || IsBlank(s.value)
    ensures r.Some? ==> r == s
  {
    if s.None? || IsBlank(s.value) then None else s
  }

  /** What every row written by `add` and `update` looks like. */
  predicate Normalised(c: PantryCols) {
    && c.onHandQty >= 0 && c.minQty >= 0
    && IsTrimmed(c.name)
    && (c.category.Some? ==> c.category.value != [] && IsTrimmed(c.category.value))
    && (c.unit.Some? ==> c.unit.value != [] && IsTrimmed(c.unit.value))
    && (c.expiry.Some? ==> !IsBlank(c.expiry.value))
  }

  predicate ValidTable(rows: seq<Row<PantryCols>>, nextId: int) {
    WellFormed(rows, nextId) && nextId >= 1 && forall i :: 0 <= i < |rows| ==> Normalised(rows[i].cols)
  }

  /** `add` and `update` reject these before the table is touched. */
  predicate NameMissing(p: PantryItem) {
    p.name.None? || IsBlank(p.name.value)
  }

  /** The values bound to the INSERT and UPDATE parameters: the name trimmed, category and
      unit through `emptyToNull`, a blank expiry as NULL, the quantities as given. */
  function Columns(p: PantryItem, now: string): (c: PantryCols)
    requires p.name.Some?
    ensures c.name == Trim(p.name.value) && c.updatedAt == Some(now)
    ensures c.onHandQty == p.onHandQty && c.minQty == p.minQty
    ensures c.category == EmptyToNull(p.category) && c.unit == EmptyToNull(p.unit)
    ensures c.expiry.None? <==> p.expiry.None? || IsBlank(p.expiry.value)
    ensures p.onHandQty >= 0 && p.minQty >= 0 ==> Normalised(c)
  {
    PantryCols(Trim(p.name.value), EmptyToNull(p.category), p.onHandQty, EmptyToNull(p.unit),
               BlankToNull(p.expiry), p.minQty, Some(now))
  }

  /** `update` writes `Math.max(0, ...)` of both quantities. */
  function Clamped(p: PantryItem): (q: PantryItem)
    ensures q.onHandQty >= 0 && q.minQty >= 0
    ensures p.onHandQty >= 0 ==> q.onHandQty == p.onHandQty
    ensures p.minQty >= 0 ==> q.minQty == p.minQty
    ensures q.(onHandQty := p.onHandQty, minQty := p.minQty) == p
  {
    p.(onHandQty := Max(0, p.onHandQty), minQty := Max(0, p.minQty))
  }

  /** One row read back into a `PantryItem` (`SELECT *`). */
  function ToItem(r: Row<PantryCols>): PantryItem {
    PantryItem(Some(r.id), Some(r.cols.name), r.cols.category, r.cols.onHandQty, r.cols.unit,
               r.cols.expiry, r.cols.minQty, r.cols.updatedAt)
  }

  function Items(rows: seq<Row<PantryCols>>): (r: seq<PantryItem>)
    ensures |r| == |rows| && forall i :: 0 <= i < |rows| ==> r[i] == ToItem(rows[i])
  {
    seq(|rows|, i requires 0 <= i < |rows| => ToItem(rows[i]))
  }

  /** The `ORDER BY name` key; items read from the table always have a name. */
  function NameKey(p: PantryItem): string {
    if p.name.Some? then p.name.value else []
  }

  /** The `ORDER BY expiry` key for rows whose expiry is not NULL. */
  function ExpiryKey(p: PantryItem): string {
    if p.expiry.Some? then p.expiry.value else []
  }

  predicate IsLow(r: Row<PantryCols>) {
    r.cols.onHandQty <= r.cols.minQty
  }

  /** `expiry IS NOT NULL AND expiry <= limit` under SQLite's text order. */
  predicate ExpiresBy(r: Row<PantryCols>, limit: string) {
    r.cols.expiry.Some? && LexLe(r.cols.expiry.value, limit)
  }

  /** The items of the rows `keep` selects are the items of the selected rows. */
  lemma ItemsOfFilter(rows: seq<Row<PantryCols>>, keep: Row<PantryCols> -> bool)
    ensures forall k :: 0 <= k < |rows| && keep(rows[k]) ==> ToItem(rows[k]) in Items(Filter(rows, keep))
    ensures forall x :: x in Items(Filter(rows, keep)) ==>
              exists k :: 0 <= k < |rows| && keep(rows[k]) && ToItem(rows[k]) == x
  {
    var f := Filter(rows, keep);
    SelectedListed(rows, keep, f);
    ListedSelected(rows, keep, f);
  }

  /** Every selected row's item is listed. */
  lemma SelectedListed(rows: seq<Row<PantryCols>>, keep: Row<PantryCols> -> bool, f: seq<Row<PantryCols>>)
    requires f == Filter(rows, keep)
    ensures forall k :: 0 <= k < |rows| && keep(rows[k]) ==> ToItem(rows[k]) in Items(f)
  {
    var items := Items(f);
    forall k | 0 <= k < |rows| && keep(rows[k]) ensures ToItem(rows[k]) in items {
      assert rows[k] in f;
      var i :| 0 <= i < |f| && f[i] == rows[k];
      assert items[i] == ToItem(f[i]);
    }
  }

  /** Every listed item is a selected row's item. */
  lemma ListedSelected(rows: seq<Row<PantryCols>>, keep: Row<PantryCols> -> bool, f: seq<Row<PantryCols>>)
    requires f == Filter(rows, keep)
    ensures forall x :: x in Items(f) ==> exists k :: 0 <= k < |rows| && keep(rows[k]) && ToItem(rows[k]) == x
  {
    forall x | x in Items(f) ensures exists k :: 0 <= k < |rows| && keep(rows[k]) && ToItem(rows[k]) == x {
      var i :| 0 <= i < |f| && Items(f)[i] == x;
      var k :| 0 <= k < |rows| && rows[k] == f[i];
    }
  }

  class SqlitePantryService {
    var rows: seq<Row<PantryCols>>
    var nextId: int

    predicate Valid()
      reads this
    {
      ValidTable(rows, nextId)
    }

    /** A fresh database: `DBMigrator.migrate` has created an empty table. */
    constructor()
      ensures Valid() && rows == [] && nextId == 1
    {
      rows := [];
      nextId := 1;
    }

    /** `listAll`: every row, sorted by name. */
    function ListAll(): (r: seq<PantryItem>)
      reads this
      ensures SortedBy(r, NameKey)
      ensures multiset(r) == multiset(Items(rows))
      ensures forall k :: 0 <= k < |rows| ==> ToItem(rows[k]) in r
    {
      var r := SortBy(Items(rows), NameKey);
      assert forall k :: 0 <= k < |rows| ==> ToItem(rows[k]) in multiset(r) by {
        assert forall k :: 0 <= k < |rows| ==> Items(rows)[k] == ToItem(rows[k]);
      }
      r
    }

    /** `lowStock`: exactly the rows with `on_hand_qty <= min_qty`, sorted by name. */
    function LowStock(): (r: seq<PantryItem>)
      reads this
      ensures SortedBy(r, NameKey)
      ensures forall k :: 0 <= k < |rows| ==> (ToItem(rows[k]) in r <==> IsLow(rows[k]))
      ensures forall x :: x in r ==> x.onHandQty <= x.minQty
      ensures multiset(r) == multiset(Items(Filter(rows, IsLow)))
    {
      var r := SortBy(Items(Filter(rows, IsLow)), NameKey);
      ItemsOfFilter(rows, IsLow);
      assert forall x :: x in r <==> x in Items(Filter(rows, IsLow)) by {
        assert forall x :: x in r <==> x in multiset(r);
      }
      r
    }

    /** `expiringSoon(days)` with `limit` the text of today plus `days`: exactly the rows
        with an expiry no later than `limit` as text, sorted by expiry. */
    function ExpiringSoon(limit: string): (r: seq<PantryItem>)
      reads this
      ensures SortedBy(r, ExpiryKey)
      ensures forall k :: 0 <= k < |rows| ==> (ToItem(rows[k]) in r <==> ExpiresBy(rows[k], limit))
      ensures forall x :: x in r ==> x.expiry.Some? && LexLe(x.expiry.value, limit)
      ensures multiset(r) == multiset(Items(Filter(rows, row => ExpiresBy(row, limit))))
    {
      var keep := row => ExpiresBy(row, limit);
      var r := SortBy(Items(Filter(rows, keep)), ExpiryKey);
      ItemsOfFilter(rows, keep);
      assert forall x :: x in r <==> x in Items(Filter(rows, keep)) by {
        assert forall x :: x in r <==> x in multiset(r);
      }
      r
    }

    /** `add(p)`: a null item, a missing or blank name or a negative quantity is rejected
        with the table untouched; otherwise one row with a fresh id is appended and the
        caller's item comes back with only its id filled in. */
    method Add(p: Option<PantryItem>, now: string) returns (r: Result<PantryItem>)
      requires Valid()
      modifies this
      ensures Valid()
      ensures r.Err? <==> p.None? || NameMissing(p.value) || p.value.onHandQty < 0 || p.value.minQty < 0
      ensures r.Err? ==> r.error == IllegalArgument && rows == old(rows) && nextId == old(nextId)
      ensures r.Ok? ==> && r.value == p.value.(id := Some(old(nextId)))
                        && rows == old(rows) + [Row(old(nextId), Columns(p.value, now))]
                        && nextId == old(nextId) + 1
    {
      if p.None? || NameMissing(p.value) || p.value.onHandQty < 0 || p.value.minQty < 0 {
        return Err(IllegalArgument);
      }
      var item := p.value;
      AddKeepsValid(rows, nextId, item, now);
      rows := rows + [Row(nextId, Columns(item, now))];
      r := Ok(item.(id := Some(nextId)));
      nextId := nextId + 1;
    }

    /** `update(p)`: a null item, a null or non-positive id, or a missing or blank name is
        rejected; an id with no row fails with the table untouched; otherwise that row
        alone gets the new columns, quantities clamped at 0, and the caller's item comes
        back unchanged. */
    method Update(p: Option<PantryItem>, now: string) returns (r: Result<PantryItem>)
      requires Valid()
      modifies this
      ensures Valid() && nextId == old(nextId)
      ensures r.Err? ==> rows == old(rows) && (r.error == IllegalArgument || r.error == Runtime)
      ensures (p.None? || p.value.id.None? || p.value.id.value <= 0 || NameMissing(p.value))
              <==> r == Err(IllegalArgument)
      ensures r == Err(Runtime) <==>
              p.Some? && p.value.id.Some? && p.value.id.value > 0 && !NameMissing(p.value)
              && Lookup(old(rows), p.value.id.value).None?
      ensures r.Ok? ==> && r.value == p.value
                        && rows == Table.Update(old(rows), p.value.id.value, _ => Columns(Clamped(p.value), now))
    {
      if p.None? || p.value.id.None? || p.value.id.value <= 0 {
        return Err(IllegalArgument);
      }
      if NameMissing(p.value) {
        return Err(IllegalArgument);
      }
      var item := p.value;
      if Lookup(rows, item.id.value).None? {
        return Err(Runtime);
      }
      UpdateKeepsValid(rows, nextId, item, now);
      rows := Table.Update(rows, item.id.value, _ => Columns(Clamped(item), now));
      r := Ok(item);
    }

    /** `delete(id)`: removes the row with that id and reports whether there was one. */
    method Delete(id: Int32) returns (existed: bool)
      requires Valid()
      modifies this
      ensures Valid() && nextId == old(nextId)
      ensures existed <==> Lookup(old(rows), id).Some?
      ensures rows == Table.Delete(old(rows), id)
      ensures |rows| == if existed then |old(rows)| - 1 else |old(rows)|
    {
      existed := Lookup(rows, id).Some?;
      DeleteCount(rows, nextId, id);
      rows := Table.Delete(rows, id);
    }
  }

  /** An accepted `add` keeps every row normalised and the table well formed, and leaves
      every other id's row as it was. */
  lemma AddKeepsValid(rows: seq<Row<PantryCols>>, nextId: int, p: PantryItem, now: string)
    requires ValidTable(rows, nextId)
    requires !NameMissing(p) && p.onHandQty >= 0 && p.minQty >= 0
    ensures ValidTable(rows + [Row(nextId, Columns(p, now))], nextId + 1)
    ensures forall id :: id != nextId ==> Lookup(rows + [Row(nextId, Columns(p, now))], id) == Lookup(rows, id)
  {
    var rows' := rows + [Row(nextId, Columns(p, now))];
    forall id | id != nextId ensures Lookup(rows', id) == Lookup(rows, id) {
      LookupAfterInsert(rows, nextId, Columns(p, now), id);
    }
    LookupAfterInsert(rows, nextId, Columns(p, now), nextId);
  }

  /** An accepted `update` keeps every row normalised, whatever quantities it was given. */
  lemma UpdateKeepsValid(rows: seq<Row<PantryCols>>, nextId: int, p: PantryItem, now: string)
    requires ValidTable(rows, nextId) && !NameMissing(p) && p.id.Some?
    ensures ValidTable(Table.Update(rows, p.id.value, _ => Columns(Clamped(p), now)), nextId)
  {
    UpdateWellFormed(rows, nextId, p.id.value, _ => Columns(Clamped(p), now));
  }

  /** After `update` of an existing id, reading that id gives the clamped, normalised
      columns and every other id reads as before. */
  lemma UpdateReadsBack(rows: seq<Row<PantryCols>>, p: PantryItem, now: string, other: int)
    requires !NameMissing(p) && p.id.Some? && Lookup(rows, p.id.value).Some?
    ensures var rows' := Table.Update(rows, p.id.value, _ => Columns(Clamped(p), now));
      Lookup(rows', other) == if other == p.id.value then Some(Columns(Clamped(p), now)) else Lookup(rows, other)
  {
    LookupAfterUpdate(rows, p.id.value, _ => Columns(Clamped(p), now), other);
  }
}
