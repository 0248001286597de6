/** `service.SqlitePriceBookService` over the `stores` and `price_entries` tables: stores
    are added by trimmed name and listed by name; prices are never overwritten, each
    `upsertPrice` appends a timestamped entry, and the latest price of an item at a store
    is the one with the greatest `updated_at`. */
module PriceBook {
  import opened Common
  import opened Text
  import opened Table
  import opened Sorting

  /** `model.Store`. */
  datatype Store = Store(id: int, name: string)

  /** The columns of `price_entries` after `id`. A null item name is stored as NULL, which
      no `item_name = ?` ever matches. */
  datatype PriceCols = PriceCols(storeId: Int32, itemName: Option<string>, priceCents: Int32, updatedAt: string)

  function ToStore(r: Row<string>): Store {
    Store(r.id, r.cols)
  }

  /** The `stores` rows read back, in row order. */
  function StoresOf(rows: seq<Row<string>>): (r: seq<Store>)
    ensures |r| == |rows| && forall k :: 0 <= k < |rows| ==> r[k] == ToStore(rows[k])
  {
    seq(|rows|, k requires 0 <= k < |rows| => ToStore(rows[k]))
  }

  function StoreName(s: Store): string {
    s.name
  }

  /** `store_id = ? AND item_name = ?`: SQL equality, under which NULL equals nothing. */
  predicate Matches(e: PriceCols, storeId: int, itemName: Option<string>) {
    e.storeId == storeId && itemName.Some? && e.itemName == itemName
  }

  /** `... ORDER BY updated_at DESC LIMIT 1`: a matching entry whose timestamp no other
      matching entry exceeds. SQLite leaves the choice among equal timestamps open; this
      one takes the latest inserted. */
  function Latest(entries: seq<Row<PriceCols>>, storeId: int, itemName: Option<string>): (r: Option<PriceCols>)
    ensures r.None? <==> forall k :: 0 <= k < |entries| ==> !Matches(entries[k].cols, storeId, itemName)
    ensures r.Some? ==> Matches(r.value, storeId, itemName)
                        && exists k :: 0 <= k < |entries| && entries[k].cols == r.value
    ensures r.Some? ==> forall k :: 0 <= k < |entries| && Matches(entries[k].cols, storeId, itemName) ==>
                          LexLe(entries[k].cols.updatedAt, r.value.updatedAt)
  {
    if entries == [] then None
    else
      var init := entries[..|entries| - 1];
      var last := entries[|entries| - 1].cols;
      var best := Latest(init, storeId, itemName);
      assert forall k :: 0 <= k < |init| ==> init[k] == entries[k];
      if !Matches(last, storeId, itemName) then best
      else if best.None? then
        LexLeReflexive(last.updatedAt);
        Some(last)
      else if LexLe(best.value.updatedAt, last.updatedAt) then
        LexLeReflexive(last.updatedAt);
        forall k | 0 <= k < |init| && Matches(init[k].cols, storeId, itemName)
          ensures LexLe(init[k].cols.updatedAt, last.updatedAt)
        {
          LexLeTransitive(init[k].cols.updatedAt, best.value.updatedAt, last.updatedAt);
        }
        Some(last)
      else
        LexLeTotal(best.value.updatedAt, last.updatedAt);
        best
  }

  class SqlitePriceBookService {
    var stores: seq<Row<string>>
    var nextStoreId: int
    var entries: seq<Row<PriceCols>>
    var nextEntryId: int

    predicate Valid()
      reads this
    {
      && WellFormed(stores, nextStoreId) && nextStoreId >= 1
      && WellFormed(entries, nextEntryId) && nextEntryId >= 1
    }

    constructor()
      ensures Valid() && stores == [] && entries == [] && nextStoreId == 1 && nextEntryId == 1
    {
      stores, entries := [], [];
      nextStoreId, nextEntryId := 1, 1;
    }

    /** `listStores`: every store, sorted by name. */
    function ListStores(): (r: seq<Store>)
      reads this
      ensures SortedBy(r, StoreName)
      ensures multiset(r) == multiset(StoresOf(stores))
      ensures |r| == |stores|
      ensures forall k :: 0 <= k < |stores| ==> ToStore(stores[k]) in r
      ensures forall x :: x in r ==> exists k :: 0 <= k < |stores| && x == ToStore(stores[k])
    {
      var all := StoresOf(stores);
      var r := SortBy(all, StoreName);
      assert forall x :: x in r <==> x in all by {
        assert forall x :: x in r <==> x in multiset(r);
      }
      assert forall k :: 0 <= k < |stores| ==> all[k] == ToStore(stores[k]);
      r
    }

    /** `addStore`: a null or blank name is rejected with nothing stored; otherwise the
        trimmed name is stored under a fresh id and returned with it. */
    method AddStore(name: Option<string>) returns (r: Result<Store>)
      requires Valid()
      modifies this
      ensures Valid() && entries == old(entries) && nextEntryId == old(nextEntryId)
      ensures r.Err? <==> name.None? || IsBlank(name.value)
      ensures r.Err? ==> r.error == IllegalArgument && stores == old(stores) && nextStoreId == old(nextStoreId)
      ensures r.Ok? ==> && r.value == Store(old(nextStoreId), Trim(name.value))
                        && stores == old(stores) + [Row(old(nextStoreId), Trim(name.value))]
                        && nextStoreId == old(nextStoreId) + 1
    {
      if name.None? || IsBlank(name.value) {
        return Err(IllegalArgument);
      }
      LookupAfterInsert(stores, nextStoreId, Trim(name.value), nextStoreId);
      stores := stores + [Row(nextStoreId, Trim(name.value))];
      r := Ok(Store(nextStoreId, Trim(name.value)));
      nextStoreId := nextStoreId + 1;
    }

    /** `findLatestPriceCents`: the price of the latest matching entry, if there is one. */
    function FindLatestPriceCents(storeId: Int32, itemName: Option<string>): (r: Option<Int32>)
      reads this
      ensures r.None? <==> forall k :: 0 <= k < |entries| ==> !Matches(entries[k].cols, storeId, itemName)
      ensures r.Some? ==> exists k :: (0 <= k < |entries| && Matches(entries[k].cols, storeId, itemName)
                          && entries[k].cols.priceCents == r.value
                          && forall j :: 0 <= j < |entries| && Matches(entries[j].cols, storeId, itemName) ==>
                               LexLe(entries[j].cols.updatedAt, entries[k].cols.updatedAt))
    {
      var e := Latest(entries, storeId, itemName);
      if e.None? then None else Some(e.value.priceCents)
    }

    /** `upsertPrice`: a negative price is rejected; otherwise one entry stamped `now` is
        appended and no existing entry changes. */
    method UpsertPrice(storeId: Int32, itemName: Option<string>, priceCents: Int32, now: string) returns (o: Outcome)
      requires Valid()
      modifies this
      ensures Valid() && stores == old(stores) && nextStoreId == old(nextStoreId)
      ensures o.Fail? <==> priceCents < 0
      ensures o.Fail? ==> o.error == IllegalArgument && entries == old(entries) && nextEntryId == old(nextEntryId)
      ensures o.Done? ==> && entries == old(entries) + [Row(old(nextEntryId), PriceCols(storeId, itemName, priceCents, now))]
                          && nextEntryId == old(nextEntryId) + 1
      ensures entries[..|old(entries)|] == old(entries)
    {
      if priceCents < 0 {
        return Fail(IllegalArgument);
      }
      LookupAfterInsert(entries, nextEntryId, PriceCols(storeId, itemName, priceCents, now), nextEntryId);
      entries := entries + [Row(nextEntryId, PriceCols(storeId, itemName, priceCents, now))];
      nextEntryId := nextEntryId + 1;
      o := Done;
    }
  }

  /** After an entry stamped later than every existing one, the latest price of its own
      (store, item) pair is the new price, and every other pair's latest entry is
      unchanged. */
  lemma LatestAfterUpsert(entries: seq<Row<PriceCols>>, id: int, e: PriceCols, storeId: int, itemName: Option<string>)
    requires forall k :: 0 <= k < |entries| ==> LexLt(entries[k].cols.updatedAt, e.updatedAt)
    ensures Matches(e, storeId, itemName) ==> Latest(entries + [Row(id, e)], storeId, itemName) == Some(e)
    ensures !Matches(e, storeId, itemName) ==> Latest(entries + [Row(id, e)], storeId, itemName) == Latest(entries, storeId, itemName)
  {
    var all := entries + [Row(id, e)];
    assert all[..|all| - 1] == entries;
    var best := Latest(entries, storeId, itemName);
    if best.Some? {
      var k :| 0 <= k < |entries| && entries[k].cols == best.value;
    }
  }

  /** Even when the new entry is not stamped later, an upsert can only make its own pair's
      latest price the new one or leave it. */
  lemma UpsertTouchesOnlyItsPair(entries: seq<Row<PriceCols>>, id: int, e: PriceCols, storeId: int, itemName: Option<string>)
    ensures var r := Latest(entries + [Row(id, e)], storeId, itemName);
      r == Latest(entries, storeId, itemName) || (r == Some(e) && Matches(e, storeId, itemName))
  {
    var all := entries + [Row(id, e)];
    assert all[..|all| - 1] == entries;
  }
}
