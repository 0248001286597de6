/** `service.InMemoryInventoryService`: a list of item objects and an id counter that
    starts at 1000. `add` appends a new object, `update` finds the first object with the
    id and calls its setters, `delete` removes every object with the id. */
module MemoryInventory {
  import opened Common
  import opened Inventory

  /** `update` on states: the first item with the id gets the new name, quantity and
      expiry; the rest are left alone. */
  function UpdateFirst(vs: seq<ItemValue>, id: int, name: Option<string>, quantity: Int32, expiry: Option<Date>): (r: seq<ItemValue>)
    ensures |r| == |vs|
    ensures forall i :: 0 <= i < |vs| ==> r[i].id == vs[i].id
  {
    if vs == [] then []
    else if vs[0].id == id then [vs[0].(name := name, quantity := quantity, expiry := expiry)] + vs[1..]
    else [vs[0]] + UpdateFirst(vs[1..], id, name, quantity, expiry)
  }

  /** The first item with the id, at index `i`, is the one `UpdateFirst` changes. */
  lemma {:induction false} UpdateFirstAt(vs: seq<ItemValue>, i: nat, id: int, name: Option<string>, quantity: Int32, expiry: Option<Date>)
    requires i < |vs| && vs[i].id == id
    requires forall k :: 0 <= k < i ==> vs[k].id != id
    ensures UpdateFirst(vs, id, name, quantity, expiry) == vs[i := ItemValue(id, name, quantity, expiry)]
  {
    if i > 0 {
      UpdateFirstAt(vs[1..], i - 1, id, name, quantity, expiry);
      assert vs == [vs[0]] + vs[1..];
    }
  }

  /** An id no item has changes nothing. */
  lemma {:induction false} UpdateFirstAbsent(vs: seq<ItemValue>, id: int, name: Option<string>, quantity: Int32, expiry: Option<Date>)
    requires forall k :: 0 <= k < |vs| ==> vs[k].id != id
    ensures UpdateFirst(vs, id, name, quantity, expiry) == vs
  {
    if vs != [] {
      UpdateFirstAbsent(vs[1..], id, name, quantity, expiry);
      assert vs == [vs[0]] + vs[1..];
    }
  }

  /** With distinct ids, the item `UpdateFirst` changes is the only one with that id, so
      every item with that id ends up with the new state. */
  lemma UpdateFirstDistinct(vs: seq<ItemValue>, id: int, name: Option<string>, quantity: Int32, expiry: Option<Date>)
    requires forall i, j :: 0 <= i < j < |vs| ==> vs[i].id != vs[j].id
    ensures var r := UpdateFirst(vs, id, name, quantity, expiry);
      forall i :: 0 <= i < |vs| ==> r[i] == if vs[i].id == id then ItemValue(id, name, quantity, expiry) else vs[i]
  {
    if i :| 0 <= i < |vs| && vs[i].id == id {
      UpdateFirstAt(vs, i, id, name, quantity, expiry);
    } else {
      UpdateFirstAbsent(vs, id, name, quantity, expiry);
    }
  }

  /** `data.removeIf(it -> it.getId() == id)`. */
  function RemoveId(items: seq<InventoryItem>, id: int): (r: seq<InventoryItem>)
    ensures |r| <= |items|
    ensures forall i :: 0 <= i < |r| ==> r[i].id != id && r[i] in items
    ensures forall i :: 0 <= i < |items| && items[i].id != id ==> items[i] in r
  {
    if items == [] then []
    else (if items[0].id == id then [] else [items[0]]) + RemoveId(items[1..], id)
  }

  /** `removeIf` keeps the order of what it keeps: it distributes over concatenation. */
  lemma {:induction false} RemoveIdAppend(a: seq<InventoryItem>, b: seq<InventoryItem>, id: int)
    ensures RemoveId(a + b, id) == RemoveId(a, id) + RemoveId(b, id)
  {
    if a != [] {
      var h := if a[0].id == id then [] else [a[0]];
      assert (a + b)[0] == a[0];
      assert (a + b)[1..] == a[1..] + b;
      RemoveIdAppend(a[1..], b, id);
      assert RemoveId(a + b, id) == h + RemoveId(a[1..] + b, id);
      assert RemoveId(a, id) == h + RemoveId(a[1..], id);
    } else {
      assert a + b == b;
    }
  }

  /** An id no item has removes nothing. */
  lemma {:induction false} RemoveIdAbsent(items: seq<InventoryItem>, id: int)
    requires forall k :: 0 <= k < |items| ==> items[k].id != id
    ensures RemoveId(items, id) == items
  {
    if items != [] {
      RemoveIdAbsent(items[1..], id);
      assert items == [items[0]] + items[1..];
    }
  }

  /** Ids pairwise distinct and all below the counter, which is at least 1000. */
  predicate IdsFresh(items: seq<InventoryItem>, counter: int) {
    && counter >= 1000
    && (forall i :: 0 <= i < |items| ==> items[i].id < counter)
    && (forall i, j :: 0 <= i < j < |items| ==> items[i].id != items[j].id)
  }

  /** `removeIf` keeps the ids distinct and below the counter. */
  lemma {:induction false} RemoveIdKeepsFresh(items: seq<InventoryItem>, counter: int, id: int)
    requires IdsFresh(items, counter)
    ensures IdsFresh(RemoveId(items, id), counter)
  {
    if items != [] {
      RemoveIdKeepsFresh(items[1..], counter, id);
      var rest := RemoveId(items[1..], id);
      forall k | 0 <= k < |rest| ensures rest[k].id != items[0].id {
        var j :| 0 <= j < |items[1..]| && items[1..][j] == rest[k];
      }
    }
  }

  class InMemoryInventoryService {
    var data: seq<InventoryItem>
    var counter: int

    predicate Valid()
      reads this
    {
      IdsFresh(data, counter)
    }

    function Values(): seq<ItemValue>
      reads this, data
    {
      ValuesOf(data)
    }

    /** The private constructor: Milk, Bread and Eggs with ids 1000 to 1002, expiring 5,
        2 and 14 days from `today`; the counter is left at 1003. */
    constructor(today: Date)
      ensures Valid() && counter == 1003
      ensures Values() == [ItemValue(1000, Some("Milk"), 2, Some(today + 5)),
                           ItemValue(1001, Some("Bread"), 1, Some(today + 2)),
                           ItemValue(1002, Some("Eggs"), 12, Some(today + 14))]
    {
      var milk := new InventoryItem(1000, Some("Milk"), 2, Some(today + 5));
      var bread := new InventoryItem(1001, Some("Bread"), 1, Some(today + 2));
      var eggs := new InventoryItem(1002, Some("Eggs"), 12, Some(today + 14));
      data := [milk, bread, eggs];
      counter := 1003;
    }

    /** `listAll`: the items in list order. The result is a value, so changing it leaves
        `data` as it is; the items themselves are shared, as in the source. */
    function ListAll(): (r: seq<InventoryItem>)
      reads this
      ensures |r| == |data| && forall i :: 0 <= i < |r| ==> r[i] == data[i]
    {
      data
    }

    /** `add`: a new item with the counter's value as id goes at the end; the counter goes
        up by one. Nothing is validated. */
    method Add(name: Option<string>, quantity: Int32, expiry: Option<Date>)
      requires Valid() && counter <= MaxInt32
      modifies this
      ensures Valid() && counter == old(counter) + 1
      ensures |data| == |old(data)| + 1 && data[..|old(data)|] == old(data) && fresh(data[|data| - 1])
      ensures Values() == old(Values()) + [ItemValue(old(counter), name, quantity, expiry)]
    {
      var item := new InventoryItem(counter, name, quantity, expiry);
      data := data + [item];
      counter := counter + 1;
      assert data[..|data| - 1] == old(data);
    }

    /** `update`: the first item with the id gets the new name, quantity and expiry; an
        unknown id changes nothing. */
    method Update(id: int, name: Option<string>, quantity: Int32, expiry: Option<Date>)
      requires Valid()
      modifies data
      ensures Valid() && data == old(data) && counter == old(counter)
      ensures Values() == UpdateFirst(old(Values()), id, name, quantity, expiry)
    {
      var i := 0;
      while i < |data|
        invariant 0 <= i <= |data|
        invariant forall k :: 0 <= k < i ==> data[k].id != id
        invariant Values() == old(Values())
      {
        var it := data[i];
        if it.id == id {
          it.name := name;
          it.quantity := quantity;
          it.expiry := expiry;
          forall k | 0 <= k < |data| && k != i ensures data[k].Value() == old(data[k].Value()) {
            assert data[k].id != data[i].id;
          }
          assert Values() == old(Values())[i := ItemValue(id, name, quantity, expiry)];
          UpdateFirstAt(old(Values()), i, id, name, quantity, expiry);
          return;
        }
        i := i + 1;
      }
      UpdateFirstAbsent(old(Values()), id, name, quantity, expiry);
    }

    /** `delete`: every item with the id is removed, the others keep their order. */
    method Delete(id: int)
      requires Valid()
      modifies this
      ensures Valid() && counter == old(counter)
      ensures data == RemoveId(old(data), id)
    {
      RemoveIdKeepsFresh(data, counter, id);
      data := RemoveId(data, id);
    }
  }
}
