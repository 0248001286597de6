/** `model.InventoryItem`, shared by both inventory services: an object with a fixed id and
    a name, quantity and expiry date that setters change in place. */
module Inventory {
  import opened Common

  /** A `LocalDate`, as its day number; `plusDays(n)` is `+ n`. */
  type Date = int

  /** The state of one item at one moment. */
  datatype ItemValue = ItemValue(id: Int32, name: Option<string>, quantity: Int32, expiry: Option<Date>)

  class InventoryItem {
    const id: Int32
    var name: Option<string>
    var quantity: Int32
    var expiry: Option<Date>

    constructor(id: Int32, name: Option<string>, quantity: Int32, expiry: Option<Date>)
      ensures Value() == ItemValue(id, name, quantity, expiry)
    {
      this.id := id;
      this.name := name;
      this.quantity := quantity;
      this.expiry := expiry;
    }

    function Value(): ItemValue
      reads this
    {
      ItemValue(id, name, quantity, expiry)
    }
  }

  /** The states of a list of items, in list order. */
  function ValuesOf(items: seq<InventoryItem>): (vs: seq<ItemValue>)
    reads items
    ensures |vs| == |items|
    ensures forall i :: 0 <= i < |items| ==> vs[i] == items[i].Value()
  {
    if items == [] then [] else ValuesOf(items[..|items| - 1]) + [items[|items| - 1].Value()]
  }
}
