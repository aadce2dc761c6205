/**
 * One copy of the map: the slot-map data and the `ready` flag that tells
 * readers whether this copy may be read yet.
 */
module Stores {
  import opened Slots

  class Inner<V> {
    var data: SlotMap<V>
    var ready: bool

    /** A new copy: no data and not ready. The capacity is only an allocation hint. */
    constructor WithCapacity(capacity: nat)
      ensures data == Empty() && !ready
    {
      data := Empty();
      ready := false;
    }

    /** Marks this copy readable; the data is untouched. Marking twice is marking once. */
    method MarkReady()
      modifies this
      ensures ready && data == old(data)
    {
      ready := true;
    }

    function IsReady(): bool
      reads this
    {
      ready
    }

    /**
     * A second copy with the same (empty) data and the same flag. The source
     * asserts that the data is empty and panics otherwise.
     */
    method Clone() returns (c: Inner<V>)
      requires data.entries == map[]
      ensures fresh(c) && c.data == data && c.ready == ready
    {
      c := new Inner.WithCapacity(0);
      c.data := data;
      c.ready := ready;
    }
  }
}
