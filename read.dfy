/**
 * The reader side: the shared pointer to the exposed copy, a reader's handle
 * with its epoch counter and registry slot, and the queries built on
 * `Handle`.
 */
module Reader {
  import opened Wrappers
  import opened Slots
  import opened Stores
  import opened Epochs

  /** The pointer readers load to find the exposed copy; `null` once the writer is gone. */
  class Shared<V> {
    var ptr: Inner?<V>

    constructor (ptr: Inner?<V>)
      ensures this.ptr == ptr
    {
      this.ptr := ptr;
    }
  }

  /**
   * What a successful entry gives the reader: the exposed copy as it stands
   * for the whole read (the writer cannot change it while the guard lives)
   * and the reader's counter before the entry.
   */
  datatype ReadGuard<V> = ReadGuard(data: SlotMap<V>, ready: bool, epoch: Word)

  /** `read`: a guard only if the map is there and its copy is ready. */
  function ReadOf<V>(h: Option<ReadGuard<V>>): (r: Option<ReadGuard<V>>)
    ensures r.Some? <==> h.Some? && h.value.ready
    ensures r.Some? ==> r == h
  {
    match h
    case None => None
    case Some(g) => if !g.ready then None else Some(g)
  }

  /** `get_raw` and `get`: the value of `key` in a readable copy, else `None`. */
  function GetOf<V>(h: Option<ReadGuard<V>>, key: Key): (r: Option<V>)
    ensures r.Some? <==> ReadOf(h).Some? && key in h.value.data.entries
    ensures r.Some? ==> r.value == h.value.data.entries[key]
  {
    match ReadOf(h)
    case None => None
    case Some(g) => Get(g.data, key)
  }

  /** `len`: the number of live keys of a readable copy, 0 without one. */
  function LenOf<V>(h: Option<ReadGuard<V>>): (n: nat)
    ensures ReadOf(h).None? ==> n == 0
    ensures ReadOf(h).Some? ==> n == |h.value.data.entries|
  {
    match ReadOf(h)
    case None => 0
    case Some(g) => Len(g.data)
  }

  /** `is_empty`: true without a readable copy. */
  function IsEmptyOf<V>(h: Option<ReadGuard<V>>): (b: bool)
    ensures b <==> LenOf(h) == 0
  {
    match ReadOf(h)
    case None => true
    case Some(g) => g.data.entries == map[]
  }

  /** `contains_key`: false without a readable copy. */
  function ContainsKeyOf<V>(h: Option<ReadGuard<V>>, key: Key): (b: bool)
    ensures b <==> GetOf(h, key).Some?
  {
    match ReadOf(h)
    case None => false
    case Some(g) => ContainsKey(g.data, key)
  }

  /** With no readable map every query gives its empty answer. */
  lemma NoReadableMapAnswers<V>(h: Option<ReadGuard<V>>, key: Key)
    requires h.None? || !h.value.ready
    ensures LenOf(h) == 0 && IsEmptyOf(h) && !ContainsKeyOf(h, key) && GetOf(h, key).None?
  {
  }

  /** A key that can be looked up makes the map non-empty. */
  lemma FoundKeyMeansNonEmpty<V>(h: Option<ReadGuard<V>>, key: Key)
    requires GetOf(h, key).Some?
    ensures LenOf(h) > 0 && !IsEmptyOf(h) && ContainsKeyOf(h, key)
  {
    assert key in h.value.data.entries;
  }

  /** The cell value `Handle` leaves behind, given the counter before the entry. */
  function MarkAfterHandle(counter: Word, destroyed: bool): (w: Word)
    ensures destroyed ==> w & HighBit != 0
    ensures !destroyed && counter < HighBit - 1 ==> !ReaderClear(w, w)
  {
    if destroyed then AbsentMark(counter) else EnterMark(counter)
  }

  /**
   * A reader whose word the writer snapshotted inside a read holds the writer
   * up no longer once it enters again, whatever that next entry finds.
   */
  lemma ReentryClearsWriter(counter: Word, destroyed: bool)
    ensures ReaderClear(MarkAfterHandle(counter, false), MarkAfterHandle(counter + 1, destroyed))
  {
  }

  class ReadHandle<V> {
    const inner: Shared<V>
    const epochs: Registry
    const epoch: EpochCell
    const epochI: nat
    var myEpoch: Word

    /** This handle's cell sits in its own registry slot. */
    ghost predicate Registered()
      reads epochs
    {
      epochI < |epochs.slots| && epochs.slots[epochI] == Some(epoch)
    }

    /** What `Handle` would return now. */
    function Current(): Option<ReadGuard<V>>
      reads this, inner, inner.ptr
    {
      if inner.ptr == null then None
      else Some(ReadGuard(inner.ptr.data, inner.ptr.ready, myEpoch))
    }

    /**
     * A new handle: one fresh cell holding 0 goes into a vacant registry slot,
     * whose index the handle remembers; nothing else in the registry changes.
     */
    constructor (inner: Shared<V>, epochs: Registry)
      modifies epochs
      ensures this.inner == inner && this.epochs == epochs
      ensures fresh(epoch) && epoch.value == 0 && myEpoch == 0
      ensures FreshSlot(old(epochs.slots), epochI) && Registered()
      ensures |epochs.slots| == if epochI < |old(epochs.slots)| then |old(epochs.slots)| else |old(epochs.slots)| + 1
      ensures forall j :: 0 <= j < |old(epochs.slots)| && j != epochI ==> epochs.slots[j] == old(epochs.slots)[j]
    {
      var cell := new EpochCell(0);
      var i := epochs.Insert(cell);
      this.inner := inner;
      this.epochs := epochs;
      this.epoch := cell;
      this.epochI := i;
      this.myEpoch := 0;
    }

    /** A new handle on the same map and the same registry, with its own cell. */
    method Clone() returns (h: ReadHandle<V>)
      modifies epochs
      ensures fresh(h) && fresh(h.epoch)
      ensures h.inner == inner && h.epochs == epochs && h.epoch.value == 0 && h.myEpoch == 0
      ensures FreshSlot(old(epochs.slots), h.epochI) && h.Registered()
      ensures |epochs.slots| == if h.epochI < |old(epochs.slots)| then |old(epochs.slots)| else |old(epochs.slots)| + 1
      ensures forall j :: 0 <= j < |old(epochs.slots)| && j != h.epochI ==> epochs.slots[j] == old(epochs.slots)[j]
    {
      h := new ReadHandle(inner, epochs);
    }

    /** Dropping a handle empties exactly its own slot, which holds its own cell. */
    method Drop()
      requires Registered()
      modifies epochs
      ensures epochs.slots == old(epochs.slots)[epochI := None]
    {
      var e := epochs.Remove(epochI);
      assert e == epoch;
    }

    /**
     * Entering a read: the counter goes up by one and the cell gets the new
     * counter before the pointer is loaded. If the map is gone the cell gets
     * the top bit as well and there is no guard. The map data is not touched.
     */
    method Handle() returns (g: Option<ReadGuard<V>>)
      modifies this, epoch
      ensures myEpoch == old(myEpoch) + 1
      ensures epoch.value == MarkAfterHandle(old(myEpoch), old(inner.ptr) == null)
      ensures g == old(Current())
      ensures g.Some? ==> g.value.epoch == old(myEpoch)
      ensures inner.ptr == old(inner.ptr)
    {
      var e := myEpoch;
      myEpoch := myEpoch + 1;
      epoch.value := EnterMark(e);
      var r := inner.ptr;
      if r != null {
        g := Some(ReadGuard(r.data, r.ready, e));
      } else {
        epoch.value := AbsentMark(e);
        g := None;
      }
    }

    method Read() returns (g: Option<ReadGuard<V>>)
      modifies this, epoch
      ensures myEpoch == old(myEpoch) + 1
      ensures epoch.value == MarkAfterHandle(old(myEpoch), old(inner.ptr) == null)
      ensures g == ReadOf(old(Current()))
    {
      var h := Handle();
      if h.None? || !h.value.ready {
        return None;
      }
      g := h;
    }

    method Len() returns (n: nat)
      modifies this, epoch
      ensures myEpoch == old(myEpoch) + 1
      ensures epoch.value == MarkAfterHandle(old(myEpoch), old(inner.ptr) == null)
      ensures n == LenOf(old(Current()))
    {
      var g := Read();
      n := if g.Some? then Slots.Len(g.value.data) else 0;
    }

    method IsEmpty() returns (b: bool)
      modifies this, epoch
      ensures myEpoch == old(myEpoch) + 1
      ensures epoch.value == MarkAfterHandle(old(myEpoch), old(inner.ptr) == null)
      ensures b == IsEmptyOf(old(Current()))
    {
      var g := Read();
      b := if g.Some? then g.value.data.entries == map[] else true;
    }

    method GetRaw(key: Key) returns (v: Option<V>)
      modifies this, epoch
      ensures myEpoch == old(myEpoch) + 1
      ensures epoch.value == MarkAfterHandle(old(myEpoch), old(inner.ptr) == null)
      ensures v == GetOf(old(Current()), key)
    {
      var h := Handle();
      if h.None? || !h.value.ready {
        return None;
      }
      v := Slots.Get(h.value.data, key);
    }

    method Get(key: Key) returns (v: Option<V>)
      modifies this, epoch
      ensures myEpoch == old(myEpoch) + 1
      ensures epoch.value == MarkAfterHandle(old(myEpoch), old(inner.ptr) == null)
      ensures v == GetOf(old(Current()), key)
    {
      v := GetRaw(key);
    }

    method IsDestroyed() returns (d: bool)
      modifies this, epoch
      ensures myEpoch == old(myEpoch) + 1
      ensures epoch.value == MarkAfterHandle(old(myEpoch), old(inner.ptr) == null)
      ensures d <==> old(inner.ptr) == null
    {
      var h := Handle();
      d := h.None?;
    }

    method ContainsKey(key: Key) returns (b: bool)
      modifies this, epoch
      ensures myEpoch == old(myEpoch) + 1
      ensures epoch.value == MarkAfterHandle(old(myEpoch), old(inner.ptr) == null)
      ensures b == ContainsKeyOf(old(Current()), key)
    {
      var g := Read();
      b := if g.Some? then Slots.ContainsKey(g.value.data, key) else false;
    }
  }
}
