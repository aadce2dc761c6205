/**
 * Building an empty map: one registry shared by all handles, the exposed copy
 * empty and not ready, the writer's copy a clone of it marked ready, a reader
 * on the exposed copy, and the writer with a reader handle of its own.
 */
module EvSlotmap {
  import opened Wrappers
  import opened Slots
  import opened Operations
  import opened Stores
  import opened Epochs
  import opened Reader
  import opened Writer

  method New<V>() returns (r: ReadHandle<V>, w: WriteHandle<V>)
    ensures fresh(r) && fresh(w) && fresh(w.epochs) && fresh(w.wHandle) && fresh(w.rHandle)
    ensures fresh(r.epoch) && fresh(w.rHandle.epoch) && r.epoch != w.rHandle.epoch
    ensures fresh(r.inner) && fresh(w.Exposed())
    ensures w.Valid() && w.lastOp.None? && w.lastEpochs == []
    ensures r.inner == w.rHandle.inner && r.epochs == w.epochs
    ensures w.Exposed().data == Empty() && !w.Exposed().ready
    ensures w.wHandle.data == Empty() && w.wHandle.ready
    ensures r.Registered() && w.rHandle.Registered() && r.epochI != w.rHandle.epochI
    ensures w.epochs.slots == [Some(r.epoch), Some(w.rHandle.epoch)]
    ensures r.epoch.value == 0 && w.rHandle.epoch.value == 0 && r.myEpoch == 0
    ensures r.Current().Some? && ReadOf(r.Current()).None?
  {
    var epochs := new Registry();
    var inner := new Inner.WithCapacity(0);
    var wInner := inner.Clone();
    wInner.MarkReady();
    var shared := new Shared(inner);
    r := new ReadHandle(shared, epochs);
    var rw := r.Clone();
    w := new WriteHandle(wInner, epochs, rw);
  }

  /**
   * Client runs: lookups before the first write see nothing, and every write
   * is visible to the lookups that start after it returns.
   */
  method InsertThenUpdate(x: int, y: int, missing: Key) {
    var r, w := New<int>();
    var g := r.Get(missing);
    assert g.None?;
    var key := w.Insert(x);
    g := r.Get(key);
    assert g == Some(x);
    w.Update(key, y);
    g := r.Get(key);
    assert g == Some(y);
  }

  method RemoveThenAbsent(x: int, z: int) {
    var r, w := New<int>();
    var key := w.Insert(x);
    var key2 := w.Insert(z);
    w.Remove(key);
    var c := r.ContainsKey(key);
    assert !c;
    var g := r.Get(key2);
    assert g == Some(z);
  }

  method ClearThenAllAbsent(x: int) {
    var r, w := New<int>();
    var key := w.Insert(x);
    w.Clear();
    var g := r.Get(key);
    assert g.None?;
    var n := r.Len();
    assert n == 0;
  }

  /** Snapshots taken before any read leave the writer's scan nobody to wait for. */
  method ScanBeforeReadsFindsNobody(x: int) {
    var r, w := New<int>();
    var key := w.Insert(x);
    assert w.epochs.Values()[0] == Some(0) && w.epochs.Values()[1] == Some(0);
    assert forall ri :: 0 <= ri < |w.lastEpochs| ==> w.lastEpochs[ri] == 0;
    var blocked := w.WaitPass(0);
    assert forall ri :: 0 <= ri < |w.lastEpochs| ==> w.lastEpochs[ri] == 0;
    assert blocked.None?;
  }

  /**
   * A reader still holding the guard of a read it entered before a write
   * holds up the writer's next scan.
   */
  method GuardHolderHoldsWriter(x: int, y: int) {
    var r, w := New<int>();
    var key := w.Insert(x);
    var g := r.Read();
    assert g.Some? && r.epoch.value == 1;
    var key2 := w.Insert(y);
    assert w.epochs.Values()[0] == Some(1) && w.lastEpochs[0] == 1;
    var blocked := w.WaitPass(0);
    assert !ReaderClear(w.lastEpochs[0], w.epochs.slots[0].value.value);
    assert blocked.Some?;
  }

  /** Once the writer is dropped, readers find the map gone. */
  method ReadAfterDrop(x: int) {
    var r, w := New<int>();
    var key := w.Insert(x);
    var g := r.Get(key);
    assert g == Some(x);
    var released := w.Drop();
    assert r.Registered();
    g := r.Get(key);
    assert g.None?;
    var d := r.IsDestroyed();
    assert d;
  }
}
