/**
 * The writer: it owns the private copy `wHandle`, the one operation that copy
 * is still missing (`lastOp`), and a snapshot of every reader's epoch taken
 * right after the last swap. Each write call brings the private copy up to
 * date, applies the new operation to it, and swaps it with the exposed copy,
 * so the exposed copy is always the private one with `lastOp` applied.
 */
module Writer {
  import opened Wrappers
  import opened Slots
  import opened Operations
  import opened Stores
  import opened Epochs
  import opened Reader

  class WriteHandle<V> {
    const epochs: Registry
    var wHandle: Inner<V>
    var lastOp: Option<Operation<V>>
    const rHandle: ReadHandle<V>
    var lastEpochs: seq<Word>
    /** The key the first application of `lastOp` produced. */
    ghost var lastKey: Option<Key>

    /** The copy readers currently see. */
    function Exposed(): Inner?<V>
      reads rHandle.inner
    {
      rHandle.inner.ptr
    }

    /**
     * The one-behind invariant: the two copies are distinct objects, and the
     * exposed copy is what applying `lastOp` to the private copy gives, with
     * the same key the first application returned; with no `lastOp` the two
     * hold equal data.
     */
    ghost predicate Valid()
      reads this, wHandle, rHandle.inner, rHandle.inner.ptr
    {
      var e := rHandle.inner.ptr;
      && e != null && e != wHandle
      && rHandle.epochs == epochs
      && Slots.Valid(wHandle.data) && Slots.Valid(e.data)
      && match lastOp
         case None => e.data == wHandle.data
         case Some(op) => !op.NoOp? && Apply(wHandle.data, op) == Done(e.data, lastKey)
    }

    /** `write::new`: the private copy given, nothing pending, no snapshot yet. */
    constructor (wHandle: Inner<V>, epochs: Registry, rHandle: ReadHandle<V>)
      requires rHandle.epochs == epochs && rHandle.inner.ptr != null && rHandle.inner.ptr != wHandle
      requires rHandle.inner.ptr.data == wHandle.data && Slots.Valid(wHandle.data)
      ensures this.wHandle == wHandle && this.epochs == epochs && this.rHandle == rHandle
      ensures lastOp == None && lastEpochs == []
      ensures Valid()
    {
      this.epochs := epochs;
      this.wHandle := wHandle;
      this.lastOp := None;
      this.rHandle := rHandle;
      this.lastEpochs := [];
      this.lastKey := None;
    }

    /**
     * Applies `op` to `target` in place and returns the key an `Add` produced;
     * a `Replace` of a key that is not live panics, which callers rule out.
     */
    static method RunOperationFirst(target: Inner<V>, op: Operation<V>) returns (r: Option<Key>)
      requires !Panics(target.data, op)
      modifies target
      ensures Apply(old(target.data), op) == Done(target.data, r)
      ensures target.ready == old(target.ready)
    {
      r := None;
      match op {
        case NoOp =>
        case Add(v) =>
          var (s, k) := Slots.Insert(target.data, v);
          target.data := s;
          r := Some(k);
        case Replace(k, v) =>
          var s := Overwrite(target.data, k, v);
          target.data := s.value;
        case Remove(k) =>
          target.data := Slots.Remove(target.data, k).0;
        case Clear =>
          target.data := Slots.Clear(target.data);
      }
    }

    /** Replays `op` on `target` in place, dropping the key an `Add` produces. */
    static method RunOperationSecond(target: Inner<V>, op: Operation<V>)
      requires !Panics(target.data, op)
      modifies target
      ensures Apply(old(target.data), op).Done? && target.data == Apply(old(target.data), op).store
      ensures target.ready == old(target.ready)
    {
      match op {
        case NoOp =>
        case Add(v) =>
          var (s, _) := Slots.Insert(target.data, v);
          target.data := s;
        case Replace(k, v) =>
          var s := Overwrite(target.data, k, v);
          target.data := s.value;
        case Remove(k) =>
          target.data := Slots.Remove(target.data, k).0;
        case Clear =>
          target.data := Slots.Clear(target.data);
      }
    }

    /**
     * The first half of a write call, run once every reader has left the
     * private copy: replay the pending operation so the private copy catches
     * up with the exposed one, then apply `op` to it, remember `op` as the new
     * pending operation and mark the copy ready. A `NoOp` only catches up.
     * The exposed copy is not touched.
     */
    method CatchUpAndApply(op: Operation<V>) returns (r: Option<Key>)
      requires Valid()
      requires !Panics(Exposed().data, op)
      modifies this`lastOp, this`lastKey, wHandle
      ensures Apply(old(Exposed().data), op) == Done(wHandle.data, r)
      ensures lastOp == if op.NoOp? then None else Some(op)
      ensures !op.NoOp? ==> lastKey == r
      ensures wHandle.ready == (!op.NoOp? || old(wHandle.ready))
    {
      ghost var before := Exposed().data;
      var w := wHandle;
      if lastOp.Some? {
        ghost var replay := Apply(w.data, lastOp.value);
        assert replay == Done(before, lastKey);
        RunOperationSecond(w, lastOp.value);
        // the key the replay discards is the one the first application returned
        assert replay.key == lastKey;
        lastOp := None;
      }
      assert w.data == before;
      if op.NoOp? {
        r := None;
      } else {
        r := RunOperationFirst(w, op);
        lastOp := Some(op);
        lastKey := r;
        w.MarkReady();
      }
    }

    /**
     * One write call. The private copy catches up and gets `op`; the two
     * copies are swapped and the reader epochs snapshotted. Readers entering
     * afterwards see the old exposed data with `op` applied, and the result
     * is the key an `Add` produced. The new private copy is exactly the old
     * exposed copy, so the one-behind invariant holds again with `op` pending.
     */
    method RefreshWithOperation(op: Operation<V>) returns (r: Option<Key>)
      requires Valid()
      requires !Panics(Exposed().data, op)
      modifies this, wHandle, rHandle.inner
      ensures Valid()
      ensures Exposed() == old(wHandle) && wHandle == old(Exposed())
      ensures wHandle.data == old(Exposed().data) && wHandle.ready == old(Exposed().ready)
      ensures Apply(old(Exposed().data), op) == Done(Exposed().data, r)
      ensures lastOp == if op.NoOp? then None else Some(op)
      ensures Exposed().ready == (!op.NoOp? || old(wHandle.ready))
      ensures lastEpochs == SnapshotOf(Resize(old(lastEpochs), |epochs.slots|), epochs.Values())
    {
      // the scan of `wait` first sizes the snapshot to the registry
      lastEpochs := Resize(lastEpochs, |epochs.slots|);
      r := CatchUpAndApply(op);
      // swap the copies
      var w := wHandle;
      var exposed := rHandle.inner.ptr;
      rHandle.inner.ptr := w;
      lastEpochs := SnapshotEpochs(lastEpochs, epochs.Values());
      wHandle := exposed;
    }

    /** Flushes the pending operation: afterwards the copies hold equal data and nothing is pending. */
    method Refresh()
      requires Valid()
      modifies this, wHandle, rHandle.inner
      ensures Valid()
      ensures lastOp.None? && Exposed().data == old(Exposed().data) && wHandle.data == Exposed().data
      ensures Exposed() == old(wHandle) && wHandle == old(Exposed())
      ensures Exposed().ready == old(wHandle.ready)
      ensures lastEpochs == SnapshotOf(Resize(old(lastEpochs), |epochs.slots|), epochs.Values())
    {
      var _ := RefreshWithOperation(NoOp);
    }

    /**
     * Stores `v` under a key that was not live and returns that key; the
     * value is visible to every read that starts after the call returns.
     * The key is never missing, so the source's "No key returned on insert"
     * cannot fire.
     */
    method Insert(v: V) returns (k: Key)
      requires Valid()
      modifies this, wHandle, rHandle.inner
      ensures Valid() && Exposed().ready
      ensures Exposed() == old(wHandle) && wHandle == old(Exposed())
      ensures k !in old(Exposed().data.entries)
      ensures Exposed().data.entries == old(Exposed().data.entries)[k := v]
      ensures lastOp == Some(Add(v)) && lastKey == Some(k)
      ensures lastEpochs == SnapshotOf(Resize(old(lastEpochs), |epochs.slots|), epochs.Values())
    {
      AddInsertsUnderFreshKey(Exposed().data, v);
      var r := RefreshWithOperation(Add(v));
      k := r.value;
    }

    /**
     * Overwrites the value of a live key; the set of live keys is unchanged.
     * The source panics with "Tried to replace empty key" when `k` is not live.
     */
    method Update(k: Key, v: V)
      requires Valid()
      requires k in Exposed().data.entries
      modifies this, wHandle, rHandle.inner
      ensures Valid() && Exposed().ready
      ensures Exposed() == old(wHandle) && wHandle == old(Exposed())
      ensures Exposed().data.entries == old(Exposed().data.entries)[k := v]
      ensures Exposed().data.entries.Keys == old(Exposed().data.entries.Keys)
      ensures lastOp == Some(Replace(k, v))
      ensures lastEpochs == SnapshotOf(Resize(old(lastEpochs), |epochs.slots|), epochs.Values())
    {
      ReplaceChangesOnlyItsKey(Exposed().data, k, v);
      var _ := RefreshWithOperation(Replace(k, v));
    }

    /** Removes `k` if it is live; a key that is absent or stale changes nothing. */
    method Remove(k: Key)
      requires Valid()
      modifies this, wHandle, rHandle.inner
      ensures Valid() && Exposed().ready
      ensures Exposed() == old(wHandle) && wHandle == old(Exposed())
      ensures Exposed().data.entries == old(Exposed().data.entries) - {k}
      ensures k !in old(Exposed().data.entries) ==> Exposed().data == old(Exposed().data)
      ensures lastOp == Some(Operation.Remove(k))
      ensures lastEpochs == SnapshotOf(Resize(old(lastEpochs), |epochs.slots|), epochs.Values())
    {
      RemoveOfAbsentKeyIsIgnored(Exposed().data, k);
      var _ := RefreshWithOperation(Operation.Remove(k));
    }

    /** Removes every key. */
    method Clear()
      requires Valid()
      modifies this, wHandle, rHandle.inner
      ensures Valid() && Exposed().ready
      ensures Exposed() == old(wHandle) && wHandle == old(Exposed())
      ensures Exposed().data.entries == map[]
      ensures lastOp == Some(Operation.Clear)
      ensures lastEpochs == SnapshotOf(Resize(old(lastEpochs), |epochs.slots|), epochs.Values())
    {
      var _ := RefreshWithOperation(Operation.Clear);
    }

    /**
     * One pass of `wait` over the registry as it stands, after sizing the
     * snapshot to the registry: the occupied slots are
     * enumerated in index order, and from position `start` on the pass stops at
     * the first reader that may still be on the swapped-out copy. A pass from
     * the beginning finds nobody exactly when every registered reader is clear.
     */
    method WaitPass(start: nat) returns (blocked: Option<nat>)
      modifies this`lastEpochs
      ensures lastEpochs == Resize(old(lastEpochs), |epochs.slots|)
      ensures var rs := Occupied(epochs.Values());
        && (blocked.None? ==> forall j :: start <= j < |rs| ==> ReaderClear(lastEpochs[rs[j].0], rs[j].1))
        && (blocked.Some? ==>
              && start <= blocked.value < |rs|
              && !ReaderClear(lastEpochs[rs[blocked.value].0], rs[blocked.value].1)
              && forall j :: start <= j < blocked.value ==> ReaderClear(lastEpochs[rs[j].0], rs[j].1))
      ensures start == 0 ==>
        (blocked.None? <==>
          forall ri :: 0 <= ri < |epochs.slots| && epochs.slots[ri].Some? ==>
            ReaderClear(lastEpochs[ri], epochs.slots[ri].value.value))
    {
      // `wait` first sizes the snapshot to the registry
      lastEpochs := Resize(lastEpochs, |epochs.slots|);
      var values := epochs.Values();
      var rs := Occupied(values);
      blocked := ScanPass(lastEpochs, rs, start);
      assert values == epochs.Values();
      if start == 0 && blocked.None? {
        ClearPassCoversEveryReader(lastEpochs, values, rs);
      } else if start == 0 {
        // the blocking reader sits in an occupied slot
        var (ri, now) := rs[blocked.value];
        assert values[ri] == Some(now) && !ReaderClear(lastEpochs[ri], now);
      }
    }

    /**
     * Dropping the writer: flush until nothing is pending (at most one
     * refresh), then take the map away from readers by storing `null`, clear
     * the private copy and release the copy readers last saw. At that point
     * the two copies hold the same data, which is what readers last saw.
     * Dropping the writer's own read handle then gives up its registry slot.
     */
    method Drop() returns (released: Inner<V>)
      requires Valid() && rHandle.Registered()
      modifies this, wHandle, rHandle.inner, rHandle.inner.ptr, epochs
      ensures rHandle.inner.ptr == null && lastOp.None?
      ensures released == if old(lastOp).Some? then old(wHandle) else old(Exposed())
      ensures wHandle == if old(lastOp).Some? then old(Exposed()) else old(wHandle)
      ensures wHandle != released
      ensures released.data == old(Exposed().data)
      ensures wHandle.data == Slots.Clear(released.data)
      ensures epochs.slots == old(epochs.slots)[rHandle.epochI := None]
    {
      ghost var refreshes := 0;
      while lastOp.Some?
        invariant Valid() && rHandle.Registered() && unchanged(epochs)
        invariant Exposed().data == old(Exposed().data)
        invariant refreshes == 0 ==> lastOp == old(lastOp) && wHandle == old(wHandle) && Exposed() == old(Exposed())
        invariant refreshes == 1 ==> old(lastOp).Some? && lastOp.None? && wHandle == old(Exposed()) && Exposed() == old(wHandle)
        invariant refreshes <= 1
        decreases if lastOp.Some? then 1 else 0
      {
        Refresh();
        refreshes := refreshes + 1;
      }
      assert wHandle.data == Exposed().data;
      released := rHandle.inner.ptr;
      rHandle.inner.ptr := null;
      // the spin of `wait` on the readers is not part of this model
      wHandle.data := Slots.Clear(wHandle.data);
      rHandle.Drop();
    }
  }
}
