# ev_slotmap: the two-copy write path, modelled in Dafny

ev_slotmap is a concurrent slot map in which readers never lock. The writer
keeps two copies of the map. Readers look things up in the *exposed* copy,
which they reach through a shared pointer. The writer changes only its
*private* copy. Every write call then swaps the two copies before it returns.
Each reader publishes an *epoch* word in a shared registry. Before touching
the copy readers just left, the writer checks every reader's epoch against a
snapshot it took right after the previous swap.

This model takes the threads out and keeps the sequential state machine:

- `Slots`: the slot map, an external crate, kept abstract. A `SlotMap` is a
  finite map from key to value plus `issued`, the number of keys handed out so
  far. `Insert` is deterministic and never hands out a key twice.
- `Operations`: the pending `Operation` (five variants) and `Apply`. `Apply`
  specifies what `run_operation_first` and `run_operation_second` do to one
  copy. A `Replace` of a key that is not live produces the value
  `Panic("Tried to replace empty key")`.
- `Stores`: `Inner`, one copy of the map. It is a class holding the data and
  the `ready` flag.
- `Epochs`: the epoch word (`bv64`, with the top bit as a flag) and the writer's
  per-reader test `ReaderClear`. Also one pass of the writer's scan, the
  snapshot it takes after a swap, and the registry (a slab of epoch cells).
- `Reader`: the shared pointer, the reader handle with its epoch counter, and
  the queries. The queries are pure functions over what `Handle` returns.
- `Writer`: the write handle, whose invariant `Valid()` is the one-behind
  invariant. The exposed copy is the private copy with `lastOp` applied, and an
  `Add` gets the same key from both applications.
- `EvSlotmap`: construction of an empty map, plus client runs that follow the
  repository's tests (`InsertThenUpdate`, `RemoveThenAbsent`,
  `ClearThenAllAbsent`, `ReadAfterDrop`), and two runs of the writer's scan
  (`ScanBeforeReadsFindsNobody`, `GuardHolderHoldsWriter`). The client runs use only the
  contracts of the other members.

A Rust panic becomes a precondition on the imperative methods. This applies
to `update` of a key that is not live, `clone` of a non-empty `Inner`, and
removal of a vacant registry slot. In the pure `Apply`, the panic is the
explicit `Panic` outcome. `Stores.Inner.IsReady` just returns the flag, so it
has no contract and no row.

## Model

| member | source | states |
|---|---|---|
| Operations.Apply | src/write.rs:165-218 | panics exactly for a `Replace` of a key that is not live, with "Tried to replace empty key"; otherwise yields a key exactly for `Add`; keeps every live key below the allocator mark |
| Operations.AddInsertsUnderFreshKey | src/write.rs:173-177 | `Add(v)` stores `v` under a key that was not live and returns that key |
| Operations.ReplaceChangesOnlyItsKey | src/write.rs:178-185 | `Replace` of a live key changes only that key's value and keeps the key set; of a key that is not live it panics |
| Operations.RemoveOfAbsentKeyIsIgnored | src/write.rs:186-188 | `Remove` of an absent or stale key leaves the store unchanged; of a live key it removes exactly that key |
| Operations.RemoveTwiceIsRemoveOnce | src/write.rs:211-213 | a second `Remove` of the same key changes nothing |
| Operations.ClearEmptiesNoOpKeeps | src/write.rs:171-191 | `Clear` leaves no live key; `NoOp` leaves the store unchanged |
| Stores.Inner.WithCapacity | src/inner.rs:63-69 | a new copy has empty data and is not ready |
| Stores.Inner.MarkReady | src/inner.rs:77-79 | sets `ready` and leaves the data unchanged, so a second call changes nothing |
| Stores.Inner.Clone | src/inner.rs:47-53 | needs empty data; the copy is fresh with equal data and an equal flag |
| Epochs.EnterMark | src/read/mod.rs:165-166 | the word a reader stores on entry is non-zero and has the top bit clear while the counter is below 2^63 - 1, so the writer sees the reader as inside a read |
| Epochs.AbsentMark | src/read/mod.rs:184-190 | the word stored when the map is gone has the top bit set |
| Epochs.ReaderClear | src/write.rs:133-143 | a reader whose snapshot is 0 or has the top bit set never holds the writer up; any other reader holds it up exactly until its word differs from the snapshot |
| Epochs.EnteredOrAbsentReadersAreClear | src/write.rs:133-145 | a reader whose word is 0 (never entered) or the absent mark (found the map gone) is clear whatever the snapshot |
| Epochs.EnterMarkAtTopBitLooksClear | src/read/mod.rs:165-166 | the entry mark of the counter 2^63 - 1 has the top bit set, so a reader inside that read passes the writer's test |
| Epochs.Resize | src/write.rs:125 | the snapshot vector is truncated or zero-padded to the registry size, keeping the entries below it |
| Epochs.Occupied | src/write.rs:128 | the registry enumeration lists exactly the occupied slots, in increasing index order, with their values |
| Epochs.ScanPass | src/write.rs:126-161 | one pass from `start`: `None` only if every reader from `start` on is clear; otherwise the first blocking position, which is at least `start`, so the retry never goes back |
| Epochs.ClearPassCoversEveryReader | src/write.rs:128-161 | a pass over the whole enumeration that finds every reader clear has checked every occupied slot of the registry |
| Epochs.SnapshotOf | src/write.rs:285-287 | after a swap every occupied slot's current word is recorded at its index; other entries keep their values |
| Epochs.SnapshotEpochs | src/write.rs:285-287 | the snapshot loop computes exactly `SnapshotOf` |
| Epochs.VacantSlot | src/read/mod.rs:106 | an index the slab may hand out exists: a vacant slot, or one past the end when every slot is taken |
| Epochs.Registry.Values | src/write.rs:285-286 | the writer's view of the registry has one entry per slot, present exactly where a cell is, holding that cell's current word |
| Epochs.Registry.Insert | src/read/mod.rs:104-106 | puts the cell into a vacant slot, or appends it when none is vacant (which vacant slot is left open); no other slot changes |
| Epochs.Registry.Remove | src/read/mod.rs:57 | empties exactly slot `i` and returns the cell it held |
| Reader.ReadOf | src/read/mod.rs:203-213 | there is a readable guard exactly when the map is there and its copy is ready |
| Reader.GetOf | src/read/mod.rs:226-248 | a value is found exactly when the copy is readable and the key is live, and it is that key's value |
| Reader.LenOf | src/read/mod.rs:216-218 | the number of live keys of a readable copy, else 0 |
| Reader.IsEmptyOf | src/read/mod.rs:221-223 | true exactly when `LenOf` is 0, and so also when there is no readable copy |
| Reader.ContainsKeyOf | src/read/mod.rs:261-263 | true exactly when `GetOf` finds the key |
| Reader.NoReadableMapAnswers | src/read/mod.rs:203-263 | with the map gone or not ready: length 0, empty, no key contained, no value found |
| Reader.FoundKeyMeansNonEmpty | src/read/mod.rs:216-263 | a key that is found is contained and makes the map non-empty |
| Reader.MarkAfterHandle | src/read/mod.rs:165-166 | the word `Handle` leaves has the top bit set when the map is gone; after a real entry (counter below 2^63 - 1) it blocks a writer whose snapshot holds that same word |
| Reader.ReentryClearsWriter | src/read/mod.rs:165-189 | a reader snapshotted inside a read is clear once it enters again, whether that entry finds the map or not |
| Reader.ReadHandle.constructor | src/read/mod.rs:102-118 | exactly one fresh cell holding 0 goes into a vacant registry slot (or a new one when none is vacant), whose index the handle keeps; counter 0 |
| Reader.ReadHandle.Clone | src/read/mod.rs:79-85 | a fresh handle on the same pointer and registry, registered in its own new slot |
| Reader.ReadHandle.Drop | src/read/mod.rs:55-59 | empties exactly this handle's slot, which held this handle's own cell |
| Reader.ReadHandle.Handle | src/read/mod.rs:136-192 | the counter rises by exactly 1; the cell gets the old counter + 1, with the top bit too when the pointer is null; the guard is `None` exactly when the pointer is null; the map is untouched |
| Reader.ReadHandle.Read | src/read/mod.rs:203-213 | `ReadOf` of what `Handle` sees, with `Handle`'s effect on the epoch |
| Reader.ReadHandle.Len | src/read/mod.rs:216-218 | `LenOf` of what `Handle` sees |
| Reader.ReadHandle.IsEmpty | src/read/mod.rs:221-223 | `IsEmptyOf` of what `Handle` sees |
| Reader.ReadHandle.GetRaw | src/read/mod.rs:226-232 | `GetOf` of what `Handle` sees |
| Reader.ReadHandle.Get | src/read/mod.rs:245-248 | the same answer as `GetRaw` |
| Reader.ReadHandle.IsDestroyed | src/read/mod.rs:253-255 | true exactly when the pointer is null, that is when `Handle` gives `None` |
| Reader.ReadHandle.ContainsKey | src/read/mod.rs:261-263 | `ContainsKeyOf` of what `Handle` sees |
| Writer.WriteHandle.constructor | src/write.rs:47-65 | takes the private copy, nothing pending, empty snapshot; the one-behind invariant holds |
| Writer.WriteHandle.RunOperationFirst | src/write.rs:165-195 | changes the target's data as `Apply` says and returns the key `Apply` gives; the flag is untouched |
| Writer.WriteHandle.RunOperationSecond | src/write.rs:197-218 | changes the target's data as `Apply` says and discards the key |
| Writer.WriteHandle.CatchUpAndApply | src/write.rs:237-261 | replaying `lastOp` brings the private copy to the exposed data (the replayed `Add` gets the key first returned); then `op` is applied and kept as `lastOp`; the copy is marked ready unless `op` is `NoOp` |
| Writer.WriteHandle.RefreshWithOperation | src/write.rs:221-293 | keeps the one-behind invariant; the copies are exchanged exactly; the new exposed data is the old exposed data with `op` applied; returns `Apply`'s key; the snapshot is the registry's words after the swap |
| Writer.WriteHandle.WaitPass | src/write.rs:125-161 | sizes the snapshot to the registry, then runs one scan pass over the registry's enumerated slots: `None` only if every reader from `start` on is clear, else the first blocking position (every reader between `start` and it is clear); a pass from 0 finds nobody exactly when every registered reader is clear |
| Writer.WriteHandle.Refresh | src/write.rs:295-297 | afterwards nothing is pending, both copies hold the exposed data, and that data is unchanged; the copies are exchanged, so the new exposed copy carries the old private copy's `ready` flag (false right after the first write); the snapshot is retaken after the swap |
| Writer.WriteHandle.Insert | src/write.rs:299-304 | returns a key that was not live, and the exposed copy gains exactly that key with `v` and is ready; the key is always present; `Add(v)` is pending with that key; the snapshot is retaken after the swap, so a reader inside a read at that moment holds up the next scan |
| Writer.WriteHandle.Update | src/write.rs:306-309 | the live key's value becomes `v` in the exposed copy, and the key set is unchanged; `Replace(k, v)` is pending; the snapshot is retaken after the swap |
| Writer.WriteHandle.Clear | src/write.rs:311-314 | the exposed copy has no live key and is ready; `Clear` is pending; the snapshot is retaken after the swap |
| Writer.WriteHandle.Remove | src/write.rs:316-319 | the exposed copy loses exactly `k`, and an absent key leaves it unchanged; `Remove(k)` is pending; the snapshot is retaken after the swap |
| Writer.WriteHandle.Drop | src/write.rs:67-109 | nothing is pending and the pointer is null; the released copy is the old private copy when an operation was pending (one flush swapped them) and the old exposed copy otherwise, the kept copy is the other one; the released copy holds the data readers last saw and the kept copy is cleared; dropping the writer's own read handle (src/read/mod.rs:55-59) empties exactly its registry slot |
| EvSlotmap.New | src/lib.rs:66-81 | two empty copies: the exposed one not ready, the writer's ready; one registry with two cells at 0, one for the reader and one for the writer's own reader handle; nothing readable yet |

## Left out

- Atomics, memory orderings, fences and the spin/yield backoff of `wait`
  (src/write.rs:139, 151-155, 279, 283; src/read/mod.rs:165-172) are left out.
  All loads and stores are plain field accesses in one thread.
- The retry loop of `wait` is left out. `Epochs.ScanPass` models one pass and
  `Writer.WriteHandle.WaitPass` runs it over the writer's own registry and
  snapshot. `RefreshWithOperation` does only the pass's lasting effect
  (resizing the snapshot vector), and neither it nor `Drop` calls the scan.
  The spin can only end when other threads move, and a reader only leaves
  when its guard is dropped. The guard lives in `src/read/guard.rs`, which is not part of this model.
- `ReadGuard`'s exit (restoring the top bit on drop) is not modelled, because
  `src/read/guard.rs` is not part of this model. A guard is modelled as a value
  snapshot of the exposed copy, taken at entry.
- `ManuallyDrop`, `ShallowCopy` and the unsafe ownership transfer in `drop`
  are not modelled. Values are plain values held by both copies, so the
  "each value dropped exactly once" property is not stated. `Inner::do_drop`
  only changes the value wrapper type. With one value type it is the identity,
  so `RunOperationSecond` takes the `Inner` itself.
- The slot map's index/generation arithmetic and free list are not modelled.
  The abstraction's keys are never reused, while the real crate reuses an
  index with a newer generation. The slab reuses its most recently freed slot;
  the contracts only say that a vacant slot is reused when there is one, and
  the body picks the lowest.
- The slab's `capacity()` is taken to be its number of slots.
- `Inner`'s `meta` field is left out: the map carries no metadata.
- The outer key type `K` with its `P` part (`to_outer_key`, `borrow`) is
  identified with the inner key.
- `src/read/read_ref.rs` and `src/read/factory.rs` are not part of this model.
  `MapReadRef` is represented by the guard's data, and its length, emptiness,
  lookup and membership are used directly.
- `MapReadRef::iter` is not modelled.
- `src/rw.rs`, `src/impl_serde.rs`, the `Debug` impls, the multithreaded
  consistency test and the performance comparison are left out.
- Epoch counters wrap at 2^64 (`bv64`). The source's `epoch + 1` would
  instead panic on overflow in a debug build. Before that, the entry mark of
  the counter 2^63 - 1 already has the top bit set, so a reader inside that
  read looks absent to the writer; the model and the source agree on this
  (`Epochs.EnterMarkAtTopBitLooksClear`).
