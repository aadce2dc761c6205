/**
 * An abstract one-way slot map: the storage each of the two copies holds.
 *
 * The real slot map is an external crate whose index/generation arithmetic and
 * free list are not part of this model. It is abstracted as a finite map from
 * key to value plus the allocator state `issued`, the number of keys handed out
 * so far. `Insert` hands out key `issued` and bumps it, so it is deterministic
 * (equal stores give equal keys and equal results) and a key is never issued
 * twice, which is what the generation tag guarantees for stale keys.
 */
module Slots {
  import opened Wrappers

  type Key = nat

  datatype SlotMap<V> = SlotMap(entries: map<Key, V>, issued: nat)

  /** Every live key was issued by this store. */
  ghost predicate Valid<V>(s: SlotMap<V>) {
    forall k :: k in s.entries ==> k < s.issued
  }

  function Empty<V>(): (s: SlotMap<V>)
    ensures Valid(s) && s.entries == map[]
  {
    SlotMap(map[], 0)
  }

  /** Stores `v` under a fresh key and returns that key. */
  function Insert<V>(s: SlotMap<V>, v: V): (r: (SlotMap<V>, Key))
    ensures r.0.entries == s.entries[r.1 := v]
    ensures Valid(s) ==> Valid(r.0) && r.1 !in s.entries
    ensures r.1 < r.0.issued && s.issued <= r.0.issued
  {
    (SlotMap(s.entries[s.issued := v], s.issued + 1), s.issued)
  }

  /** `get_unbounded`: the value stored under `k`, if `k` is live. */
  function Get<V>(s: SlotMap<V>, k: Key): (r: Option<V>)
    ensures r.Some? <==> k in s.entries
    ensures r.Some? ==> r.value == s.entries[k]
  {
    if k in s.entries then Some(s.entries[k]) else None
  }

  /** `get_mut_unbounded` followed by an assignment: `None` when `k` is not live. */
  function Overwrite<V>(s: SlotMap<V>, k: Key, v: V): (r: Option<SlotMap<V>>)
    ensures r.Some? <==> k in s.entries
    ensures r.Some? ==> r.value.entries == s.entries[k := v] && r.value.issued == s.issued
    ensures r.Some? ==> r.value.entries.Keys == s.entries.Keys
  {
    if k in s.entries then Some(SlotMap(s.entries[k := v], s.issued)) else None
  }

  /** `remove_unbounded`: the removed value, or `None` and an untouched store. */
  function Remove<V>(s: SlotMap<V>, k: Key): (r: (SlotMap<V>, Option<V>))
    ensures r.0.entries == s.entries - {k} && r.0.issued == s.issued
    ensures r.1 == Get(s, k)
    ensures k !in s.entries ==> r.0 == s
  {
    if k in s.entries then (SlotMap(s.entries - {k}, s.issued), Some(s.entries[k])) else (s, None)
  }

  /** Empties the store; keys already issued are never issued again. */
  function Clear<V>(s: SlotMap<V>): (r: SlotMap<V>)
    ensures r.entries == map[] && r.issued == s.issued && Valid(r)
  {
    SlotMap(map[], s.issued)
  }

  /** Number of live keys. */
  function Len<V>(s: SlotMap<V>): nat {
    |s.entries|
  }

  function ContainsKey<V>(s: SlotMap<V>, k: Key): (b: bool)
    ensures b <==> Get(s, k).Some?
  {
    k in s.entries
  }
}
