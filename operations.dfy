/**
 * The pending map operation and what applying it does to one copy of the store.
 *
 * `Apply` is the specification of both `run_operation_first` and
 * `run_operation_second`: they differ only in whether the key an `Add`
 * produces is kept. A `Replace` of a key that is not live panics with the
 * message "Tried to replace empty key"; that outcome is the `Panic` value.
 */
module Operations {
  import opened Wrappers
  import opened Slots

  datatype Operation<V> =
    | NoOp                         // just a refresh, the data is not altered
    | Replace(key: Key, value: V)  // overwrite the value of a live key
    | Add(value: V)                // store a value under a fresh key
    | Remove(key: Key)             // remove a key if it is live
    | Clear                        // remove every key

  datatype Outcome<V> = Panic(message: string) | Done(store: SlotMap<V>, key: Option<Key>)

  const ReplaceEmptyKey := "Tried to replace empty key"

  /** True exactly when applying `op` to `s` panics. */
  predicate Panics<V>(s: SlotMap<V>, op: Operation<V>) {
    op.Replace? && !ContainsKey(s, op.key)
  }

  function Apply<V>(s: SlotMap<V>, op: Operation<V>): (r: Outcome<V>)
    ensures r.Panic? <==> op.Replace? && op.key !in s.entries
    ensures r.Panic? ==> r.message == ReplaceEmptyKey
    ensures r.Done? ==> (r.key.Some? <==> op.Add?)
    ensures r.Done? && Valid(s) ==> Valid(r.store)
    ensures r.Done? ==> s.issued <= r.store.issued
  {
    match op
    case NoOp => Done(s, None)
    case Add(v) =>
      var (s', k) := Insert(s, v);
      Done(s', Some(k))
    case Replace(k, v) =>
      (match Overwrite(s, k, v)
       case None => Panic(ReplaceEmptyKey)
       case Some(s') => Done(s', None))
    case Remove(k) => Done(Slots.Remove(s, k).0, None)
    case Clear => Done(Slots.Clear(s), None)
  }

  /** An `Add` inserts its value under a key that was not live, and returns that key. */
  lemma AddInsertsUnderFreshKey<V>(s: SlotMap<V>, v: V)
    requires Valid(s)
    ensures var r := Apply(s, Add(v));
      && r.Done? && r.key.Some?
      && r.key.value !in s.entries
      && r.store.entries == s.entries[r.key.value := v]
  {
  }

  /**
   * A `Replace` of a live key changes that key's value and nothing else; the
   * set of live keys is unchanged. Of a key that is not live, it panics.
   */
  lemma ReplaceChangesOnlyItsKey<V>(s: SlotMap<V>, k: Key, v: V)
    ensures var r := Apply(s, Replace(k, v));
      && (k in s.entries ==>
            r.Done? && r.key.None? && r.store.issued == s.issued
            && r.store.entries.Keys == s.entries.Keys
            && r.store.entries[k] == v
            && forall k' :: k' in s.entries && k' != k ==> r.store.entries[k'] == s.entries[k'])
      && (k !in s.entries ==> r == Panic(ReplaceEmptyKey))
  {
  }

  /** A `Remove` of a key that is not live (absent or stale) leaves the store as it was. */
  lemma RemoveOfAbsentKeyIsIgnored<V>(s: SlotMap<V>, k: Key)
    ensures k !in s.entries ==> Apply(s, Remove(k)) == Done(s, None)
    ensures k in s.entries ==> Apply(s, Remove(k)).store.entries == s.entries - {k}
  {
  }

  /** Removing the same key twice: the second removal changes nothing. */
  lemma RemoveTwiceIsRemoveOnce<V>(s: SlotMap<V>, k: Key)
    ensures var once := Apply(s, Remove(k)).store;
      Apply(once, Remove(k)) == Done(once, None)
  {
  }

  /** `Clear` leaves no live key, and `NoOp` leaves the store as it was. */
  lemma ClearEmptiesNoOpKeeps<V>(s: SlotMap<V>)
    ensures Apply(s, Clear).Done? && Apply(s, Clear).store.entries == map[]
    ensures Apply(s, NoOp) == Done(s, None)
  {
  }
}
