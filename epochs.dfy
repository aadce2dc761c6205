/**
 * Reader epochs: the per-reader counters the writer inspects before it may
 * touch the copy readers were just moved away from.
 *
 * An epoch is a machine word (`usize`, taken as 64 bits). A reader's cell
 * holds 0 until the reader first enters, the value of its counter after an
 * entry, and that value with the top bit set when the reader found the map
 * gone. The registry is a slab of cells shared by all readers and the writer.
 */
module Epochs {
  import opened Wrappers

  type Word = bv64

  const HighBit: Word := 1 << 63

  /**
   * What a reader stores in its cell on entry, given its counter before the
   * entry. Until the counter reaches 2^63 - 1 the mark is non-zero and has the
   * top bit clear, so the writer takes the reader to be inside a read.
   */
  function EnterMark(counter: Word): (w: Word)
    ensures counter < HighBit - 1 ==> w != 0 && w & HighBit == 0
  {
    counter + 1
  }

  /** What a reader stores in its cell when it finds no map to read. */
  function AbsentMark(counter: Word): (w: Word)
    ensures w & HighBit != 0
  {
    (counter + 1) | HighBit
  }

  /**
   * The writer's per-reader test: the reader with snapshot `last` and current
   * cell value `now` cannot still be reading the copy that was swapped out.
   */
  predicate ReaderClear(last: Word, now: Word): (b: bool)
    ensures last & HighBit != 0 || last == 0 ==> b
    ensures last & HighBit == 0 && last != 0 ==> (b <==> now != last)
  {
    last & HighBit != 0 || now != last || now & HighBit != 0 || now == 0
  }

  /** A reader that never entered, or that found the map gone, never holds the writer up. */
  lemma EnteredOrAbsentReadersAreClear(last: Word, counter: Word)
    ensures ReaderClear(last, 0)
    ensures ReaderClear(last, AbsentMark(counter))
  {
  }

  /**
   * The entry mark of the counter 2^63 - 1 has the top bit set, so a reader
   * that is inside that read looks absent, and the writer does not wait for it.
   */
  lemma EnterMarkAtTopBitLooksClear()
    ensures EnterMark(HighBit - 1) & HighBit != 0
    ensures ReaderClear(EnterMark(HighBit - 1), EnterMark(HighBit - 1))
  {
  }

  /** `Vec::resize(n, 0)`: truncate to `n` or pad with zeroes up to `n`. */
  function Resize(s: seq<Word>, n: nat): (r: seq<Word>)
    ensures |r| == n
    ensures forall i :: 0 <= i < n && i < |s| ==> r[i] == s[i]
    ensures forall i :: |s| <= i < n ==> r[i] == 0
  {
    if n <= |s| then s[..n] else s + seq(n - |s|, _ => 0)
  }

  /**
   * The slab's iteration order: the occupied slots, in increasing index
   * order, as (index, value) pairs.
   */
  function Occupied(values: seq<Option<Word>>): (r: seq<(nat, Word)>)
    ensures |r| <= |values|
    ensures forall j :: 0 <= j < |r| ==> r[j].0 < |values| && values[r[j].0] == Some(r[j].1)
    ensures forall j1, j2 :: 0 <= j1 < j2 < |r| ==> r[j1].0 < r[j2].0
    ensures forall i :: 0 <= i < |values| && values[i].Some? ==> exists j :: 0 <= j < |r| && r[j].0 == i
  {
    if |values| == 0 then []
    else
      var n := |values| - 1;
      var prefix := Occupied(values[..n]);
      assert forall i :: 0 <= i < n ==> values[..n][i] == values[i];
      var r := if values[n].Some? then prefix + [(n, values[n].value)] else prefix;
      assert forall j :: 0 <= j < |prefix| ==> r[j] == prefix[j];
      assert values[n].Some? ==> r[|prefix|].0 == n;
      r
  }

  /**
   * One pass of the writer's scan over the enumerated readers, starting at
   * position `start`. It stops at the first reader that is not clear and
   * returns its position, which the next pass resumes from; it never goes
   * back before `start`.
   */
  method ScanPass(last: seq<Word>, readers: seq<(nat, Word)>, start: nat) returns (blocked: Option<nat>)
    requires forall j :: 0 <= j < |readers| ==> readers[j].0 < |last|
    ensures blocked.None? ==>
      forall j :: start <= j < |readers| ==> ReaderClear(last[readers[j].0], readers[j].1)
    ensures blocked.Some? ==>
      && start <= blocked.value < |readers|
      && !ReaderClear(last[readers[blocked.value].0], readers[blocked.value].1)
      && forall j :: start <= j < blocked.value ==> ReaderClear(last[readers[j].0], readers[j].1)
  {
    var ii := start;
    while ii < |readers|
      invariant start <= ii
      invariant forall j :: start <= j < ii && j < |readers| ==> ReaderClear(last[readers[j].0], readers[j].1)
    {
      var (ri, now) := readers[ii];
      if last[ri] & HighBit != 0 {
        // not active right after the last swap: it can only see the new copy
      } else if now != last[ri] || now & HighBit != 0 || now == 0 {
        // it has seen the last swap
      } else {
        return Some(ii);
      }
      ii := ii + 1;
    }
    return None;
  }

  /**
   * A pass over the whole enumeration that finds every reader clear has
   * checked every occupied slot.
   */
  lemma ClearPassCoversEveryReader(last: seq<Word>, values: seq<Option<Word>>, rs: seq<(nat, Word)>)
    requires |values| <= |last| && rs == Occupied(values)
    requires forall j :: 0 <= j < |rs| ==> ReaderClear(last[rs[j].0], rs[j].1)
    ensures forall ri :: 0 <= ri < |values| && values[ri].Some? ==> ReaderClear(last[ri], values[ri].value)
  {
    forall ri | 0 <= ri < |values| && values[ri].Some?
      ensures ReaderClear(last[ri], values[ri].value)
    {
      var j :| 0 <= j < |rs| && rs[j].0 == ri;
      assert values[ri] == Some(rs[j].1);
      assert ReaderClear(last[rs[j].0], rs[j].1);
    }
  }

  /**
   * The snapshot taken after a swap: every occupied slot's value is copied to
   * the same index of `last`; the other entries of `last` keep their values.
   */
  function SnapshotOf(last: seq<Word>, values: seq<Option<Word>>): (r: seq<Word>)
    requires |values| <= |last|
    ensures |r| == |last|
    ensures forall ri :: 0 <= ri < |values| && values[ri].Some? ==> r[ri] == values[ri].value
    ensures forall ri :: 0 <= ri < |last| && (ri >= |values| || values[ri].None?) ==> r[ri] == last[ri]
  {
    seq(|last|, ri requires 0 <= ri < |last| =>
      if ri < |values| && values[ri].Some? then values[ri].value else last[ri])
  }

  /** The loop that takes the snapshot, over the slab in index order. */
  method SnapshotEpochs(last: seq<Word>, values: seq<Option<Word>>) returns (r: seq<Word>)
    requires |values| <= |last|
    ensures r == SnapshotOf(last, values)
  {
    r := last;
    var ri := 0;
    while ri < |values|
      invariant ri <= |values| && |r| == |last|
      invariant forall i :: 0 <= i < ri && values[i].Some? ==> r[i] == values[i].value
      invariant forall i :: 0 <= i < |last| && (i >= ri || values[i].None?) ==> r[i] == last[i]
    {
      if values[ri].Some? {
        r := r[ri := values[ri].value];
      }
      ri := ri + 1;
    }
  }

  /** One reader's shared epoch word. */
  class EpochCell {
    var value: Word

    constructor (value: Word)
      ensures this.value == value
    {
      this.value := value;
    }
  }

  /**
   * An index the slab may hand out on insert: a vacant slot, or one past the
   * end when no slot is vacant. Which vacant slot is left open.
   */
  ghost predicate FreshSlot(slots: seq<Option<EpochCell>>, i: nat) {
    && i <= |slots|
    && (i < |slots| ==> slots[i].None?)
    && (i == |slots| ==> forall j :: 0 <= j < |slots| ==> slots[j].Some?)
  }

  /** Finds an index the slab may hand out; this one takes the lowest vacant slot. */
  function VacantSlot(slots: seq<Option<EpochCell>>): (i: nat)
    ensures FreshSlot(slots, i)
  {
    if |slots| == 0 || slots[0].None? then 0 else 1 + VacantSlot(slots[1..])
  }

  /** The registry of reader epochs: a slab of cells. */
  class Registry {
    var slots: seq<Option<EpochCell>>

    constructor ()
      ensures slots == []
    {
      slots := [];
    }

    ghost function Cells(): set<EpochCell>
      reads this
    {
      set i | 0 <= i < |slots| && slots[i].Some? :: slots[i].value
    }

    /** The current value of every slot, as the writer reads them. */
    function Values(): (vs: seq<Option<Word>>)
      reads this, Cells()
      ensures |vs| == |slots|
      ensures forall i :: 0 <= i < |slots| ==> vs[i].Some? == slots[i].Some?
      ensures forall i :: 0 <= i < |slots| && slots[i].Some? ==> vs[i] == Some(slots[i].value.value)
    {
      seq(|slots|, i reads this, Cells() requires 0 <= i < |slots| =>
        if slots[i].Some? then Some(slots[i].value.value) else None)
    }

    /** Stores `cell` in a vacant slot (or a new one when none is vacant) and returns its index. */
    method Insert(cell: EpochCell) returns (i: nat)
      modifies this
      ensures FreshSlot(old(slots), i)
      ensures |slots| == if i < |old(slots)| then |old(slots)| else |old(slots)| + 1
      ensures slots[i] == Some(cell)
      ensures forall j :: 0 <= j < |old(slots)| && j != i ==> slots[j] == old(slots)[j]
    {
      i := VacantSlot(slots);
      if i < |slots| {
        slots := slots[i := Some(cell)];
      } else {
        slots := slots + [Some(cell)];
      }
    }

    /** Empties slot `i` and returns the cell it held; the slab panics on a vacant slot. */
    method Remove(i: nat) returns (cell: EpochCell)
      requires i < |slots| && slots[i].Some?
      modifies this
      ensures Some(cell) == old(slots)[i]
      ensures slots == old(slots)[i := None]
    {
      cell := slots[i].value;
      slots := slots[i := None];
    }
  }
}
