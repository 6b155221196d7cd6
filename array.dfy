/**
 * PersistentArray (persistence/structure/array/PersistentArray.java): a list of fat nodes,
 * one per position. A write at version `s` records its values at step s+1; shifting
 * operations rewrite every moved position at that step. When the storage has moved past the
 * handle's step, the write first rebuilds a fresh storage from the entries at or below it.
 */
module PersistentArrays {
  import opened Wrappers
  import opened RedBlackTree
  import opened FatNode
  import opened Storage
  import opened Base

  /** One position: the history of its fat node. A stored value is a reference, None for null. */
  type Slot<T> = History<Option<T>>
  type Slots<T> = seq<Slot<T>>
  type PersistentArray<T> = Handle<Slots<T>>

  // ---------------------------------------------------------------------------------------
  // Reading the slots at a step

  /** What get returns, position by position. */
  function Values<T>(c: Slots<T>, step: int): seq<Option<T>>
  {
    seq(|c|, i requires 0 <= i < |c| => ValueAt(c[i], step))
  }

  /** iterator: the values at `step` of the slots live at `step`, in slot order. */
  function Visible<T>(c: Slots<T>, step: int): seq<Option<T>>
  {
    if c == [] then []
    else Visible(c[..|c| - 1], step) + (if Live(c[|c| - 1], step) then [ValueAt(c[|c| - 1], step)] else [])
  }

  /** recalculateCount: the number of slots live at `step`, the length of what iterator yields. */
  function RecalculateCount<T>(c: Slots<T>, step: int): (n: nat)
    ensures n == |Visible(c, step)| && n <= |c|
  {
    if c == [] then 0
    else RecalculateCount(c[..|c| - 1], step) + (if Live(c[|c| - 1], step) then 1 else 0)
  }

  /**
   * Every slot was written, and only at or below `step`: a freshly rebuilt storage, or the
   * storage of the latest version.
   */
  ghost predicate Settled<T>(c: Slots<T>, step: int)
  {
    forall i :: 0 <= i < |c| ==> Live(c[i], step) && forall k :: k in c[i] ==> k <= step
  }

  /** The part of the slots a version at `step` can see is the same in both. */
  ghost predicate SameUpTo<T>(c: Slots<T>, c': Slots<T>, step: int)
  {
    |c| <= |c'| &&
    (forall i :: 0 <= i < |c| ==> Restrict(c[i], step) == Restrict(c'[i], step)) &&
    (forall i :: |c| <= i < |c'| ==> !Live(c'[i], step))
  }

  /** A settled storage reads the same at every later step, and every slot counts. */
  lemma {:induction false} SettledView<T>(c: Slots<T>, step: int, at: int)
    requires Settled(c, step) && step <= at
    ensures Visible(c, at) == Values(c, step)
    ensures RecalculateCount(c, at) == |c|
  {
    if c != [] {
      var p := c[..|c| - 1];
      assert Settled(p, step);
      SettledView(p, step, at);
      ReadsAfterLastWrite(c[|c| - 1], step, at);
      assert Live(c[|c| - 1], at);
      assert Values(c, step) == Values(p, step) + [ValueAt(c[|c| - 1], step)];
    }
  }

  /** Two storages that agree up to `step` show a version at `step` the same values. */
  lemma {:induction false} SameUpToView<T>(c: Slots<T>, c': Slots<T>, step: int)
    requires SameUpTo(c, c', step)
    ensures Visible(c', step) == Visible(c, step)
    decreases |c'|
  {
    if |c| < |c'| {
      var p' := c'[..|c'| - 1];
      assert SameUpTo(c, p', step);
      SameUpToView(c, p', step);
    } else if c != [] {
      var p := c[..|c| - 1];
      var p' := c'[..|c'| - 1];
      assert SameUpTo(p, p', step);
      SameUpToView(p, p', step);
      var h, h' := c[|c| - 1], c'[|c| - 1];
      RestrictReads(h, step, step);
      RestrictReads(h', step, step);
      assert Live(h, step) <==> Live(h', step) by {
        if Live(h, step) {
          var k :| k in h && k <= step;
          assert k in Restrict(h', step);
        }
        if Live(h', step) {
          var k :| k in h' && k <= step;
          assert k in Restrict(h, step);
        }
      }
    }
  }

  // ---------------------------------------------------------------------------------------
  // The writes, as functions of the slots

  /** addImpl: a new slot created at step+1 with the value. */
  function Appended<T>(c: Slots<T>, step: int, value: Option<T>): Slots<T>
  {
    c + [Created(step + 1, value)]
  }

  /** insertImpl's first edit: a slot created at step+1 holding the last slot's value. */
  function Extended<T>(c: Slots<T>, step: int): Slots<T>
    requires c != []
  {
    c + [Created(step + 1, ValueAt(c[|c| - 1], step))]
  }

  /** The slot at `i` before insertImpl rewrites it: the appended slot is rewritten whole. */
  function SlotOrNew<T>(c: Slots<T>, i: int): Slot<T>
  {
    if 0 <= i < |c| then c[i] else map[]
  }

  /**
   * insertImpl: one slot more; `value` at `index` and each later slot the old value of its
   * left neighbour, all at step+1.
   */
  function Inserted<T>(c: Slots<T>, step: int, index: int, value: Option<T>): Slots<T>
    requires c != [] && 0 <= index <= |c|
  {
    seq(|c| + 1, i requires 0 <= i < |c| + 1 =>
      if i < index then c[i]
      else if i == index then SlotOrNew(c, i)[step + 1 := value]
      else SlotOrNew(c, i)[step + 1 := ValueAt(c[i - 1], step)])
  }

  /** replaceImpl: `value` at `index`, at step+1. */
  function Replaced<T>(c: Slots<T>, step: int, index: int, value: Option<T>): Slots<T>
    requires 0 <= index < |c|
  {
    c[index := c[index][step + 1 := value]]
  }

  /**
   * removeImpl: from `index` on each slot gets its right neighbour's value at step+1, and
   * the last slot is dropped with its whole history.
   */
  function Removed<T>(c: Slots<T>, step: int, index: int): Slots<T>
    requires c != [] && 0 <= index
  {
    seq(|c| - 1, i requires 0 <= i < |c| - 1 =>
      if i < index then c[i] else c[i][step + 1 := ValueAt(c[i + 1], step)])
  }

  /** add on the latest version: the new version is the old one with the value appended. */
  lemma AddView<T>(c: Slots<T>, step: int, value: Option<T>)
    requires Settled(c, step)
    ensures Settled(Appended(c, step, value), step + 1)
    ensures Values(Appended(c, step, value), step + 1) == Values(c, step) + [value]
  {
    var r := Appended(c, step, value);
    forall i | 0 <= i < |c| ensures ValueAt(r[i], step + 1) == ValueAt(c[i], step) {
      ReadsAfterLastWrite(c[i], step, step + 1);
    }
    CreatedReads(step + 1, value, step + 1);
    assert Live(r[|c|], step + 1);
  }

  /** add leaves every earlier version as it was. */
  lemma AddKeepsVersion<T>(c: Slots<T>, step: int, value: Option<T>)
    ensures Visible(Appended(c, step, value), step) == Visible(c, step)
  {
    assert SameUpTo(c, Appended(c, step, value), step);
    SameUpToView(c, Appended(c, step, value), step);
  }

  /** insert on the latest version: the value goes in at `index`, the rest moves right. */
  lemma InsertView<T>(c: Slots<T>, step: int, index: int, value: Option<T>)
    requires Settled(c, step) && c != [] && 0 <= index <= |c|
    ensures Settled(Inserted(c, step, index, value), step + 1)
    ensures Values(Inserted(c, step, index, value), step + 1) ==
      Values(c, step)[..index] + [value] + Values(c, step)[index..]
  {
    var r := Inserted(c, step, index, value);
    var want := Values(c, step)[..index] + [value] + Values(c, step)[index..];
    forall i | 0 <= i < |r|
      ensures ValueAt(r[i], step + 1) == want[i]
      ensures Live(r[i], step + 1) && forall k :: k in r[i] ==> k <= step + 1
    {
      if i < index {
        ReadsAfterLastWrite(c[i], step, step + 1);
        assert Live(c[i], step + 1);
      } else if i == index {
        ValueOwnWrite(SlotOrNew(c, i), step + 1, value);
        assert step + 1 in r[i];
      } else {
        ValueOwnWrite(SlotOrNew(c, i), step + 1, ValueAt(c[i - 1], step));
        assert step + 1 in r[i];
      }
    }
    assert Values(r, step + 1) == want;
  }

  /** insert leaves every earlier version as it was. */
  lemma InsertKeepsVersion<T>(c: Slots<T>, step: int, index: int, value: Option<T>)
    requires c != [] && 0 <= index <= |c|
    ensures Visible(Inserted(c, step, index, value), step) == Visible(c, step)
  {
    var r := Inserted(c, step, index, value);
    forall i | 0 <= i < |c| ensures Restrict(c[i], step) == Restrict(r[i], step) {
      if i >= index {
        RestrictBelowWrite(c[i], step, r[i][step + 1]);
      }
    }
    assert !Live(r[|c|], step) by {
      assert r[|c|].Keys == {step + 1};
    }
    assert SameUpTo(c, r, step);
    SameUpToView(c, r, step);
  }

  /** replace on the latest version: only position `index` changes. */
  lemma ReplaceView<T>(c: Slots<T>, step: int, index: int, value: Option<T>)
    requires Settled(c, step) && 0 <= index < |c|
    ensures Settled(Replaced(c, step, index, value), step + 1)
    ensures Values(Replaced(c, step, index, value), step + 1) == Values(c, step)[index := value]
  {
    var r := Replaced(c, step, index, value);
    forall i | 0 <= i < |r|
      ensures ValueAt(r[i], step + 1) == Values(c, step)[index := value][i]
      ensures Live(r[i], step + 1)
    {
      if i == index {
        ValueOwnWrite(c[i], step + 1, value);
        assert step + 1 in r[i];
      } else {
        ReadsAfterLastWrite(c[i], step, step + 1);
        assert Live(c[i], step + 1);
      }
    }
  }

  /** replace leaves every earlier version as it was. */
  lemma ReplaceKeepsVersion<T>(c: Slots<T>, step: int, index: int, value: Option<T>)
    requires 0 <= index < |c|
    ensures Visible(Replaced(c, step, index, value), step) == Visible(c, step)
  {
    RestrictBelowWrite(c[index], step, value);
    assert SameUpTo(c, Replaced(c, step, index, value), step);
    SameUpToView(c, Replaced(c, step, index, value), step);
  }

  /** remove on the latest version: the value at `index` is gone, the rest moves left. */
  lemma RemoveView<T>(c: Slots<T>, step: int, index: int)
    requires Settled(c, step) && 0 <= index < |c|
    ensures Settled(Removed(c, step, index), step + 1)
    ensures Values(Removed(c, step, index), step + 1) ==
      Values(c, step)[..index] + Values(c, step)[index + 1..]
  {
    var r := Removed(c, step, index);
    var want := Values(c, step)[..index] + Values(c, step)[index + 1..];
    forall i | 0 <= i < |r|
      ensures ValueAt(r[i], step + 1) == want[i]
      ensures Live(r[i], step + 1) && forall k :: k in r[i] ==> k <= step + 1
    {
      if i < index {
        ReadsAfterLastWrite(c[i], step, step + 1);
        assert Live(c[i], step + 1);
      } else {
        ValueOwnWrite(c[i], step + 1, ValueAt(c[i + 1], step));
        assert step + 1 in r[i];
      }
    }
    assert Values(r, step + 1) == want;
  }

  /**
   * remove drops the last slot with its history: an earlier version loses its last value,
   * so an undo of a remove shows one element fewer than the version it returns to.
   */
  lemma RemoveLosesLast<T>(c: Slots<T>, step: int, index: int)
    requires c != [] && 0 <= index
    ensures Visible(Removed(c, step, index), step) == Visible(c[..|c| - 1], step)
  {
    var r := Removed(c, step, index);
    forall i | 0 <= i < |r| ensures Restrict(c[i], step) == Restrict(r[i], step) {
      if i >= index {
        RestrictBelowWrite(c[i], step, ValueAt(c[i + 1], step));
      }
    }
    assert SameUpTo(c[..|c| - 1], r, step);
    SameUpToView(c[..|c| - 1], r, step);
  }

  /** After a remove on the latest version, undo counts one slot fewer than the version had. */
  lemma RemoveUndoCount<T>(c: Slots<T>, step: int, index: int)
    requires Settled(c, step) && c != [] && 0 <= index
    ensures RecalculateCount(Removed(c, step, index), step) == RecalculateCount(c, step) - 1
  {
    RemoveLosesLast(c, step, index);
    assert Settled(c[..|c| - 1], step);
    SettledView(c[..|c| - 1], step, step);
    SettledView(c, step, step);
  }

  // ---------------------------------------------------------------------------------------
  // reassembleNodes: replaying the entries at or below the handle's step

  /** One replayed modification: the slot index, then the step and the value. */
  type Entry<T> = (nat, (int, Option<T>))

  /** The modifications of slot `i` at or below `step`, in step order, tagged with `i`. */
  function SlotEntries<T>(i: nat, h: Slot<T>, step: int): seq<Entry<T>>
  {
    Tagged(i, Modifications(Restrict(h, step)))
  }

  function Tagged<T>(i: nat, es: seq<(int, Option<T>)>): seq<Entry<T>>
  {
    seq(|es|, j requires 0 <= j < |es| => (i, es[j]))
  }

  /** The list reassembleNodes collects: slot by slot, each in step order. */
  function AllModifications<T>(c: Slots<T>, step: int): seq<Entry<T>>
  {
    if c == [] then []
    else AllModifications(c[..|c| - 1], step) + SlotEntries(|c| - 1, c[|c| - 1], step)
  }

  /** One replayed entry: a new slot when its index is past the end, else a write into it. */
  function ReplayOne<T>(c: Slots<T>, m: Entry<T>): Slots<T>
  {
    if m.0 >= |c| then c + [Created(m.1.0, m.1.1)]
    else c[m.0 := c[m.0][m.1.0 := m.1.1]]
  }

  function Replay<T>(c: Slots<T>, ms: seq<Entry<T>>): Slots<T>
  {
    if ms == [] then c else ReplayOne(Replay(c, ms[..|ms| - 1]), ms[|ms| - 1])
  }

  /** The slots reassembleNodes builds for a version at `step`. */
  function Reassembled<T>(c: Slots<T>, step: int): Slots<T>
  {
    Replay([], AllModifications(c, step))
  }

  lemma {:induction false} ReplayConcat<T>(c: Slots<T>, a: seq<Entry<T>>, b: seq<Entry<T>>)
    ensures Replay(c, a + b) == Replay(Replay(c, a), b)
    decreases |b|
  {
    if b == [] {
      assert a + b == a;
    } else {
      assert (a + b)[..|a + b| - 1] == a + b[..|b| - 1];
      ReplayConcat(c, a, b[..|b| - 1]);
    }
  }

  /** Replaying one slot's entries past the end adds one slot holding exactly those entries. */
  lemma {:induction false} ReplaySlot<T>(c: Slots<T>, es: seq<(int, Option<T>)>)
    requires es != []
    ensures Replay(c, Tagged(|c|, es)) == c + [MapOf(es)]
    decreases |es|
  {
    var ms := Tagged(|c|, es);
    var p := es[..|es| - 1];
    var last := es[|es| - 1];
    if p == [] {
      assert ms[..0] == [];
      assert MapOf(es) == Created(last.0, last.1) by {
        assert es == p + [last];
      }
    } else {
      ReplaySlot(c, p);
      assert ms[..|ms| - 1] == Tagged(|c|, p);
      assert es == p + [last];
    }
  }

  /** Every replayed entry lies at or below the step. */
  lemma {:induction false} EntriesBelow<T>(c: Slots<T>, step: int)
    ensures forall j :: 0 <= j < |AllModifications(c, step)| ==> AllModifications(c, step)[j].1.0 <= step
  {
    if c != [] {
      EntriesBelow(c[..|c| - 1], step);
      var es := Modifications(Restrict(c[|c| - 1], step));
      forall j | 0 <= j < |es| ensures es[j].0 <= step {
        MapOfKeys(es, es[j].0);
      }
    }
  }

  /** Replaying entries at or below `step` keeps the slots settled at `step`. */
  lemma {:induction false} ReplaySettled<T>(c: Slots<T>, ms: seq<Entry<T>>, step: int)
    requires Settled(c, step)
    requires forall j :: 0 <= j < |ms| ==> ms[j].1.0 <= step
    ensures Settled(Replay(c, ms), step)
  {
    if ms != [] {
      ReplaySettled(c, ms[..|ms| - 1], step);
      var m := ms[|ms| - 1];
      var p := Replay(c, ms[..|ms| - 1]);
      if m.0 < |p| {
        assert m.1.0 in p[m.0][m.1.0 := m.1.1];
      } else {
        assert m.1.0 in Created(m.1.0, m.1.1);
      }
    }
  }

  /** A rebuilt storage is settled at the step it was rebuilt for. */
  lemma ReassembledSettled<T>(c: Slots<T>, step: int)
    ensures Settled(Reassembled(c, step), step)
  {
    EntriesBelow(c, step);
    ReplaySettled([], AllModifications(c, step), step);
  }

  /** The live slots come first. */
  ghost predicate LivePrefix<T>(c: Slots<T>, step: int, n: nat)
  {
    n <= |c| &&
    (forall i :: 0 <= i < n ==> Live(c[i], step)) &&
    (forall i :: n <= i < |c| ==> !Live(c[i], step))
  }

  lemma LiveEntries<T>(h: Slot<T>, step: int)
    ensures Live(h, step) <==> |Modifications(Restrict(h, step))| != 0
  {
    var r := Restrict(h, step);
    if Live(h, step) {
      var k :| k in h && k <= step;
      assert k in r;
    } else {
      assert r == map[];
    }
  }

  /** The slots `c` cut at `step`, position by position. */
  ghost function CutAt<T>(c: Slots<T>, step: int, n: nat): Slots<T>
    requires n <= |c|
  {
    seq(n, i requires 0 <= i < n => Restrict(c[i], step))
  }

  /** A live slot appended to the storage adds its cut to the rebuild. */
  lemma RebuildLiveSlot<T>(p: Slots<T>, h: Slot<T>, step: int)
    requires Reassembled(p, step) == CutAt(p, step, |p|)
    requires Live(h, step)
    ensures Reassembled(p + [h], step) == CutAt(p + [h], step, |p| + 1)
  {
    var c := p + [h];
    assert c[..|c| - 1] == p;
    var es := Modifications(Restrict(h, step));
    LiveEntries(h, step);
    var base := Reassembled(p, step);
    assert |base| == |p|;
    calc {
      Reassembled(c, step);
      Replay([], AllModifications(p, step) + SlotEntries(|p|, h, step));
      { ReplayConcat([], AllModifications(p, step), SlotEntries(|p|, h, step)); }
      Replay(base, SlotEntries(|p|, h, step));
      { ReplaySlot(base, es); }
      base + [MapOf(es)];
      CutAt(p, step, |p|) + [Restrict(h, step)];
      { CutAtAppend(p, h, step); }
      CutAt(c, step, |c|);
    }
  }

  lemma CutAtAppend<T>(p: Slots<T>, h: Slot<T>, step: int)
    ensures CutAt(p, step, |p|) + [Restrict(h, step)] == CutAt(p + [h], step, |p| + 1)
  {
    var a := CutAt(p, step, |p|) + [Restrict(h, step)];
    var b := CutAt(p + [h], step, |p| + 1);
    forall i | 0 <= i < |a| ensures a[i] == b[i] {
      if i < |p| {
        assert (p + [h])[i] == p[i];
      }
    }
  }

  /** A dead slot appended to the storage adds nothing to the rebuild. */
  lemma RebuildDeadSlot<T>(p: Slots<T>, h: Slot<T>, step: int)
    requires !Live(h, step)
    ensures AllModifications(p + [h], step) == AllModifications(p, step)
  {
    var c := p + [h];
    assert c[..|c| - 1] == p;
    LiveEntries(h, step);
    assert SlotEntries(|p|, h, step) == [];
  }

  /**
   * When the live slots come first, the rebuild holds exactly those slots, each cut at the
   * step, and the version's count is their number.
   */
  lemma {:induction false} ReassembledLive<T>(c: Slots<T>, step: int, n: nat)
    requires LivePrefix(c, step, n)
    ensures Reassembled(c, step) == CutAt(c, step, n)
    ensures RecalculateCount(c, step) == n
  {
    if c != [] {
      var p := c[..|c| - 1];
      var h := c[|c| - 1];
      assert c == p + [h];
      if n == |c| {
        assert LivePrefix(p, step, n - 1);
        ReassembledLive(p, step, n - 1);
        RebuildLiveSlot(p, h, step);
        assert CutAt(c, step, n) == CutAt(p + [h], step, |p| + 1);
      } else {
        assert LivePrefix(p, step, n);
        ReassembledLive(p, step, n);
        RebuildDeadSlot(p, h, step);
        assert CutAt(c, step, n) == CutAt(p, step, n);
      }
    }
  }

  /**
   * Rebuilding keeps the version: a version at `step` (or earlier) reads the same values
   * from the rebuild as from the shared storage, and its count is the rebuild's length.
   */
  lemma ReassembledKeepsVersion<T>(c: Slots<T>, step: int, n: nat, at: int)
    requires LivePrefix(c, step, n) && at <= step
    ensures |Reassembled(c, step)| == RecalculateCount(c, step)
    ensures Values(Reassembled(c, step), at) == Values(c[..n], at)
  {
    ReassembledLive(c, step, n);
    forall i | 0 <= i < n ensures ValueAt(Restrict(c[i], step), at) == ValueAt(c[i], at) {
      RestrictReads(c[i], step, at);
    }
  }

  /**
   * The rebuilt counter ends at step + |entries| and every live slot gives at least one
   * entry: after a write on a rebuilt storage the counter runs ahead of the new version.
   */
  lemma {:induction false} ReplayedAtLeastLive<T>(c: Slots<T>, step: int)
    ensures |AllModifications(c, step)| >= RecalculateCount(c, step)
  {
    if c != [] {
      ReplayedAtLeastLive(c[..|c| - 1], step);
      LiveEntries(c[|c| - 1], step);
    }
  }

  // ---------------------------------------------------------------------------------------
  // The storage edits (the *Impl helpers): each runs inside PersistentContent.update

  /** addImpl: appends a slot created at step+1. */
  method AddImpl<T>(content: PersistentContent<Slots<T>>, step: int, value: Option<T>)
    modifies content, content.maxModification
    ensures content.content == Appended(old(content.content), step, value)
    ensures content.maxModification.value == old(content.maxModification.value) + 1
  {
    content.Update(content.content + [Created(step + 1, value)]);
  }

  /**
   * insertImpl. On an empty list the first get throws before anything changes; when
   * `index` is past the extended list the new slot is already in place when get throws,
   * and the counter is not bumped.
   */
  method InsertImpl<T>(content: PersistentContent<Slots<T>>, step: int, index: int, value: Option<T>) returns (ok: bool)
    requires 0 <= index
    modifies content, content.maxModification
    ensures ok <==> old(content.content) != [] && index <= |old(content.content)|
    ensures ok ==> content.content == Inserted(old(content.content), step, index, value)
    ensures ok ==> content.maxModification.value == old(content.maxModification.value) + 1
    ensures !ok ==> content.maxModification.value == old(content.maxModification.value)
    ensures old(content.content) == [] ==> unchanged(content, content.maxModification)
    ensures !ok && old(content.content) != [] ==> content.content == Extended(old(content.content), step)
  {
    var c0 := content.content;
    if |c0| == 0 {
      return false;
    }
    var c := Extended(c0, step);
    if index >= |c| {
      content.content := c;
      return false;
    }
    ghost var c1 := c;
    ghost var want := Inserted(c0, step, index, value);
    c := c[index := c[index][step + 1 := value]];
    assert c[index] == want[index];
    var i := index + 1;
    while i < |c|
      invariant index + 1 <= i <= |c| == |c1|
      invariant forall j :: 0 <= j < |c| ==> c[j] == if j < i then want[j] else c1[j]
    {
      assert ValueAt(c[i - 1], step) == ValueAt(c0[i - 1], step) by {
        ValueBelowWrite(c0[i - 1], step + 1, want[i - 1][step + 1], step);
      }
      c := c[i := c[i][step + 1 := ValueAt(c[i - 1], step)]];
      i := i + 1;
    }
    assert c == want;
    content.Update(c);
    ok := true;
  }

  /** replaceImpl: get throws when `index` is past the list, before anything changes. */
  method ReplaceImpl<T>(content: PersistentContent<Slots<T>>, step: int, index: int, value: Option<T>) returns (ok: bool)
    requires 0 <= index
    modifies content, content.maxModification
    ensures ok <==> index < |old(content.content)|
    ensures ok ==> content.content == Replaced(old(content.content), step, index, value)
    ensures ok ==> content.maxModification.value == old(content.maxModification.value) + 1
    ensures !ok ==> unchanged(content, content.maxModification)
  {
    var c := content.content;
    if index >= |c| {
      return false;
    }
    content.Update(c[index := c[index][step + 1 := value]]);
    ok := true;
  }

  /** removeImpl: on an empty list remove(-1) throws, and the shifting loop has not run. */
  method RemoveImpl<T>(content: PersistentContent<Slots<T>>, step: int, index: int) returns (ok: bool)
    requires 0 <= index
    modifies content, content.maxModification
    ensures ok <==> old(content.content) != []
    ensures ok ==> content.content == Removed(old(content.content), step, index)
    ensures ok ==> content.maxModification.value == old(content.maxModification.value) + 1
    ensures !ok ==> unchanged(content, content.maxModification)
  {
    var c := content.content;
    ghost var c0 := c;
    var i := index;
    while i < |c| - 1
      invariant |c| == |c0| && index <= i && (i == index || i <= |c| - 1)
      invariant forall j :: 0 <= j < |c| && (j < index || i <= j) ==> c[j] == c0[j]
      invariant forall j :: index <= j < i ==> c[j] == c0[j][step + 1 := ValueAt(c0[j + 1], step)]
    {
      c := c[i := c[i][step + 1 := ValueAt(c[i + 1], step)]];
      i := i + 1;
    }
    if |c| == 0 {
      return false;
    }
    var kept := c[..|c| - 1];
    forall j | 0 <= j < |kept| ensures kept[j] == Removed(c0, step, index)[j] {
      assert kept[j] == c[j];
    }
    assert kept == Removed(c0, step, index);
    content.Update(kept);
    ok := true;
  }

  /** clear: the slots and their histories are dropped, the list is empty. */
  method ClearImpl<T>(content: PersistentContent<Slots<T>>)
    modifies content, content.maxModification
    ensures content.content == []
    ensures content.maxModification.value == old(content.maxModification.value) + 1
  {
    content.Update([]);
  }

  lemma ReplayStep<T>(all: seq<Entry<T>>, j: int)
    requires 0 <= j < |all|
    ensures Replay([], all[..j + 1]) == ReplayOne(Replay([], all[..j]), all[j])
  {
    assert all[..j + 1][..j] == all[..j];
  }

  /** The stream pipeline of reassembleNodes: every slot's entries at or below `step`. */
  method CollectModifications<T>(slots: Slots<T>, step: int) returns (all: seq<Entry<T>>)
    ensures all == AllModifications(slots, step)
  {
    all := [];
    for i := 0 to |slots|
      invariant all == AllModifications(slots[..i], step)
    {
      assert slots[..i + 1][..i] == slots[..i];
      all := all + SlotEntries(i, slots[i], step);
    }
    assert slots[..|slots|] == slots;
  }

  /**
   * reassembleNodes: a fresh storage whose counter starts at the handle's step, built by
   * replaying every entry at or below that step through update.
   */
  method ReassembleNodes<T>(a: PersistentArray<T>) returns (res: PersistentContent<Slots<T>>)
    ensures fresh(res) && fresh(res.maxModification)
    ensures res.content == Reassembled(a.nodes.content, a.modificationCount)
    ensures res.maxModification.value ==
      a.modificationCount + |AllModifications(a.nodes.content, a.modificationCount)|
  {
    var counter := new ModificationCount(a.modificationCount);
    res := new PersistentContent([], counter);
    var all := CollectModifications(a.nodes.content, a.modificationCount);
    for j := 0 to |all|
      invariant fresh(res) && fresh(res.maxModification)
      invariant res.content == Replay([], all[..j])
      invariant res.maxModification.value == a.modificationCount + j
    {
      ReplayStep(all, j);
      var m := all[j];
      if m.0 >= |res.content| {
        res.Update(res.content + [Created(m.1.0, m.1.1)]);
      } else {
        res.Update(res.content[m.0 := res.content[m.0][m.1.0 := m.1.1]]);
      }
    }
    assert all[..|all|] == all;
  }

  // ---------------------------------------------------------------------------------------
  // The versions

  /** new PersistentArray(): an empty storage with its own counter at 0, and version 0. */
  method NewArray<T>() returns (a: PersistentArray<T>)
    ensures fresh(a.nodes) && fresh(a.nodes.maxModification)
    ensures a.nodes.content == [] && a.nodes.maxModification.value == 0
    ensures a == Initial(a.nodes)
  {
    var counter := new ModificationCount(0);
    var nodes := new PersistentContent([], counter);
    a := Initial(nodes);
  }

  /**
   * The slots a write by `a` edits: the shared storage, or its rebuild at `a`'s step when
   * the storage has moved past it.
   */
  ghost function WriteBase<T>(a: PersistentArray<T>): Slots<T>
    reads a.nodes, a.nodes.maxModification
  {
    if Behind(a) then Reassembled(a.nodes.content, a.modificationCount) else a.nodes.content
  }

  /** The counter of the storage a write by `a` edits, before the write's own update. */
  ghost function WriteCounter<T>(a: PersistentArray<T>): int
    reads a.nodes, a.nodes.maxModification
  {
    if Behind(a) then a.modificationCount + |AllModifications(a.nodes.content, a.modificationCount)|
    else a.nodes.maxModification.value
  }

  /**
   * `r` is the version one step after `a`, holding `count` elements over `slots`: on a fresh
   * rebuilt storage when the storage had moved past `a`, else on the shared one.
   */
  twostate predicate Advanced<T>(a: PersistentArray<T>, new r: PersistentArray<T>, count: int, slots: Slots<T>)
    reads a.nodes, a.nodes.maxModification, r.nodes, r.nodes.maxModification
  {
    r == Versioned(r.nodes, count, a.modificationCount + 1) &&
    r.nodes.content == slots &&
    r.nodes.maxModification.value == old(WriteCounter(a)) + 1 &&
    (old(Behind(a)) ==>
      fresh(r.nodes) && fresh(r.nodes.maxModification) && unchanged(a.nodes, a.nodes.maxModification)) &&
    (!old(Behind(a)) ==> r.nodes == a.nodes)
  }

  /**
   * The branch every write starts with: the shared storage, or a rebuild at `a`'s step when
   * the storage counter is past it.
   */
  method WriteTarget<T>(a: PersistentArray<T>) returns (target: PersistentContent<Slots<T>>)
    ensures target.content == WriteBase(a) && target.maxModification.value == WriteCounter(a)
    ensures Behind(a) ==> fresh(target) && fresh(target.maxModification)
    ensures !Behind(a) ==> target == a.nodes
  {
    if a.nodes.maxModification.value > a.modificationCount {
      target := ReassembleNodes(a);
    } else {
      target := a.nodes;
    }
  }

  /** add: the value appended at step+1; one element more. */
  method Add<T>(a: PersistentArray<T>, value: Option<T>) returns (r: PersistentArray<T>)
    modifies a.nodes, a.nodes.maxModification
    ensures Advanced(a, r, a.count + 1, Appended(old(WriteBase(a)), a.modificationCount, value))
  {
    var target := WriteTarget(a);
    AddImpl(target, a.modificationCount, value);
    r := Versioned(target, a.count + 1, a.modificationCount + 1);
  }

  /**
   * insert: rejects an index outside 0..count, hands index == count to add, else inserts
   * at step+1. insertImpl's own failures are reported as the exception it throws.
   */
  method Insert<T>(a: PersistentArray<T>, index: int, value: Option<T>) returns (r: Result<PersistentArray<T>>)
    modifies a.nodes, a.nodes.maxModification
    ensures index < 0 || index > a.count ==>
      r == Failure(IndexOutOfBounds) && unchanged(a.nodes, a.nodes.maxModification)
    ensures 0 <= index == a.count ==>
      r.Success? && Advanced(a, r.value, a.count + 1, Appended(old(WriteBase(a)), a.modificationCount, value))
    ensures 0 <= index < a.count ==>
      (r.Success? <==> old(WriteBase(a)) != [] && index <= |old(WriteBase(a))|) &&
      (r.Success? ==> Advanced(a, r.value, a.count + 1, Inserted(old(WriteBase(a)), a.modificationCount, index, value))) &&
      (r.Failure? ==> r.error == IndexOutOfBounds)
    ensures r.Failure? && (old(Behind(a)) || old(a.nodes.content) == []) ==>
      unchanged(a.nodes, a.nodes.maxModification)
    ensures r.Failure? && 0 <= index < a.count && !old(Behind(a)) && old(a.nodes.content) != [] ==>
      a.nodes.content == Extended(old(a.nodes.content), a.modificationCount) &&
      a.nodes.maxModification.value == old(a.nodes.maxModification.value)
  {
    if index < 0 || index > a.count {
      return Failure(IndexOutOfBounds);
    }
    if index == a.count {
      var added := Add(a, value);
      return Success(added);
    }
    var target := WriteTarget(a);
    var ok := InsertImpl(target, a.modificationCount, index, value);
    if !ok {
      return Failure(IndexOutOfBounds);
    }
    r := Success(Versioned(target, a.count + 1, a.modificationCount + 1));
  }

  /** replace: rejects an index outside 0..count (count itself is let through), else writes at step+1. */
  method Replace<T>(a: PersistentArray<T>, index: int, value: Option<T>) returns (r: Result<PersistentArray<T>>)
    modifies a.nodes, a.nodes.maxModification
    ensures index < 0 || index > a.count ==>
      r == Failure(IndexOutOfBounds) && unchanged(a.nodes, a.nodes.maxModification)
    ensures 0 <= index <= a.count ==>
      (r.Success? <==> index < |old(WriteBase(a))|) &&
      (r.Success? ==> Advanced(a, r.value, a.count, Replaced(old(WriteBase(a)), a.modificationCount, index, value))) &&
      (r.Failure? ==> r.error == IndexOutOfBounds && unchanged(a.nodes, a.nodes.maxModification))
  {
    if index < 0 || index > a.count {
      return Failure(IndexOutOfBounds);
    }
    var target := WriteTarget(a);
    var ok := ReplaceImpl(target, a.modificationCount, index, value);
    if !ok {
      return Failure(IndexOutOfBounds);
    }
    r := Success(Versioned(target, a.count, a.modificationCount + 1));
  }

  /** remove: rejects an index outside 0..count-1, else shifts left at step+1 and drops the last slot. */
  method Remove<T>(a: PersistentArray<T>, index: int) returns (r: Result<PersistentArray<T>>)
    modifies a.nodes, a.nodes.maxModification
    ensures index < 0 || index >= a.count ==>
      r == Failure(IndexOutOfBounds) && unchanged(a.nodes, a.nodes.maxModification)
    ensures 0 <= index < a.count ==>
      (r.Success? <==> old(WriteBase(a)) != []) &&
      (r.Success? ==> Advanced(a, r.value, a.count - 1, Removed(old(WriteBase(a)), a.modificationCount, index))) &&
      (r.Failure? ==> r.error == IndexOutOfBounds && unchanged(a.nodes, a.nodes.maxModification))
  {
    if index < 0 || index >= a.count {
      return Failure(IndexOutOfBounds);
    }
    var target := WriteTarget(a);
    var ok := RemoveImpl(target, a.modificationCount, index);
    if !ok {
      return Failure(IndexOutOfBounds);
    }
    r := Success(Versioned(target, a.count - 1, a.modificationCount + 1));
  }

  /**
   * clearAll: every slot dropped with its history, count 0, one step on. On the latest
   * version the shared slots are emptied, so the handle it was called on (and every other
   * handle on that storage) then throws on every get and iterates nothing.
   */
  method ClearAll<T>(a: PersistentArray<T>) returns (r: PersistentArray<T>)
    modifies a.nodes, a.nodes.maxModification
    ensures Advanced(a, r, 0, [])
    ensures !old(Behind(a)) ==> Iterator(a) == [] && forall i :: Get(a, i) == Failure(IndexOutOfBounds)
  {
    var target := WriteTarget(a);
    ClearImpl(target);
    r := Versioned(target, 0, a.modificationCount + 1);
  }

  /** get: rejects an index outside 0..count-1; past the stored slots the list's get throws too. */
  function Get<T>(a: PersistentArray<T>, index: int): (r: Result<Option<T>>)
    reads a.nodes
    ensures r.Success? <==> 0 <= index < a.count && index < |a.nodes.content|
    ensures r.Success? ==> r.value == Values(a.nodes.content, a.modificationCount)[index]
    ensures r.Failure? ==> r.error == IndexOutOfBounds
  {
    if index < 0 || index >= a.count then Failure(IndexOutOfBounds)
    else if index >= |a.nodes.content| then Failure(IndexOutOfBounds)
    else Success(ValueAt(a.nodes.content[index], a.modificationCount))
  }

  /** iterator: the values of the slots written at or below the version's step. */
  function Iterator<T>(a: PersistentArray<T>): (r: seq<Option<T>>)
    reads a.nodes
    ensures |r| == RecalculateCount(a.nodes.content, a.modificationCount)
  {
    Visible(a.nodes.content, a.modificationCount)
  }

  /**
   * undo: the same handle at the start step, else the version one step back (with start
   * step 0), counting the slots written by then.
   */
  function Undo<T>(a: PersistentArray<T>): (r: PersistentArray<T>)
    reads a.nodes
    ensures a.modificationCount == a.startModificationCount ==> r == a
    ensures a.modificationCount != a.startModificationCount ==>
      r.nodes == a.nodes && r.modificationCount == a.modificationCount - 1 &&
      r.startModificationCount == 0 &&
      r.count == |Visible(a.nodes.content, a.modificationCount - 1)|
  {
    if a.modificationCount == a.startModificationCount then a
    else Versioned(a.nodes, RecalculateCount(a.nodes.content, a.modificationCount - 1), a.modificationCount - 1)
  }

  /** redo: the same handle at the storage's counter, else the version one step on. */
  function Redo<T>(a: PersistentArray<T>): (r: PersistentArray<T>)
    reads a.nodes, a.nodes.maxModification
    ensures a.modificationCount == a.nodes.maxModification.value ==> r == a
    ensures a.modificationCount != a.nodes.maxModification.value ==>
      r.nodes == a.nodes && r.modificationCount == a.modificationCount + 1 &&
      r.startModificationCount == 0 &&
      r.count == |Visible(a.nodes.content, a.modificationCount + 1)|
  {
    if a.modificationCount == a.nodes.maxModification.value then a
    else Versioned(a.nodes, RecalculateCount(a.nodes.content, a.modificationCount + 1), a.modificationCount + 1)
  }
}
