/**
 * The fat node (persistence/base/PersistentNode.java): one cell whose every value is kept,
 * keyed by the modification step that wrote it. A read at a step sees the value written at
 * the greatest step not above it.
 */
module FatNode {
  import opened Wrappers
  import opened RedBlackTree

  /** The abstract value of a fat node: the value written at each step. */
  type History<V> = map<int, V>

  /** The history of a node created at `step` holding `value`. */
  function Created<V>(step: int, value: V): (h: History<V>)
    ensures step in h && h[step] == value && |h| == 1
  {
    map[step := value]
  }

  // ---------------------------------------------------------------------------------------
  // Reads of a history

  /** A read at the step of the latest write at or below it returns that write. */
  lemma ReadOfUpdate<V>(h: History<V>, step: int, value: V, at: int)
    ensures NearestLess(h[step := value], at) ==
      if at < step || exists k :: k in h && step < k <= at then NearestLess(h, at)
      else Some(value)
  {
    var h' := h[step := value];
    if at < step {
      if exists k :: k in h && k <= at {
        FloorKeyExists(h, at);
        var f :| IsFloorKey(h, at, f);
        assert IsFloorKey(h', at, f);
        NearestLessAt(h', at, f);
        NearestLessAt(h, at, f);
      } else {
        assert forall k :: k in h' ==> at < k;
      }
    } else if exists k :: k in h && step < k <= at {
      FloorKeyExists(h, at);
      var f :| IsFloorKey(h, at, f);
      var k :| k in h && step < k <= at;
      assert k <= f;
      assert IsFloorKey(h', at, f);
      NearestLessAt(h', at, f);
      NearestLessAt(h, at, f);
    } else {
      assert IsFloorKey(h', at, step);
      NearestLessAt(h', at, step);
    }
  }

  /** A write is seen at its own step. */
  lemma ReadOwnWrite<V>(h: History<V>, step: int, value: V)
    ensures NearestLess(h[step := value], step) == Some(value)
  {
    ReadOfUpdate(h, step, value, step);
  }

  /** Persistence: a write at a later step leaves every earlier version as it was. */
  lemma EarlierVersionsKept<V>(h: History<V>, step: int, value: V, at: int)
    requires at < step
    ensures NearestLess(h[step := value], at) == NearestLess(h, at)
  {
    ReadOfUpdate(h, step, value, at);
  }

  /** A write after every recorded step is seen at every step from its own on. */
  lemma LatestWriteSeen<V>(h: History<V>, step: int, value: V, at: int)
    requires forall k :: k in h ==> k < step
    requires step <= at
    ensures NearestLess(h[step := value], at) == Some(value)
  {
    ReadOfUpdate(h, step, value, at);
  }

  /** Past the latest write, every read sees that write. */
  lemma ReadsAfterLastWrite<V>(h: History<V>, last: int, at: int)
    requires forall k :: k in h ==> k <= last
    requires last <= at
    ensures NearestLess(h, at) == NearestLess(h, last)
  {
    if exists k :: k in h && k <= last {
      FloorKeyExists(h, last);
      var f :| IsFloorKey(h, last, f);
      assert IsFloorKey(h, at, f);
      NearestLessAt(h, at, f);
      NearestLessAt(h, last, f);
    }
  }

  /** A node created at `step` reads as nothing before it and as its value from it on. */
  lemma CreatedReads<V>(step: int, value: V, at: int)
    ensures NearestLess(Created(step, value), at) == if at < step then None else Some(value)
  {
    if step <= at {
      NearestLessAt(Created(step, value), at, step);
    }
  }

  /**
   * Three writes at increasing steps: each is seen from its step up to the next one, and
   * nothing before the first.
   */
  lemma ThreeVersions<V>(s1: int, s2: int, s3: int, a: V, b: V, c: V, at: int)
    requires s1 < s2 < s3
    ensures NearestLess(Created(s1, a)[s2 := b][s3 := c], at) ==
      if at < s1 then None
      else if at < s2 then Some(a)
      else if at < s3 then Some(b)
      else Some(c)
  {
    var h1 := Created(s1, a);
    var h2 := h1[s2 := b];
    CreatedReads(s1, a, at);
    ReadOfUpdate(h1, s2, b, at);
    ReadOfUpdate(h2, s3, c, at);
  }

  // ---------------------------------------------------------------------------------------
  // A history as a list, and cut at a step

  /** Some step of a non-empty history. */
  lemma SomeStep<V>(h: History<V>) returns (b: int)
    requires |h| != 0
    ensures b in h
  {
    if forall x :: x !in h.Keys {
      assert false;
    }
    b :| b in h.Keys;
  }

  /** A non-empty history has a latest step. */
  lemma LatestStepExists<V>(h: History<V>)
    requires |h| != 0
    ensures exists k :: k in h && forall j :: j in h ==> j <= k
  {
    var b := SomeStep(h);
    var k := MaxExists(h.Keys, b);
    assert k in h && forall j :: j in h ==> j <= k;
  }

  /**
   * The modifications of a fat node as its tree's toList lists them: every (step, value)
   * pair once, in increasing step order.
   */
  function Modifications<V>(h: History<V>): (r: seq<(int, V)>)
    ensures StrictlySorted(r) && MapOf(r) == h && |r| == |h|
    decreases |h|
  {
    if |h| == 0 then []
    else
      LatestStepExists(h);
      var k :| k in h && forall j :: j in h ==> j <= k;
      var rest := Modifications(h - {k});
      AppendLatest(h, k, rest);
      rest + [(k, h[k])]
  }

  /** Listing the latest step after a listing of the others lists the whole history. */
  lemma AppendLatest<V>(h: History<V>, k: int, rest: seq<(int, V)>)
    requires k in h && (forall j :: j in h ==> j <= k)
    requires StrictlySorted(rest) && MapOf(rest) == h - {k} && |rest| == |h - {k}|
    ensures StrictlySorted(rest + [(k, h[k])]) && MapOf(rest + [(k, h[k])]) == h && |rest| + 1 == |h|
  {
    forall i | 0 <= i < |rest| ensures rest[i].0 < k {
      MapOfKeys(rest, rest[i].0);
    }
    var r := rest + [(k, h[k])];
    assert r[..|r| - 1] == rest;
  }

  /** The part of a history written at or below `bound`. */
  function Restrict<V>(h: History<V>, bound: int): (r: History<V>)
    ensures forall k :: k in r <==> k in h && k <= bound
    ensures forall k :: k in r ==> r[k] == h[k]
  {
    map k | k in h && k <= bound :: h[k]
  }

  /** Cutting a history at `bound` changes no read at or below it. */
  lemma RestrictReads<V>(h: History<V>, bound: int, at: int)
    requires at <= bound
    ensures NearestLess(Restrict(h, bound), at) == NearestLess(h, at)
  {
    var r := Restrict(h, bound);
    if exists k :: k in h && k <= at {
      FloorKeyExists(h, at);
      var f :| IsFloorKey(h, at, f);
      assert IsFloorKey(r, at, f);
      NearestLessAt(r, at, f);
      NearestLessAt(h, at, f);
    } else {
      assert forall k :: k in r ==> at < k;
    }
  }

  // ---------------------------------------------------------------------------------------
  // A node holding a reference: None stands for null

  /** value(step) of one fat node: null when nothing was written at or below the step. */
  function ValueAt<V>(h: History<Option<V>>, step: int): Option<V>
  {
    match NearestLess(h, step)
    case None => None
    case Some(v) => v
  }

  /**
   * The node has a modification at or below `step`: the filter of the collections' iterators
   * and of recalculateCount.
   */
  predicate Live<V>(h: History<Option<V>>, step: int)
  {
    exists k :: k in h && k <= step
  }

  lemma ValueBelowWrite<V>(h: History<Option<V>>, step: int, x: Option<V>, at: int)
    requires at < step
    ensures ValueAt(h[step := x], at) == ValueAt(h, at)
    ensures Live(h[step := x], at) == Live(h, at)
  {
    EarlierVersionsKept(h, step, x, at);
  }

  lemma ValueOwnWrite<V>(h: History<Option<V>>, step: int, x: Option<V>)
    ensures ValueAt(h[step := x], step) == x
  {
    ReadOwnWrite(h, step, x);
  }

  /** A write at a later step leaves a node the same up to `step`. */
  lemma RestrictBelowWrite<V>(h: History<Option<V>>, step: int, x: Option<V>)
    ensures Restrict(h[step + 1 := x], step) == Restrict(h, step)
  {
  }

  // ---------------------------------------------------------------------------------------

  /** PersistentNode: the history is a red-black tree from step to value. */
  class PersistentNode<V> {
    const modifications: BinaryTree<V>

    ghost predicate Valid()
      reads this, modifications
    {
      modifications.Valid()
    }

    /** The history the tree of modifications stores. */
    ghost function History(): History<V>
      reads this, modifications
    {
      modifications.Contents()
    }

    /** A node created at `creationStep`: its one write is the initial value. */
    constructor (creationStep: int, initialValue: V)
      ensures Valid() && fresh(modifications)
      ensures History() == Created(creationStep, initialValue)
    {
      modifications := new BinaryTree();
      new;
      var _ := Update(creationStep, initialValue);
    }

    /** The value seen at `accessStep`: the latest write at or below it, if any. */
    method Value(accessStep: int) returns (r: Option<V>)
      requires Valid()
      ensures r == NearestLess(History(), accessStep)
      ensures r.None? <==> forall k :: k in History() ==> accessStep < k
    {
      r := modifications.FindNearestLess(accessStep);
    }

    /** Records `value` as written at `accessStep`; returns the node itself for chaining. */
    method Update(accessStep: int, value: V) returns (self: PersistentNode<V>)
      requires Valid()
      modifies modifications
      ensures Valid() && self == this
      ensures History() == old(History())[accessStep := value]
    {
      modifications.Insert(accessStep, value);
      self := this;
    }
  }
}
