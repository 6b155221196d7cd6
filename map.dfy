/**
 * PersistentMap (persistence/structure/map/PersistentMap.java): a red-black tree from key to
 * fat node. A write by the version at step `s` records its value at step s+1 in the key's
 * node, and a removal records null there. When the storage has moved past the handle's step,
 * the write first rebuilds a fresh tree from the entries at or below that step.
 */
module PersistentMaps {
  import opened Wrappers
  import opened RedBlackTree
  import opened FatNode
  import opened Storage
  import opened Base

  /** One key's fat node, by its history; a stored value is a reference, None for null. */
  type Cell<V> = History<Option<V>>
  /** The dictionary the storage tree holds: key to fat node. */
  type Store<V> = map<int, Cell<V>>
  type PersistentMap<V> = Handle<BinaryTree<Cell<V>>>

  /** The dictionary in the handle's storage tree. */
  ghost function StoreOf<V>(a: PersistentMap<V>): Store<V>
    reads a.nodes, a.nodes.content
  {
    a.nodes.content.Contents()
  }

  // ---------------------------------------------------------------------------------------
  // What a version sees

  /**
   * The entries a version at `step` sees: every key whose node has a modification at or
   * below the step, with the node's value then (None for a removed key).
   */
  ghost function View<V>(m: Store<V>, step: int): map<int, Option<V>>
  {
    map k | k in m && Live(m[k], step) :: ValueAt(m[k], step)
  }

  /** Every recorded modification lies at or below `step`. */
  ghost predicate Current<V>(m: Store<V>, step: int)
  {
    forall k :: k in m ==> forall s :: s in m[k] ==> s <= step
  }

  /** Up to `step` the two stores hold the same histories. */
  ghost predicate SameUpTo<V>(m: Store<V>, m': Store<V>, step: int)
  {
    (forall k :: k in m ==> k in m' && Restrict(m[k], step) == Restrict(m'[k], step)) &&
    (forall k :: k in m' && k !in m ==> !Live(m'[k], step))
  }

  /** A node is live at a step exactly when a read there finds a write. */
  lemma LiveRead<V>(h: Cell<V>, step: int)
    ensures Live(h, step) <==> NearestLess(h, step).Some?
  {
    if Live(h, step) {
      var k :| k in h && k <= step;
      assert !(step < k);
    }
  }

  /** A node live at a step stays live at every later step. */
  lemma LiveLater<V>(h: Cell<V>, at: int, step: int)
    requires at <= step
    ensures Live(h, at) ==> Live(h, step)
  {
    if Live(h, at) {
      var j :| j in h && j <= at;
      assert j <= step;
    }
  }

  /** Two stores that agree up to `step` show every version up to `step` the same entries. */
  lemma SameUpToView<V>(m: Store<V>, m': Store<V>, step: int, at: int)
    requires SameUpTo(m, m', step) && at <= step
    ensures View(m', at) == View(m, at)
  {
    var v, v' := View(m, at), View(m', at);
    forall k | k in m
      ensures Live(m'[k], at) == Live(m[k], at) && ValueAt(m'[k], at) == ValueAt(m[k], at)
    {
      RestrictReads(m[k], step, at);
      RestrictReads(m'[k], step, at);
      LiveRead(m[k], at);
      LiveRead(m'[k], at);
    }
    forall k | k in m' && k !in m ensures !Live(m'[k], at) {
      LiveLater(m'[k], at, step);
    }
    forall k ensures k in v <==> k in v' {
      if k in m' && k !in m {
        assert k !in v';
      }
    }
  }

  /** A store whose writes all lie at or below `step` reads the same at every later step. */
  lemma CurrentView<V>(m: Store<V>, step: int, at: int)
    requires Current(m, step) && step <= at
    ensures View(m, at) == View(m, step)
  {
    forall k | k in m
      ensures Live(m[k], at) == Live(m[k], step) && ValueAt(m[k], at) == ValueAt(m[k], step)
    {
      ReadsAfterLastWrite(m[k], step, at);
      LiveRead(m[k], at);
      LiveRead(m[k], step);
    }
  }

  /** Setting one key's node changes the view at that key only. */
  lemma ViewUpdate<V>(m: Store<V>, key: int, h: Cell<V>, step: int)
    ensures View(m[key := h], step) ==
      if Live(h, step) then View(m, step)[key := ValueAt(h, step)] else View(m, step) - {key}
  {
  }

  // ---------------------------------------------------------------------------------------
  // The writes, as functions of the store

  /** implAdd: the key gets a node created at step+1, replacing any node it had. */
  function Added<V>(m: Store<V>, step: int, key: int, value: Option<V>): Store<V>
  {
    m[key := Created(step + 1, value)]
  }

  /** implReplace (x = the value) and implRemove (x = null): the key's node records x at step+1. */
  function Written<V>(m: Store<V>, step: int, key: int, x: Option<V>): Store<V>
    requires key in m
  {
    m[key := m[key][step + 1 := x]]
  }

  /** implClear: every node records null at step+1; no key leaves the tree. */
  function Cleared<V>(m: Store<V>, step: int): Store<V>
  {
    map k | k in m :: m[k][step + 1 := None]
  }

  /**
   * add on a key the version does not see: the next version sees the new entry too, the
   * store stays current, and the version at `step` sees what it saw.
   */
  lemma AddView<V>(m: Store<V>, step: int, key: int, value: Option<V>)
    requires Current(m, step) && key !in View(m, step)
    ensures View(Added(m, step, key, value), step + 1) == View(m, step)[key := value]
    ensures Current(Added(m, step, key, value), step + 1)
    ensures View(Added(m, step, key, value), step) == View(m, step)
  {
    var h := Created(step + 1, value);
    var m' := Added(m, step, key, value);
    CreatedReads(step + 1, value, step + 1);
    CreatedReads(step + 1, value, step);
    LiveRead(h, step + 1);
    LiveRead(h, step);
    ViewUpdate(m, key, h, step + 1);
    ViewUpdate(m, key, h, step);
    CurrentView(m, step, step + 1);
    assert View(m, step + 1) - {key} == View(m, step);
  }

  /**
   * replace (x = the value) or remove (x = null) on a key the version sees: the next
   * version sees x at that key and nothing else changes; the version at `step` is kept.
   */
  lemma WriteView<V>(m: Store<V>, step: int, key: int, x: Option<V>)
    requires Current(m, step) && key in View(m, step)
    ensures key in m
    ensures View(Written(m, step, key, x), step + 1) == View(m, step)[key := x]
    ensures Current(Written(m, step, key, x), step + 1)
    ensures View(Written(m, step, key, x), step) == View(m, step)
  {
    var h := m[key][step + 1 := x];
    ValueOwnWrite(m[key], step + 1, x);
    LiveRead(h, step + 1);
    ViewUpdate(m, key, h, step + 1);
    CurrentView(m, step, step + 1);
    assert SameUpTo(m, Written(m, step, key, x), step) by {
      RestrictBelowWrite(m[key], step, x);
    }
    SameUpToView(m, Written(m, step, key, x), step, step);
  }

  /**
   * remove keeps the key: the next version still lists it, with null, and as many keys
   * as before, although the handle's count goes down by one.
   */
  lemma RemoveKeepsKey<V>(m: Store<V>, step: int, key: int)
    requires Current(m, step) && key in View(m, step)
    ensures key in View(Written(m, step, key, None), step + 1)
    ensures View(Written(m, step, key, None), step + 1)[key] == None
    ensures |View(Written(m, step, key, None), step + 1)| == |View(m, step)|
  {
    WriteView(m, step, key, None);
  }

  /**
   * clear keeps every key: the next version sees every key of the store, all null, and
   * the version at `step` is kept.
   */
  lemma ClearView<V>(m: Store<V>, step: int)
    ensures View(Cleared(m, step), step + 1) == map k | k in m :: None
    ensures View(Cleared(m, step), step) == View(m, step)
  {
    var c := Cleared(m, step);
    forall k | k in m ensures Live(c[k], step + 1) && ValueAt(c[k], step + 1) == None {
      ValueOwnWrite(m[k], step + 1, None);
      assert step + 1 in c[k];
    }
    assert SameUpTo(m, c, step) by {
      forall k | k in m ensures Restrict(m[k], step) == Restrict(c[k], step) {
        RestrictBelowWrite(m[k], step, None);
      }
    }
    SameUpToView(m, c, step, step);
  }

  // ---------------------------------------------------------------------------------------
  // reassembleNodes: replaying the entries at or below the handle's step

  /** What a rebuild for a version at `step` keeps: the live keys, each cut at the step. */
  ghost function Cut<V>(m: Store<V>, step: int): Store<V>
  {
    map k | k in m && Live(m[k], step) :: Restrict(m[k], step)
  }

  /** The rebuilt store is current at `step` and shows every version up to it what the old one did. */
  lemma CutView<V>(m: Store<V>, step: int, at: int)
    requires at <= step
    ensures Current(Cut(m, step), step)
    ensures View(Cut(m, step), at) == View(m, at)
  {
    var c := Cut(m, step);
    forall k | k in c ensures k in m && Restrict(c[k], step) == Restrict(m[k], step) {
    }
    SameUpToView(c, m, step, at);
  }

  /** One modification, tagged with the key of its node. */
  type Entry<V> = (int, (int, Option<V>))

  function Tagged<V>(key: int, es: seq<(int, Option<V>)>): seq<Entry<V>>
  {
    seq(|es|, i requires 0 <= i < |es| => (key, es[i]))
  }

  /** One node's entries at or below `step`, in step order, tagged with its key. */
  function NodeEntries<V>(key: int, h: Cell<V>, step: int): seq<Entry<V>>
  {
    Tagged(key, Modifications(Restrict(h, step)))
  }

  /** allModifications, over the tree's listing: node by node in key order. */
  function AllModifications<V>(l: seq<(int, Cell<V>)>, step: int): seq<Entry<V>>
  {
    if l == [] then []
    else AllModifications(l[..|l| - 1], step) + NodeEntries(l[|l| - 1].0, l[|l| - 1].1, step)
  }

  /** One replayed update: a new node for an unknown key, else a write into its node. */
  function ReplayOne<V>(m: Store<V>, e: Entry<V>): Store<V>
  {
    if e.0 in m then m[e.0 := m[e.0][e.1.0 := e.1.1]] else m[e.0 := Created(e.1.0, e.1.1)]
  }

  function Replay<V>(m: Store<V>, es: seq<Entry<V>>): Store<V>
  {
    if es == [] then m else ReplayOne(Replay(m, es[..|es| - 1]), es[|es| - 1])
  }

  lemma {:induction false} ReplayConcat<V>(m: Store<V>, a: seq<Entry<V>>, b: seq<Entry<V>>)
    ensures Replay(m, a + b) == Replay(Replay(m, a), b)
    decreases |b|
  {
    if b == [] {
      assert a + b == a;
    } else {
      assert (a + b)[..|a + b| - 1] == a + b[..|b| - 1];
      ReplayConcat(m, a, b[..|b| - 1]);
    }
  }

  /** Replaying one node's entries for a new key adds the key with exactly those entries. */
  lemma {:induction false} ReplayNode<V>(m: Store<V>, key: int, es: seq<(int, Option<V>)>)
    requires key !in m
    ensures Replay(m, Tagged(key, es)) == if es == [] then m else m[key := MapOf(es)]
    decreases |es|
  {
    if es != [] {
      var ms := Tagged(key, es);
      var p := es[..|es| - 1];
      var last := es[|es| - 1];
      assert ms[..|ms| - 1] == Tagged(key, p);
      ReplayNode(m, key, p);
      assert es == p + [last];
    }
  }

  /** Setting one key's node changes the cut at that key only. */
  lemma CutUpdate<V>(m: Store<V>, key: int, h: Cell<V>, step: int)
    ensures Cut(m[key := h], step) ==
      if Live(h, step) then Cut(m, step)[key := Restrict(h, step)] else Cut(m, step) - {key}
  {
  }

  /** A node contributes entries to the replay exactly when it is live at the step. */
  lemma NodeEntriesLive<V>(key: int, h: Cell<V>, step: int)
    ensures NodeEntries(key, h, step) == [] <==> !Live(h, step)
  {
    if Live(h, step) {
      var k :| k in h && k <= step;
      assert k in Restrict(h, step);
    } else {
      assert Restrict(h, step) == map[];
    }
  }

  /** Replaying a strictly sorted listing's entries rebuilds the cut of the dictionary it denotes. */
  lemma {:induction false} ReplayListing<V>(l: seq<(int, Cell<V>)>, step: int)
    requires StrictlySorted(l)
    ensures Replay(map[], AllModifications(l, step)) == Cut(MapOf(l), step)
  {
    if l != [] {
      var p, x := l[..|l| - 1], l[|l| - 1];
      assert l == p + [x];
      LastKeyFresh(p, x);
      ReplayListing(p, step);
      ReplayConcat(map[], AllModifications(p, step), NodeEntries(x.0, x.1, step));
      var before := Cut(MapOf(p), step);
      ReplayNode(before, x.0, Modifications(Restrict(x.1, step)));
      NodeEntriesLive(x.0, x.1, step);
      CutUpdate(MapOf(p), x.0, x.1, step);
      assert before - {x.0} == before;
    }
  }

  /** The store reassembleNodes builds for a version at `step` is the cut at that step. */
  lemma ReassembledIsCut<V>(m: Store<V>, step: int)
    ensures Replay(map[], AllModifications(Modifications(m), step)) == Cut(m, step)
  {
    ReplayListing(Modifications(m), step);
  }

  /**
   * The rebuilt counter runs ahead: reassembleNodes bumps it once per replayed entry, at
   * least once per key the version sees, on top of the version's step.
   */
  lemma {:induction false} ReplayedAtLeastLive<V>(l: seq<(int, Cell<V>)>, step: int)
    requires StrictlySorted(l)
    ensures |AllModifications(l, step)| >= |View(MapOf(l), step)|
  {
    if l != [] {
      var p, x := l[..|l| - 1], l[|l| - 1];
      assert l == p + [x];
      LastKeyFresh(p, x);
      ReplayedAtLeastLive(p, step);
      ViewUpdate(MapOf(p), x.0, x.1, step);
      assert x.0 !in View(MapOf(p), step);
      if Live(x.1, step) {
        var k :| k in x.1 && k <= step;
        assert k in Restrict(x.1, step);
        assert |NodeEntries(x.0, x.1, step)| >= 1;
      } else {
        assert View(MapOf(p), step) - {x.0} == View(MapOf(p), step);
      }
    }
  }

  // ---------------------------------------------------------------------------------------
  // The listings iterator, keySet, valueSet and recalculateCount stream over

  /** The live entries of a key-ordered listing with their values at `step`. */
  function LiveListing<V>(l: seq<(int, Cell<V>)>, step: int): seq<(int, Option<V>)>
  {
    if l == [] then []
    else
      var x := l[|l| - 1];
      LiveListing(l[..|l| - 1], step) + (if Live(x.1, step) then [(x.0, ValueAt(x.1, step))] else [])
  }

  /** Filtering the tree's listing yields the view, once per key and in key order. */
  lemma {:induction false} LiveListingView<V>(l: seq<(int, Cell<V>)>, step: int)
    requires StrictlySorted(l)
    ensures StrictlySorted(LiveListing(l, step))
    ensures MapOf(LiveListing(l, step)) == View(MapOf(l), step)
  {
    if l != [] {
      var p, x := l[..|l| - 1], l[|l| - 1];
      assert l == p + [x];
      LastKeyFresh(p, x);
      LiveListingView(p, step);
      ViewUpdate(MapOf(p), x.0, x.1, step);
      assert x.0 !in View(MapOf(p), step);
      assert View(MapOf(p), step) - {x.0} == View(MapOf(p), step);
      var q := LiveListing(p, step);
      forall i | 0 <= i < |q| ensures q[i].0 < x.0 {
        MapOfKeys(q, q[i].0);
      }
      if Live(x.1, step) {
        var y := (x.0, ValueAt(x.1, step));
        assert LiveListing(l, step) == q + [y];
        assert (q + [y])[..|q|] == q;
      } else {
        assert LiveListing(l, step) == q;
        assert MapOf(l) == MapOf(p)[x.0 := x.1];
      }
    }
  }

  // ---------------------------------------------------------------------------------------
  // The storage edits (the impl* helpers): each runs inside PersistentContent.update

  /** implAdd: a new node created at step+1 is inserted under the key. */
  method ImplAdd<V>(nodes: PersistentContent<BinaryTree<Cell<V>>>, step: int, key: int, value: Option<V>)
    requires nodes.content.Valid()
    modifies nodes, nodes.maxModification, nodes.content
    ensures nodes.content == old(nodes.content) && nodes.content.Valid()
    ensures nodes.content.Contents() == Added(old(nodes.content.Contents()), step, key, value)
    ensures nodes.maxModification.value == old(nodes.maxModification.value) + 1
  {
    var tree := nodes.content;
    tree.Insert(key, Created(step + 1, value));
    nodes.Update(tree);
  }

  /** c.get(key).update(at, x): the key's node records x at `at`, in place. */
  method UpdateNode<V>(tree: BinaryTree<Cell<V>>, key: int, at: int, x: Option<V>)
    requires tree.Valid() && key in tree.Contents()
    modifies tree
    ensures tree.Valid()
    ensures tree.Contents() == old(tree.Contents())[key := old(tree.Contents())[key][at := x]]
  {
    var node := tree.Get(key);
    tree.Insert(key, node.value[at := x]);
  }

  /**
   * implReplace (x = the value) and implRemove (x = null). The key must be in the tree;
   * the Java code dereferences its node without a check.
   */
  method ImplWrite<V>(nodes: PersistentContent<BinaryTree<Cell<V>>>, step: int, key: int, x: Option<V>)
    requires nodes.content.Valid() && key in nodes.content.Contents()
    modifies nodes, nodes.maxModification, nodes.content
    ensures nodes.content == old(nodes.content) && nodes.content.Valid()
    ensures nodes.content.Contents() == Written(old(nodes.content.Contents()), step, key, x)
    ensures nodes.maxModification.value == old(nodes.maxModification.value) + 1
  {
    var tree := nodes.content;
    UpdateNode(tree, key, step + 1, x);
    nodes.Update(tree);
  }

  /** The nodes under `keys` record null at step+1; the others are as they were. */
  ghost function ClearedOn<V>(m: Store<V>, keys: set<int>, step: int): Store<V>
  {
    map k | k in m :: if k in keys then m[k][step + 1 := None] else m[k]
  }

  /** The keys of a listing. */
  ghost function KeysOf<V>(l: seq<(int, V)>): set<int>
  {
    set e | e in l :: e.0
  }

  /** One more node of the listing cleared. */
  lemma ClearStep<V>(m0: Store<V>, l: seq<(int, Cell<V>)>, i: int, step: int)
    requires 0 <= i < |l| && l[i].0 in m0 && m0[l[i].0] == l[i].1
    ensures ClearedOn(m0, KeysOf(l[..i]), step)[l[i].0 := l[i].1[step + 1 := None]] ==
      ClearedOn(m0, KeysOf(l[..i + 1]), step)
  {
    assert l[..i + 1] == l[..i] + [l[i]];
    assert KeysOf(l[..i + 1]) == KeysOf(l[..i]) + {l[i].0};
  }

  /** Once every key of the store is cleared, the store is the cleared store. */
  lemma ClearedEvery<V>(m0: Store<V>, l: seq<(int, Cell<V>)>, step: int)
    requires MapOf(l) == m0
    ensures ClearedOn(m0, KeysOf(l[..|l|]), step) == Cleared(m0, step)
  {
    assert l[..|l|] == l;
    forall k | k in m0 ensures k in KeysOf(l) {
      MapOfKeys(l, k);
    }
  }

  /** The loop of implClear: null is written at step+1 into every node of the tree's listing. */
  method ClearNodes<V>(tree: BinaryTree<Cell<V>>, step: int)
    requires tree.Valid()
    modifies tree
    ensures tree.Valid() && tree.Contents() == Cleared(old(tree.Contents()), step)
  {
    ghost var m0 := tree.Contents();
    var l := tree.ToList();
    for i := 0 to |l|
      invariant tree.Valid() && tree.Contents() == ClearedOn(m0, KeysOf(l[..i]), step)
    {
      assert l[i] in l;
      ClearNode(tree, m0, l, i, step);
    }
    ClearedEvery(m0, l, step);
  }

  /** One round of implClear's loop: null written at step+1 into the node of the i-th key. */
  method ClearNode<V>(tree: BinaryTree<Cell<V>>, ghost m0: Store<V>, l: seq<(int, Cell<V>)>, i: int, step: int)
    requires 0 <= i < |l| && l[i].0 in m0 && m0[l[i].0] == l[i].1
    requires tree.Valid() && tree.Contents() == ClearedOn(m0, KeysOf(l[..i]), step)
    modifies tree
    ensures tree.Valid() && tree.Contents() == ClearedOn(m0, KeysOf(l[..i + 1]), step)
  {
    ClearStep(m0, l, i, step);
    tree.Insert(l[i].0, l[i].1[step + 1 := None]);
  }

  /** implClear: the loop runs inside update. */
  method ImplClear<V>(nodes: PersistentContent<BinaryTree<Cell<V>>>, step: int)
    requires nodes.content.Valid()
    modifies nodes, nodes.maxModification, nodes.content
    ensures nodes.content == old(nodes.content) && nodes.content.Valid()
    ensures nodes.content.Contents() == Cleared(old(nodes.content.Contents()), step)
    ensures nodes.maxModification.value == old(nodes.maxModification.value) + 1
  {
    var tree := nodes.content;
    ClearNodes(tree, step);
    nodes.Update(tree);
  }

  /** One replayed entry: c.get(key), then a new node or node.update. */
  method ReplayEntry<V>(tree: BinaryTree<Cell<V>>, e: Entry<V>)
    requires tree.Valid()
    modifies tree
    ensures tree.Valid() && tree.Contents() == ReplayOne(old(tree.Contents()), e)
  {
    var key, step, value := e.0, e.1.0, e.1.1;
    var node := tree.Get(key);
    if node.None? {
      tree.Insert(key, Created(step, value));
    } else {
      tree.Insert(key, node.value[step := value]);
    }
  }

  lemma ReplayStep<V>(all: seq<Entry<V>>, j: int)
    requires 0 <= j < |all|
    ensures Replay(map[], all[..j + 1]) == ReplayOne(Replay(map[], all[..j]), all[j])
  {
    assert all[..j + 1][..j] == all[..j];
  }

  /** The first loop of reassembleNodes: every node's entries at or below `step`, node by node. */
  method CollectModifications<V>(l: seq<(int, Cell<V>)>, step: int) returns (all: seq<Entry<V>>)
    ensures all == AllModifications(l, step)
  {
    all := [];
    for i := 0 to |l|
      invariant all == AllModifications(l[..i], step)
    {
      assert l[..i + 1][..i] == l[..i];
      all := all + NodeEntries(l[i].0, l[i].1, step);
    }
    assert l[..|l|] == l;
  }

  /** The second loop of reassembleNodes: each entry replayed through update on the new content. */
  method ReplayAll<V>(res: PersistentContent<BinaryTree<Cell<V>>>, all: seq<Entry<V>>)
    requires res.content.Valid() && res.content.Contents() == map[]
    modifies res, res.maxModification, res.content
    ensures res.content == old(res.content) && res.content.Valid()
    ensures res.content.Contents() == Replay(map[], all)
    ensures res.maxModification.value == old(res.maxModification.value) + |all|
  {
    var tree := res.content;
    for j := 0 to |all|
      invariant res.content == tree && tree.Valid()
      invariant tree.Contents() == Replay(map[], all[..j])
      invariant res.maxModification.value == old(res.maxModification.value) + j
    {
      ReplayStep(all, j);
      ReplayEntry(tree, all[j]);
      res.Update(tree);
    }
    assert all[..|all|] == all;
  }

  /** The stored entries at or below `step`, in the order reassembleNodes replays them. */
  method StoredModifications<V>(a: PersistentMap<V>, step: int) returns (all: seq<Entry<V>>)
    requires a.nodes.content.Valid()
    ensures all == AllModifications(Modifications(StoreOf(a)), step)
  {
    var l := a.nodes.content.ToList();
    SortedListingUnique(l, Modifications(StoreOf(a)));
    all := CollectModifications(l, step);
  }

  /**
   * reassembleNodes: a fresh tree and a fresh counter starting at the handle's step; every
   * entry at or below that step is replayed through update, which bumps the counter.
   */
  method ReassembleNodes<V>(a: PersistentMap<V>) returns (res: PersistentContent<BinaryTree<Cell<V>>>)
    requires a.nodes.content.Valid()
    ensures fresh(res) && fresh(res.maxModification) && fresh(res.content)
    ensures res.content.Valid()
    ensures res.content.Contents() == Cut(StoreOf(a), a.modificationCount)
    ensures res.maxModification.value ==
      a.modificationCount + |AllModifications(Modifications(StoreOf(a)), a.modificationCount)|
  {
    var tree := new BinaryTree<Cell<V>>();
    var counter := new ModificationCount(a.modificationCount);
    res := new PersistentContent(tree, counter);
    var all := StoredModifications(a, a.modificationCount);
    ReplayAll(res, all);
    ReassembledIsCut(StoreOf(a), a.modificationCount);
  }

  // ---------------------------------------------------------------------------------------
  // The versions

  /** new PersistentMap(): an empty tree with its own counter at 0, and version 0. */
  method NewMap<V>() returns (a: PersistentMap<V>)
    ensures fresh(a.nodes) && fresh(a.nodes.maxModification) && fresh(a.nodes.content)
    ensures a.nodes.content.Valid() && StoreOf(a) == map[] && a.nodes.maxModification.value == 0
    ensures a == Initial(a.nodes)
  {
    var tree := new BinaryTree<Cell<V>>();
    var counter := new ModificationCount(0);
    var nodes := new PersistentContent(tree, counter);
    a := Initial(nodes);
  }

  /** The store a write by `a` edits: the shared one, or its cut at `a`'s step when behind. */
  ghost function WriteBase<V>(a: PersistentMap<V>): Store<V>
    reads a.nodes, a.nodes.maxModification, a.nodes.content
  {
    if Behind(a) then Cut(StoreOf(a), a.modificationCount) else StoreOf(a)
  }

  /** The counter of the storage a write by `a` edits, before the write's own update. */
  ghost function WriteCounter<V>(a: PersistentMap<V>): int
    reads a.nodes, a.nodes.maxModification, a.nodes.content
  {
    if Behind(a) then a.modificationCount + |AllModifications(Modifications(StoreOf(a)), a.modificationCount)|
    else a.nodes.maxModification.value
  }

  /** `r` is a version at `step` holding `count` elements over `store`, its storage counter at `counter`. */
  ghost predicate Landed<V>(r: PersistentMap<V>, count: int, step: int, store: Store<V>, counter: int)
    reads r.nodes, r.nodes.maxModification, r.nodes.content
  {
    r == Versioned(r.nodes, count, step) && r.nodes.content.Valid() && StoreOf(r) == store &&
    r.nodes.maxModification.value == counter
  }

  /**
   * The storage a write by `a` returns: a fresh rebuilt one, the shared one left as it was,
   * when the storage had moved past `a`; else the shared one.
   */
  twostate predicate Branched<V>(a: PersistentMap<V>, new r: PersistentMap<V>)
    reads a.nodes, a.nodes.maxModification, a.nodes.content, r.nodes
  {
    (old(Behind(a)) ==>
      fresh(r.nodes) && fresh(r.nodes.maxModification) && fresh(r.nodes.content) &&
      unchanged(a.nodes) && unchanged(a.nodes.maxModification) && unchanged(a.nodes.content)) &&
    (!old(Behind(a)) ==> r.nodes == a.nodes && r.nodes.content == old(a.nodes.content))
  }

  /**
   * The branch every write starts with: the shared storage, or a rebuild at `a`'s step when
   * the storage counter is past it.
   */
  method WriteTarget<V>(a: PersistentMap<V>) returns (target: PersistentContent<BinaryTree<Cell<V>>>)
    requires a.nodes.content.Valid()
    ensures target.content.Valid()
    ensures target.content.Contents() == WriteBase(a) && target.maxModification.value == WriteCounter(a)
    ensures Behind(a) ==> fresh(target) && fresh(target.maxModification) && fresh(target.content)
    ensures !Behind(a) ==> target == a.nodes
  {
    if a.nodes.maxModification.value > a.modificationCount {
      target := ReassembleNodes(a);
    } else {
      target := a.nodes;
    }
  }

  /** The guard of add, remove and replace: the key's node has a modification at or below the step. */
  method Seen<V>(a: PersistentMap<V>, key: int) returns (b: bool)
    requires a.nodes.content.Valid()
    ensures b <==> key in View(StoreOf(a), a.modificationCount)
  {
    var node := a.nodes.content.Get(key);
    b := node.Some? && Live(node.value, a.modificationCount);
  }

  /**
   * add: rejects a key the version sees; otherwise the key gets a new node at step+1 and
   * the count goes up by one.
   */
  method Add<V>(a: PersistentMap<V>, key: int, value: Option<V>) returns (r: Result<PersistentMap<V>>)
    requires a.nodes.content.Valid()
    modifies a.nodes, a.nodes.maxModification, a.nodes.content
    ensures old(key in View(StoreOf(a), a.modificationCount)) ==>
      r == Failure(IllegalArgument) && unchanged(a.nodes) && unchanged(a.nodes.maxModification) && unchanged(a.nodes.content)
    ensures old(key !in View(StoreOf(a), a.modificationCount)) ==>
      r.Success? &&
      Landed(r.value, a.count + 1, a.modificationCount + 1, Added(old(WriteBase(a)), a.modificationCount, key, value),
             old(WriteCounter(a)) + 1)
    ensures r.Success? ==> Branched(a, r.value)
  {
    var seen := Seen(a, key);
    if seen {
      return Failure(IllegalArgument);
    }
    var added := AddUnseen(a, key, value);
    r := Success(added);
  }

  /** The part of add after its guard. */
  method AddUnseen<V>(a: PersistentMap<V>, key: int, value: Option<V>) returns (r: PersistentMap<V>)
    requires a.nodes.content.Valid()
    modifies a.nodes, a.nodes.maxModification, a.nodes.content
    ensures Landed(r, a.count + 1, a.modificationCount + 1, Added(old(WriteBase(a)), a.modificationCount, key, value),
                   old(WriteCounter(a)) + 1)
    ensures Branched(a, r)
  {
    var target := WriteTarget(a);
    ImplAdd(target, a.modificationCount, key, value);
    r := Versioned(target, a.count + 1, a.modificationCount + 1);
  }

  /** A key the version sees is in the store its write edits. */
  lemma SeenInWriteBase<V>(m: Store<V>, step: int, behind: bool, key: int)
    requires key in View(m, step)
    ensures key in (if behind then Cut(m, step) else m)
  {
  }

  /**
   * remove: the same handle for a key the version does not see; otherwise null is written
   * into the key's node at step+1 and the count goes down by one.
   */
  method Remove<V>(a: PersistentMap<V>, key: int) returns (r: PersistentMap<V>)
    requires a.nodes.content.Valid()
    modifies a.nodes, a.nodes.maxModification, a.nodes.content
    ensures old(key !in View(StoreOf(a), a.modificationCount)) ==>
      r == a && unchanged(a.nodes) && unchanged(a.nodes.maxModification) && unchanged(a.nodes.content)
    ensures old(key in View(StoreOf(a), a.modificationCount)) ==>
      key in old(WriteBase(a)) &&
      Landed(r, a.count - 1, a.modificationCount + 1, Written(old(WriteBase(a)), a.modificationCount, key, None),
             old(WriteCounter(a)) + 1)
    ensures old(key in View(StoreOf(a), a.modificationCount)) ==> Branched(a, r)
  {
    var seen := Seen(a, key);
    if !seen {
      return a;
    }
    SeenInWriteBase(StoreOf(a), a.modificationCount, Behind(a), key);
    var target := WriteTarget(a);
    ImplWrite(target, a.modificationCount, key, None);
    r := Versioned(target, a.count - 1, a.modificationCount + 1);
  }

  /** clear: null written into every node at step+1, count 0. */
  method Clear<V>(a: PersistentMap<V>) returns (r: PersistentMap<V>)
    requires a.nodes.content.Valid()
    modifies a.nodes, a.nodes.maxModification, a.nodes.content
    ensures Landed(r, 0, a.modificationCount + 1, Cleared(old(WriteBase(a)), a.modificationCount),
                   old(WriteCounter(a)) + 1)
    ensures Branched(a, r)
  {
    var target := WriteTarget(a);
    ImplClear(target, a.modificationCount);
    r := Versioned(target, 0, a.modificationCount + 1);
  }

  /**
   * replace: rejects a key the version does not see; otherwise the value is written into
   * the key's node at step+1 and the count is kept.
   */
  method Replace<V>(a: PersistentMap<V>, key: int, value: Option<V>) returns (r: Result<PersistentMap<V>>)
    requires a.nodes.content.Valid()
    modifies a.nodes, a.nodes.maxModification, a.nodes.content
    ensures old(key !in View(StoreOf(a), a.modificationCount)) ==>
      r == Failure(IllegalArgument) && unchanged(a.nodes) && unchanged(a.nodes.maxModification) && unchanged(a.nodes.content)
    ensures old(key in View(StoreOf(a), a.modificationCount)) ==>
      r.Success? && key in old(WriteBase(a)) &&
      Landed(r.value, a.count, a.modificationCount + 1, Written(old(WriteBase(a)), a.modificationCount, key, value),
             old(WriteCounter(a)) + 1)
    ensures r.Success? ==> Branched(a, r.value)
  {
    var seen := Seen(a, key);
    if !seen {
      return Failure(IllegalArgument);
    }
    SeenInWriteBase(StoreOf(a), a.modificationCount, Behind(a), key);
    var target := WriteTarget(a);
    ImplWrite(target, a.modificationCount, key, value);
    r := Success(Versioned(target, a.count, a.modificationCount + 1));
  }

  /** get: the value the version sees under the key; null for a key it does not see. */
  method Get<V>(a: PersistentMap<V>, key: int) returns (r: Option<V>)
    requires a.nodes.content.Valid()
    ensures key in View(StoreOf(a), a.modificationCount) ==> r == View(StoreOf(a), a.modificationCount)[key]
    ensures key !in View(StoreOf(a), a.modificationCount) ==> r == None
  {
    var node := a.nodes.content.Get(key);
    if node.None? {
      return None;
    }
    r := ValueAt(node.value, a.modificationCount);
    LiveRead(node.value, a.modificationCount);
  }

  /** Every entry of the listing holds a non-null value. */
  predicate NoNull<V>(l: seq<(int, Option<V>)>)
  {
    forall i :: 0 <= i < |l| ==> l[i].1.Some?
  }

  /** The entries with their values dereferenced, as `Map.entry` builds them. */
  function Unwrap<V>(l: seq<(int, Option<V>)>): (r: seq<(int, V)>)
    requires NoNull(l)
    ensures |r| == |l| && forall i :: 0 <= i < |l| ==> l[i] == (r[i].0, Some(r[i].1))
  {
    seq(|l|, i requires 0 <= i < |l| && NoNull(l) => (l[i].0, l[i].1.value))
  }

  /** Some key of the dictionary holds null. */
  ghost predicate HasNull<V>(m: map<int, Option<V>>)
  {
    exists k :: k in m && m[k].None?
  }

  /** On a sorted listing, a null value shows up as a null in the dictionary it lists. */
  lemma NullInListing<V>(l: seq<(int, Option<V>)>)
    requires StrictlySorted(l)
    ensures NoNull(l) <==> !HasNull(MapOf(l))
  {
    if !NoNull(l) {
      var i :| 0 <= i < |l| && l[i].1.None?;
      EntryLookup(l, i);
    }
    if HasNull(MapOf(l)) {
      var m := MapOf(l);
      var k :| k in m && m[k].None?;
      MapOfKeys(l, k);
      var e :| e in l && e.0 == k;
      var i :| 0 <= i < |l| && l[i] == e;
      EntryLookup(l, i);
    }
  }

  /** Dereferencing a sorted listing keeps it sorted and keeps every key with its value. */
  lemma {:induction false} UnwrapView<V>(l: seq<(int, Option<V>)>)
    requires StrictlySorted(l) && NoNull(l)
    ensures StrictlySorted(Unwrap(l))
    ensures MapOf(Unwrap(l)).Keys == MapOf(l).Keys
    ensures forall k :: k in MapOf(l) ==> MapOf(l)[k] == Some(MapOf(Unwrap(l))[k])
    decreases |l|
  {
    var u := Unwrap(l);
    if l != [] {
      var n := |l| - 1;
      assert Unwrap(l[..n]) == u[..n];
      UnwrapView(l[..n]);
      assert MapOf(u) == MapOf(u[..n])[u[n].0 := u[n].1];
    }
  }

  /**
   * iterator: the entries the version sees, in key order, once each. `Map.entry` refuses a
   * null value, so a version that sees a removed or cleared key throws.
   */
  method Iterator<V>(a: PersistentMap<V>) returns (r: Result<seq<(int, V)>>)
    requires a.nodes.content.Valid()
    ensures r.Failure? <==> HasNull(View(StoreOf(a), a.modificationCount))
    ensures r.Failure? ==> r.error == NullPointer
    ensures r.Success? ==>
      StrictlySorted(r.value) && MapOf(r.value).Keys == View(StoreOf(a), a.modificationCount).Keys &&
      forall k :: k in View(StoreOf(a), a.modificationCount) ==>
        View(StoreOf(a), a.modificationCount)[k] == Some(MapOf(r.value)[k])
  {
    var l := a.nodes.content.ToList();
    var live := LiveListing(l, a.modificationCount);
    LiveListingView(l, a.modificationCount);
    NullInListing(live);
    if exists i :: 0 <= i < |live| && live[i].1.None? {
      return Failure(NullPointer);
    }
    UnwrapView(live);
    r := Success(Unwrap(live));
  }

  /** keySet: the keys the version sees, removed ones included. */
  method KeySet<V(==)>(a: PersistentMap<V>) returns (r: set<int>)
    requires a.nodes.content.Valid()
    ensures r == View(StoreOf(a), a.modificationCount).Keys
  {
    var l := a.nodes.content.ToList();
    var entries := LiveListing(l, a.modificationCount);
    LiveListingView(l, a.modificationCount);
    r := set e | e in entries :: e.0;
    forall k | k in View(StoreOf(a), a.modificationCount) ensures k in r {
      MapOfKeys(entries, k);
    }
    forall k | k in r ensures k in View(StoreOf(a), a.modificationCount) {
      MapOfKeys(entries, k);
    }
  }

  /** valueSet: the values the version sees, null for removed keys (`toSet` accepts null). */
  method ValueSet<V(==)>(a: PersistentMap<V>) returns (r: set<Option<V>>)
    requires a.nodes.content.Valid()
    ensures r == View(StoreOf(a), a.modificationCount).Values
  {
    var l := a.nodes.content.ToList();
    var entries := LiveListing(l, a.modificationCount);
    LiveListingView(l, a.modificationCount);
    r := set e | e in entries :: e.1;
    var view := View(StoreOf(a), a.modificationCount);
    forall v | v in view.Values ensures v in r {
      if forall k :: k in view ==> view[k] != v {
        assert false;
      }
      var k :| k in view && view[k] == v;
      MapOfKeys(entries, k);
      var e :| e in entries && e.0 == k;
      var i :| 0 <= i < |entries| && entries[i] == e;
      EntryLookup(entries, i);
    }
    forall v | v in r ensures v in view.Values {
      var e :| e in entries && e.1 == v;
      var i :| 0 <= i < |entries| && entries[i] == e;
      EntryLookup(entries, i);
    }
  }

  /** recalculateCount: how many keys a version at `step` sees. */
  method RecalculateCount<V>(a: PersistentMap<V>, step: int) returns (n: int)
    requires a.nodes.content.Valid()
    ensures n == |View(StoreOf(a), step)|
  {
    var l := a.nodes.content.ToList();
    var live := LiveListing(l, step);
    n := |live|;
    LiveListingView(l, step);
    SortedMapSize(live);
  }

  /**
   * undo: the same handle at the start step, else the version one step back (start step
   * 0), counting the keys it sees.
   */
  method Undo<V>(a: PersistentMap<V>) returns (r: PersistentMap<V>)
    requires a.nodes.content.Valid()
    ensures a.modificationCount == a.startModificationCount ==> r == a
    ensures a.modificationCount != a.startModificationCount ==>
      r == Versioned(a.nodes, |View(StoreOf(a), a.modificationCount - 1)|, a.modificationCount - 1)
  {
    if a.modificationCount == a.startModificationCount {
      return a;
    }
    var n := RecalculateCount(a, a.modificationCount - 1);
    r := Versioned(a.nodes, n, a.modificationCount - 1);
  }

  /** redo: the same handle at the storage's counter, else the version one step on. */
  method Redo<V>(a: PersistentMap<V>) returns (r: PersistentMap<V>)
    requires a.nodes.content.Valid()
    ensures a.modificationCount == a.nodes.maxModification.value ==> r == a
    ensures a.modificationCount != a.nodes.maxModification.value ==>
      r == Versioned(a.nodes, |View(StoreOf(a), a.modificationCount + 1)|, a.modificationCount + 1)
  {
    if a.modificationCount == a.nodes.maxModification.value {
      return a;
    }
    var n := RecalculateCount(a, a.modificationCount + 1);
    r := Versioned(a.nodes, n, a.modificationCount + 1);
  }
}
