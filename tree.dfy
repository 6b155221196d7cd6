/**
 * The red-black search tree that indexes every fat node by step
 * (persistence/base/tree/BinaryTree.java and Node.java).
 *
 * A node is a value of `Tree<V>`; a node's ordering hash is its integer key (the hash of a
 * Java Integer is the integer itself).  The parent links of the Java nodes are represented
 * by a zipper: a focused subtree together with the path of frames that lead from its parent
 * up to the root.  `Plug(focus, path)` rebuilds the whole tree, so walking to a child,
 * reading a parent and rotating in place are all operations on (focus, path).
 */
module RedBlackTree {
  import opened Wrappers

  datatype Color = Red | Black

  datatype Tree<V> =
    | Leaf
    | Node(colour: Color, key: int, data: V, left: Tree<V>, right: Tree<V>)

  function Size<V>(t: Tree<V>): nat
  {
    match t
    case Leaf => 0
    case Node(_, _, _, l, r) => Size(l) + 1 + Size(r)
  }

  /** The (key, data) pairs of a tree in in-order (the order `toList` visits them). */
  function Elements<V>(t: Tree<V>): seq<(int, V)>
  {
    match t
    case Leaf => []
    case Node(_, k, v, l, r) => Elements(l) + [(k, v)] + Elements(r)
  }

  /** The dictionary a sequence of pairs denotes; a later pair for a key wins. */
  function MapOf<V>(s: seq<(int, V)>): map<int, V>
    decreases |s|
  {
    if s == [] then map[] else MapOf(s[..|s| - 1])[s[|s| - 1].0 := s[|s| - 1].1]
  }

  /** The dictionary a tree stores. */
  ghost function AsMap<V>(t: Tree<V>): map<int, V>
  {
    MapOf(Elements(t))
  }

  ghost predicate StrictlySorted<V>(s: seq<(int, V)>)
  {
    forall i, j :: 0 <= i < j < |s| ==> s[i].0 < s[j].0
  }

  /** The search-tree property: smaller hashes to the left, larger to the right. */
  ghost predicate Ordered<V>(t: Tree<V>)
  {
    StrictlySorted(Elements(t))
  }

  predicate IsRed<V>(t: Tree<V>)
  {
    t.Node? && t.colour == Red
  }

  /** No red node has a red child. */
  ghost predicate NoRedRed<V>(t: Tree<V>)
  {
    match t
    case Leaf => true
    case Node(c, _, _, l, r) =>
      (c == Red ==> !IsRed(l) && !IsRed(r)) && NoRedRed(l) && NoRedRed(r)
  }

  ghost function BlackHeight<V>(t: Tree<V>): nat
  {
    match t
    case Leaf => 0
    case Node(c, _, _, l, _) => BlackHeight(l) + (if c == Black then 1 else 0)
  }

  /** Every path from a node down to a leaf crosses the same number of black nodes. */
  ghost predicate Balanced<V>(t: Tree<V>)
  {
    match t
    case Leaf => true
    case Node(_, _, _, l, r) => BlackHeight(l) == BlackHeight(r) && Balanced(l) && Balanced(r)
  }

  ghost predicate IsRedBlack<V>(t: Tree<V>)
  {
    Ordered(t) && NoRedRed(t) && Balanced(t) && !IsRed(t)
  }

  /** Two trees with the same nodes, colours and links, whatever data the nodes hold. */
  ghost predicate SameShape<V>(a: Tree<V>, b: Tree<V>)
  {
    match a
    case Leaf => b.Leaf?
    case Node(c, k, _, l, r) =>
      b.Node? && b.colour == c && b.key == k && SameShape(l, b.left) && SameShape(r, b.right)
  }

  // ---------------------------------------------------------------------------------------
  // Sequences of pairs

  lemma {:induction false} MapOfAppend<V>(a: seq<(int, V)>, b: seq<(int, V)>)
    ensures MapOf(a + b) == MapOf(a) + MapOf(b)
    decreases |b|
  {
    if b == [] {
      assert a + b == a;
    } else {
      var n := |b| - 1;
      assert (a + b)[..|a + b| - 1] == a + b[..n];
      assert (a + b)[|a + b| - 1] == b[n];
      MapOfAppend(a, b[..n]);
    }
  }

  lemma {:induction false} MapOfKeys<V>(s: seq<(int, V)>, k: int)
    ensures k in MapOf(s) <==> exists e :: e in s && e.0 == k
    decreases |s|
  {
    if s != [] {
      var n := |s| - 1;
      MapOfKeys(s[..n], k);
      assert s == s[..n] + [s[n]];
      if k != s[n].0 && exists e :: e in s && e.0 == k {
        var e :| e in s && e.0 == k;
        assert e in s[..n];
      }
    }
  }

  /** The last key of a strictly sorted listing is above every key before it. */
  lemma LastKeyFresh<V>(p: seq<(int, V)>, x: (int, V))
    requires StrictlySorted(p + [x])
    ensures StrictlySorted(p)
    ensures forall k :: k in MapOf(p) ==> k < x.0
    ensures x.0 !in MapOf(p)
  {
    var r := p + [x];
    assert forall i :: 0 <= i < |p| ==> r[i] == p[i];
    forall k | k in MapOf(p) ensures k < x.0 {
      MapOfKeys(p, k);
      var e :| e in p && e.0 == k;
      var i :| 0 <= i < |p| && p[i] == e;
      assert r[i] == e && r[|p|] == x;
    }
  }

  /** A strictly sorted listing has one pair per key of the map it denotes. */
  lemma {:induction false} SortedMapSize<V>(r: seq<(int, V)>)
    requires StrictlySorted(r)
    ensures |MapOf(r)| == |r|
    decreases |r|
  {
    if r != [] {
      assert r == r[..|r| - 1] + [r[|r| - 1]];
      LastKeyFresh(r[..|r| - 1], r[|r| - 1]);
      SortedMapSize(r[..|r| - 1]);
    }
  }

  /** A map has exactly one strictly sorted listing. */
  lemma {:induction false} SortedListingUnique<V>(r1: seq<(int, V)>, r2: seq<(int, V)>)
    requires StrictlySorted(r1) && StrictlySorted(r2) && MapOf(r1) == MapOf(r2)
    ensures r1 == r2
    decreases |r1|
  {
    SortedMapSize(r1);
    SortedMapSize(r2);
    if r1 != [] {
      var p1, p2 := r1[..|r1| - 1], r2[..|r2| - 1];
      SameLast(r1, r2);
      SortedListingUnique(p1, p2);
      assert r1 == p1 + [r1[|r1| - 1]] && r2 == p2 + [r2[|r2| - 1]];
    }
  }

  /** Two strictly sorted listings of one map end in the same pair and agree before it. */
  lemma SameLast<V>(r1: seq<(int, V)>, r2: seq<(int, V)>)
    requires StrictlySorted(r1) && StrictlySorted(r2) && MapOf(r1) == MapOf(r2) && r1 != [] && r2 != []
    ensures r1[|r1| - 1] == r2[|r2| - 1]
    ensures StrictlySorted(r1[..|r1| - 1]) && StrictlySorted(r2[..|r2| - 1])
    ensures MapOf(r1[..|r1| - 1]) == MapOf(r2[..|r2| - 1])
  {
    LastIsGreatest(r1);
    LastIsGreatest(r2);
    assert r1[|r1| - 1].0 == r2[|r2| - 1].0;
    LastRemoved(r1);
    LastRemoved(r2);
  }

  /** The last key of a strictly sorted listing is the greatest key of its map. */
  lemma LastIsGreatest<V>(r: seq<(int, V)>)
    requires StrictlySorted(r) && r != []
    ensures r[|r| - 1].0 in MapOf(r) && MapOf(r)[r[|r| - 1].0] == r[|r| - 1].1
    ensures forall k :: k in MapOf(r) ==> k <= r[|r| - 1].0
  {
    forall k | k in MapOf(r) ensures k <= r[|r| - 1].0 {
      MapOfKeys(r, k);
      var e :| e in r && e.0 == k;
      var i :| 0 <= i < |r| && r[i] == e;
    }
  }

  /** Dropping the last pair of a strictly sorted listing drops its key from the map. */
  lemma LastRemoved<V>(r: seq<(int, V)>)
    requires StrictlySorted(r) && r != []
    ensures StrictlySorted(r[..|r| - 1])
    ensures MapOf(r[..|r| - 1]) == MapOf(r) - {r[|r| - 1].0}
  {
    var p, x := r[..|r| - 1], r[|r| - 1];
    assert r == p + [x];
    LastKeyFresh(p, x);
    assert MapOf(r) == MapOf(p)[x.0 := x.1];
    assert MapOf(p)[x.0 := x.1] - {x.0} == MapOf(p);
  }

  /** The pair in the middle of a sequence decides its key when no later pair repeats it. */
  lemma MapOfMiddle<V>(a: seq<(int, V)>, x: (int, V), b: seq<(int, V)>)
    requires forall e :: e in b ==> e.0 != x.0
    ensures MapOf(a + [x] + b) == MapOf(a + b)[x.0 := x.1]
  {
    MapOfAppend(a + [x], b);
    MapOfAppend(a, [x]);
    MapOfAppend(a, b);
    assert MapOf([x]) == map[x.0 := x.1] by {
      assert [x][..0] == [];
    }
    MapOfKeys(b, x.0);
  }

  /** Both halves of a strictly sorted sequence are strictly sorted, the first below the second. */
  lemma SortedSplit<V>(a: seq<(int, V)>, b: seq<(int, V)>)
    requires StrictlySorted(a + b)
    ensures StrictlySorted(a) && StrictlySorted(b)
    ensures forall x, y :: x in a && y in b ==> x.0 < y.0
  {
    var s := a + b;
    forall i, j | 0 <= i < j < |a| ensures a[i].0 < a[j].0 {
      assert a[i] == s[i] && a[j] == s[j];
    }
    forall i, j | 0 <= i < j < |b| ensures b[i].0 < b[j].0 {
      assert b[i] == s[|a| + i] && b[j] == s[|a| + j];
    }
    forall x, y | x in a && y in b ensures x.0 < y.0 {
      var i :| 0 <= i < |a| && a[i] == x;
      var j :| 0 <= j < |b| && b[j] == y;
      assert s[i] == x && s[|a| + j] == y;
    }
  }

  lemma SortedParts<V>(a: seq<(int, V)>, b: seq<(int, V)>, c: seq<(int, V)>)
    requires StrictlySorted(a + b + c)
    ensures StrictlySorted(a) && StrictlySorted(b) && StrictlySorted(c)
    ensures forall x, y :: x in a && y in b ==> x.0 < y.0
    ensures forall x, y :: x in b && y in c ==> x.0 < y.0
    ensures forall x, y :: x in a && y in c ==> x.0 < y.0
  {
    SortedSplit(a + b, c);
    SortedSplit(a, b);
    forall x, y | x in b && y in c ensures x.0 < y.0 {
      assert x in a + b;
    }
    forall x, y | x in a && y in c ensures x.0 < y.0 {
      assert x in a + b;
    }
  }

  lemma {:induction false} SortedJoin<V>(a: seq<(int, V)>, x: (int, V), b: seq<(int, V)>)
    requires StrictlySorted(a) && StrictlySorted(b)
    requires forall e :: e in a ==> e.0 < x.0
    requires forall e :: e in b ==> x.0 < e.0
    ensures StrictlySorted(a + [x] + b)
  {
    var s := a + [x] + b;
    forall i, j | 0 <= i < j < |s| ensures s[i].0 < s[j].0 {
      if j < |a| {
        assert s[i] == a[i] && s[j] == a[j];
      } else if i > |a| {
        assert s[i] == b[i - |a| - 1] && s[j] == b[j - |a| - 1];
      } else {
        assert s[|a|] == x;
        if i < |a| {
          assert s[i] == a[i] && a[i] in a;
        }
        if j > |a| {
          assert s[j] == b[j - |a| - 1] && b[j - |a| - 1] in b;
        }
      }
    }
  }

  /** In a strictly sorted sequence each pair is what the dictionary stores for its key. */
  lemma EntryLookup<V>(s: seq<(int, V)>, i: int)
    requires StrictlySorted(s) && 0 <= i < |s|
    ensures s[i].0 in MapOf(s) && MapOf(s)[s[i].0] == s[i].1
  {
    assert s == s[..i] + [s[i]] + s[i + 1..];
    SortedParts(s[..i], [s[i]], s[i + 1..]);
    MapOfMiddle(s[..i], s[i], s[i + 1..]);
  }

  lemma {:induction false} SizeIsLength<V>(t: Tree<V>)
    ensures Size(t) == |Elements(t)|
  {
    match t
    case Leaf =>
    case Node(_, _, _, l, r) =>
      SizeIsLength(l);
      SizeIsLength(r);
  }

  // ---------------------------------------------------------------------------------------
  // The zipper: a subtree in focus and the frames from its parent up to the root

  /** The parent of the focus with the sibling subtree; the hole is its left or right child. */
  datatype Frame<V> =
    | LeftOf(colour: Color, key: int, data: V, sibling: Tree<V>)
    | RightOf(colour: Color, key: int, data: V, sibling: Tree<V>)

  function Fill<V>(f: Frame<V>, t: Tree<V>): Tree<V>
  {
    match f
    case LeftOf(c, k, v, r) => Node(c, k, v, t, r)
    case RightOf(c, k, v, l) => Node(c, k, v, l, t)
  }

  /** The whole tree: the focus put back under each frame of the path in turn. */
  function Plug<V>(t: Tree<V>, path: seq<Frame<V>>): Tree<V>
    decreases |path|
  {
    if path == [] then t else Plug(Fill(path[0], t), path[1..])
  }

  ghost function FrameBefore<V>(f: Frame<V>): seq<(int, V)>
  {
    match f
    case LeftOf(_, _, _, _) => []
    case RightOf(_, k, v, l) => Elements(l) + [(k, v)]
  }

  ghost function FrameAfter<V>(f: Frame<V>): seq<(int, V)>
  {
    match f
    case LeftOf(_, k, v, r) => [(k, v)] + Elements(r)
    case RightOf(_, _, _, _) => []
  }

  /** The pairs that precede the focus in in-order. */
  ghost function PathBefore<V>(path: seq<Frame<V>>): seq<(int, V)>
    decreases |path|
  {
    if path == [] then [] else PathBefore(path[1..]) + FrameBefore(path[0])
  }

  /** The pairs that follow the focus in in-order. */
  ghost function PathAfter<V>(path: seq<Frame<V>>): seq<(int, V)>
    decreases |path|
  {
    if path == [] then [] else FrameAfter(path[0]) + PathAfter(path[1..])
  }

  lemma ElementsFill<V>(f: Frame<V>, t: Tree<V>)
    ensures Elements(Fill(f, t)) == FrameBefore(f) + Elements(t) + FrameAfter(f)
  {
    match f
    case LeftOf(_, _, _, r) =>
      assert Elements(Fill(f, t)) == [] + Elements(t) + FrameAfter(f);
    case RightOf(_, _, _, l) =>
      assert Elements(Fill(f, t)) == FrameBefore(f) + Elements(t) + [];
  }

  lemma {:induction false} ElementsPlug<V>(t: Tree<V>, path: seq<Frame<V>>)
    ensures Elements(Plug(t, path)) == PathBefore(path) + Elements(t) + PathAfter(path)
    decreases |path|
  {
    if path != [] {
      var rest := path[1..];
      ElementsPlug(Fill(path[0], t), rest);
      ElementsFill(path[0], t);
      Regroup(PathBefore(rest), FrameBefore(path[0]), Elements(t), FrameAfter(path[0]), PathAfter(rest));
    }
  }

  lemma Regroup<V>(before: seq<(int, V)>, fb: seq<(int, V)>, e: seq<(int, V)>, fa: seq<(int, V)>, after: seq<(int, V)>)
    ensures before + (fb + e + fa) + after == (before + fb) + e + (fa + after)
  {
  }

  lemma {:induction false} PlugRootColour<V>(t: Tree<V>, path: seq<Frame<V>>)
    requires path != []
    ensures Plug(t, path).Node? && Plug(t, path).colour == path[|path| - 1].colour
    decreases |path|
  {
    if |path| > 1 {
      PlugRootColour(Fill(path[0], t), path[1..]);
    }
  }

  lemma {:induction false} BalancedInPlug<V>(s: Tree<V>, path: seq<Frame<V>>)
    requires Balanced(Plug(s, path))
    ensures Balanced(s)
    decreases |path|
  {
    if path != [] {
      BalancedInPlug(Fill(path[0], s), path[1..]);
    }
  }

  /** Putting a subtree with the same black height and the same pairs in place of the focus. */
  lemma {:induction false} ReplaceInPlug<V>(s: Tree<V>, s': Tree<V>, path: seq<Frame<V>>)
    requires Balanced(Plug(s, path)) && Balanced(s') && BlackHeight(s') == BlackHeight(s)
    ensures Balanced(Plug(s', path))
    ensures Elements(s') == Elements(s) ==> Elements(Plug(s', path)) == Elements(Plug(s, path))
    decreases |path|
  {
    ElementsPlug(s, path);
    ElementsPlug(s', path);
    if path != [] {
      BalancedInPlug(Fill(path[0], s), path[1..]);
      ReplaceInPlug(Fill(path[0], s), Fill(path[0], s'), path[1..]);
    }
  }

  lemma {:induction false} SameShapePlug<V>(s: Tree<V>, s': Tree<V>, path: seq<Frame<V>>)
    requires SameShape(s', s)
    ensures SameShape(Plug(s', path), Plug(s, path))
    decreases |path|
  {
    if path != [] {
      SameShapeRefl(path[0].sibling);
      SameShapePlug(Fill(path[0], s), Fill(path[0], s'), path[1..]);
    }
  }

  lemma {:induction false} SameShapeRefl<V>(t: Tree<V>)
    ensures SameShape(t, t)
  {
    match t
    case Leaf =>
    case Node(_, _, _, l, r) =>
      SameShapeRefl(l);
      SameShapeRefl(r);
  }

  /**
   * The frames above the focus keep the no-red-red rule, except that the parent may be red
   * above a red focus when `allowRedChild` holds: the one violation the insertion fix-up repairs.
   */
  ghost predicate PathOK<V>(path: seq<Frame<V>>, childRed: bool, allowRedChild: bool)
    decreases |path|
  {
    path == [] ||
    (NoRedRed(path[0].sibling) &&
     (path[0].colour == Red ==> !IsRed(path[0].sibling) && (allowRedChild || !childRed)) &&
     PathOK(path[1..], path[0].colour == Red, false))
  }

  lemma {:induction false} NoRedRedPlug<V>(s: Tree<V>, path: seq<Frame<V>>)
    ensures NoRedRed(Plug(s, path)) <==> NoRedRed(s) && PathOK(path, IsRed(s), false)
    decreases |path|
  {
    if path != [] {
      NoRedRedPlug(Fill(path[0], s), path[1..]);
    }
  }

  /** What the invariant says when the focus has a red parent. */
  lemma RedParent<V>(item: Tree<V>, path: seq<Frame<V>>)
    requires PathOK(path, true, true) && |path| >= 2 && path[0].colour == Red
    ensures NoRedRed(path[0].sibling) && !IsRed(path[0].sibling)
    ensures path[1].colour == Black && NoRedRed(path[1].sibling)
    ensures PathOK(path[2..], true, true) && PathOK(path[2..], false, false)
  {
    assert PathOK(path[1..], true, false);
    assert path[1..][0] == path[1] && path[1..][1..] == path[2..];
    assert PathOK(path[2..], false, false);
    PathOKRelax(path[2..]);
  }

  /** Below a black or non-red-child position, permitting the violation changes nothing. */
  lemma PathOKRelax<V>(path: seq<Frame<V>>)
    requires PathOK(path, false, false)
    ensures PathOK(path, true, true)
  {
    if path != [] {
      assert PathOK(path[1..], path[0].colour == Red, false);
    }
  }

  // ---------------------------------------------------------------------------------------
  // Rotations and the insertion fix-up

  /** leftRotate: the right child moves up, the old top becomes its left child. */
  function RotateLeft<V>(x: Tree<V>): (y: Tree<V>)
    requires x.Node? && x.right.Node?
    ensures Elements(y) == Elements(x)
  {
    var r := x.right;
    Node(r.colour, r.key, r.data, Node(x.colour, x.key, x.data, x.left, r.left), r.right)
  }

  /** rightRotate: the left child moves up, the old top becomes its right child. */
  function RotateRight<V>(y: Tree<V>): (x: Tree<V>)
    requires y.Node? && y.left.Node?
    ensures Elements(x) == Elements(y)
  {
    var l := y.left;
    Node(l.colour, l.key, l.data, l.left, Node(y.colour, y.key, y.data, l.right, y.right))
  }

  /** The loop invariant of the fix-up: a red focus, with at most its parent red above it. */
  ghost predicate FixUpInvariant<V>(item: Tree<V>, path: seq<Frame<V>>)
  {
    IsRed(item) && NoRedRed(item) && PathOK(path, true, true) && Balanced(Plug(item, path)) &&
    (path != [] ==> path[|path| - 1].colour == Black)
  }

  lemma PlugTwo<V>(item: Tree<V>, path: seq<Frame<V>>)
    requires |path| >= 2
    ensures Plug(item, path) == Plug(Fill(path[1], Fill(path[0], item)), path[2..])
  {
    assert path[1..][0] == path[1] && path[1..][1..] == path[2..];
  }

  /** Case 1, the uncle is red: parent and uncle turn black, the grandparent red and in focus. */
  function RecolourUp<V>(item: Tree<V>, path: seq<Frame<V>>): (z: (Tree<V>, seq<Frame<V>>))
    requires FixUpInvariant(item, path)
    requires |path| >= 2 && path[0].colour == Red && IsRed(path[1].sibling)
    ensures FixUpInvariant(z.0, z.1) && |z.1| == |path| - 2
    ensures Elements(Plug(z.0, z.1)) == Elements(Plug(item, path))
  {
    var parent := Fill(path[0].(colour := Black), item);
    var uncle := path[1].sibling.(colour := Black);
    var grand := match path[1]
      case LeftOf(_, k, v, _) => Node(Red, k, v, parent, uncle)
      case RightOf(_, k, v, _) => Node(Red, k, v, uncle, parent);
    RedParent(item, path);
    PlugTwo(item, path);
    assert Elements(grand) == Elements(Fill(path[1], Fill(path[0], item)));
    BalancedInPlug(Fill(path[1], Fill(path[0], item)), path[2..]);
    ReplaceInPlug(Fill(path[1], Fill(path[0], item)), grand, path[2..]);
    (grand, path[2..])
  }

  /** Case 2 on the left: the focus is a right child; the parent is rotated left and in focus. */
  function RotateParentLeft<V>(item: Tree<V>, path: seq<Frame<V>>): (z: (Tree<V>, seq<Frame<V>>))
    requires FixUpInvariant(item, path)
    requires |path| >= 2 && path[0].colour == Red && path[0].RightOf? && path[1].LeftOf?
    ensures |z.1| == |path| && FixUpInvariant(z.0, z.1) && z.1[1..] == path[1..]
    ensures z.1[0].LeftOf? && z.1[0].colour == Red
    ensures Elements(Plug(z.0, z.1)) == Elements(Plug(item, path))
  {
    var top := RotateLeft(Fill(path[0], item));
    var frame := LeftOf(top.colour, top.key, top.data, top.right);
    RedParent(item, path);
    BalancedInPlug(Fill(path[0], item), path[1..]);
    ReplaceInPlug(Fill(path[0], item), top, path[1..]);
    assert ([frame] + path[1..])[1..] == path[1..];
    (top.left, [frame] + path[1..])
  }

  /** Case 2 on the right: the focus is a left child; the parent is rotated right and in focus. */
  function RotateParentRight<V>(item: Tree<V>, path: seq<Frame<V>>): (z: (Tree<V>, seq<Frame<V>>))
    requires FixUpInvariant(item, path)
    requires |path| >= 2 && path[0].colour == Red && path[0].LeftOf? && path[1].RightOf?
    ensures |z.1| == |path| && FixUpInvariant(z.0, z.1) && z.1[1..] == path[1..]
    ensures z.1[0].RightOf? && z.1[0].colour == Red
    ensures Elements(Plug(z.0, z.1)) == Elements(Plug(item, path))
  {
    var top := RotateRight(Fill(path[0], item));
    var frame := RightOf(top.colour, top.key, top.data, top.left);
    RedParent(item, path);
    BalancedInPlug(Fill(path[0], item), path[1..]);
    ReplaceInPlug(Fill(path[0], item), top, path[1..]);
    assert ([frame] + path[1..])[1..] == path[1..];
    (top.right, [frame] + path[1..])
  }

  /** Case 3 on the left: parent black, grandparent red, the grandparent rotated right. */
  function RotateGrandRight<V>(item: Tree<V>, path: seq<Frame<V>>): (z: (Tree<V>, seq<Frame<V>>))
    requires FixUpInvariant(item, path)
    requires |path| >= 2 && path[0].colour == Red && path[0].LeftOf? && path[1].LeftOf?
    requires !IsRed(path[1].sibling)
    ensures FixUpInvariant(z.0, z.1) && |z.1| == |path| - 1 && z.1[0].colour == Black
    ensures Elements(Plug(z.0, z.1)) == Elements(Plug(item, path))
  {
    var grand := Fill(path[1].(colour := Red), Fill(path[0].(colour := Black), item));
    var top := RotateRight(grand);
    var frame := LeftOf(top.colour, top.key, top.data, top.right);
    RedParent(item, path);
    PlugTwo(item, path);
    BalancedInPlug(Fill(path[1], Fill(path[0], item)), path[2..]);
    assert Elements(grand) == Elements(Fill(path[1], Fill(path[0], item)));
    ReplaceInPlug(Fill(path[1], Fill(path[0], item)), top, path[2..]);
    assert ([frame] + path[2..])[1..] == path[2..];
    assert Fill(frame, top.left) == top;
    (top.left, [frame] + path[2..])
  }

  /** Case 3 on the right: parent black, grandparent red, the grandparent rotated left. */
  function RotateGrandLeft<V>(item: Tree<V>, path: seq<Frame<V>>): (z: (Tree<V>, seq<Frame<V>>))
    requires FixUpInvariant(item, path)
    requires |path| >= 2 && path[0].colour == Red && path[0].RightOf? && path[1].RightOf?
    requires !IsRed(path[1].sibling)
    ensures FixUpInvariant(z.0, z.1) && |z.1| == |path| - 1 && z.1[0].colour == Black
    ensures Elements(Plug(z.0, z.1)) == Elements(Plug(item, path))
  {
    var grand := Fill(path[1].(colour := Red), Fill(path[0].(colour := Black), item));
    var top := RotateLeft(grand);
    var frame := RightOf(top.colour, top.key, top.data, top.left);
    RedParent(item, path);
    PlugTwo(item, path);
    BalancedInPlug(Fill(path[1], Fill(path[0], item)), path[2..]);
    assert Elements(grand) == Elements(Fill(path[1], Fill(path[0], item)));
    ReplaceInPlug(Fill(path[1], Fill(path[0], item)), top, path[2..]);
    assert ([frame] + path[2..])[1..] == path[2..];
    assert Fill(frame, top.right) == top;
    (top.right, [frame] + path[2..])
  }

  /** Blackening the root keeps the tree a red-black tree once no red-red pair is left. */
  lemma FinishFixUp<V>(item: Tree<V>, path: seq<Frame<V>>)
    requires FixUpInvariant(item, path) && Ordered(Plug(item, path))
    requires path == [] || path[0].colour == Black
    ensures Plug(item, path).Node?
    ensures IsRedBlack(Plug(item, path).(colour := Black))
    ensures Elements(Plug(item, path).(colour := Black)) == Elements(Plug(item, path))
  {
    if path != [] {
      PlugRootColour(item, path);
      assert PathOK(path[1..], false, false);
      assert PathOK(path, true, false);
    }
    NoRedRedPlug(item, path);
  }

  /** The state right after a new red leaf is linked below its parent. */
  lemma StartFixUp<V>(path: seq<Frame<V>>, key: int, item: V)
    requires IsRedBlack(Plug(Leaf, path)) && path != []
    ensures FixUpInvariant(Node(Red, key, item, Leaf, Leaf), path)
  {
    NoRedRedPlug(Leaf, path);
    PathOKRelax(path);
    ReplaceInPlug(Leaf, Node(Red, key, item, Leaf, Leaf), path);
    PlugRootColour(Leaf, path);
  }

  // ---------------------------------------------------------------------------------------
  // Walking down by hash

  ghost predicate AllBelow<V>(s: seq<(int, V)>, key: int)
  {
    forall e :: e in s ==> e.0 < key
  }

  ghost predicate AllAbove<V>(s: seq<(int, V)>, key: int)
  {
    forall e :: e in s ==> key < e.0
  }

  ghost predicate NoneAbove<V>(s: seq<(int, V)>, key: int)
  {
    forall e :: e in s ==> e.0 <= key
  }

  /** A search for `key` that reached the focus of `path`: smaller pairs before it, larger after. */
  ghost predicate SearchState<V>(path: seq<Frame<V>>, key: int)
  {
    AllBelow(PathBefore(path), key) && AllAbove(PathAfter(path), key)
  }

  lemma SubtreeBounds<V>(t: Tree<V>, path: seq<Frame<V>>)
    requires t.Node? && Ordered(Plug(t, path))
    ensures AllBelow(Elements(t.left), t.key) && AllAbove(Elements(t.right), t.key)
    ensures AllBelow(PathBefore(path), t.key) && AllAbove(PathAfter(path), t.key)
  {
    ElementsPlug(t, path);
    SortedParts(PathBefore(path), Elements(t), PathAfter(path));
    SortedParts(Elements(t.left), [(t.key, t.data)], Elements(t.right));
    assert (t.key, t.data) in Elements(t);
  }

  /** The key of a node reached by a walk is stored, with that node's data. */
  lemma FoundInPlug<V>(t: Tree<V>, path: seq<Frame<V>>)
    requires t.Node? && Ordered(Plug(t, path))
    ensures t.key in AsMap(Plug(t, path)) && AsMap(Plug(t, path))[t.key] == t.data
  {
    var s := Elements(Plug(t, path));
    ElementsPlug(t, path);
    var i := |PathBefore(path)| + |Elements(t.left)|;
    assert s[i] == (t.key, t.data);
    EntryLookup(s, i);
  }

  lemma DescendLeft<V>(t: Tree<V>, path: seq<Frame<V>>)
    requires t.Node?
    ensures Plug(t.left, [LeftOf(t.colour, t.key, t.data, t.right)] + path) == Plug(t, path)
    ensures PathBefore([LeftOf(t.colour, t.key, t.data, t.right)] + path) == PathBefore(path)
    ensures PathAfter([LeftOf(t.colour, t.key, t.data, t.right)] + path)
         == [(t.key, t.data)] + Elements(t.right) + PathAfter(path)
  {
    assert ([LeftOf(t.colour, t.key, t.data, t.right)] + path)[1..] == path;
  }

  lemma DescendRight<V>(t: Tree<V>, path: seq<Frame<V>>)
    requires t.Node?
    ensures Plug(t.right, [RightOf(t.colour, t.key, t.data, t.left)] + path) == Plug(t, path)
    ensures PathBefore([RightOf(t.colour, t.key, t.data, t.left)] + path)
         == PathBefore(path) + Elements(t.left) + [(t.key, t.data)]
    ensures PathAfter([RightOf(t.colour, t.key, t.data, t.left)] + path) == PathAfter(path)
  {
    assert ([RightOf(t.colour, t.key, t.data, t.left)] + path)[1..] == path;
  }

  lemma SearchLeft<V>(t: Tree<V>, path: seq<Frame<V>>, key: int)
    requires t.Node? && Ordered(Plug(t, path)) && SearchState(path, key) && key < t.key
    ensures Plug(t.left, [LeftOf(t.colour, t.key, t.data, t.right)] + path) == Plug(t, path)
    ensures SearchState([LeftOf(t.colour, t.key, t.data, t.right)] + path, key)
  {
    SubtreeBounds(t, path);
    DescendLeft(t, path);
  }

  lemma SearchRight<V>(t: Tree<V>, path: seq<Frame<V>>, key: int)
    requires t.Node? && Ordered(Plug(t, path)) && SearchState(path, key) && t.key < key
    ensures Plug(t.right, [RightOf(t.colour, t.key, t.data, t.left)] + path) == Plug(t, path)
    ensures SearchState([RightOf(t.colour, t.key, t.data, t.left)] + path, key)
  {
    SubtreeBounds(t, path);
    DescendRight(t, path);
  }

  /** A search that ran off the tree: the key is not stored. */
  lemma SearchMiss<V>(path: seq<Frame<V>>, key: int)
    requires SearchState(path, key)
    ensures key !in AsMap(Plug(Leaf, path))
  {
    ElementsPlug(Leaf, path);
    assert Elements(Plug(Leaf, path)) == PathBefore(path) + PathAfter(path);
    AbsentBetween(PathBefore(path), PathAfter(path), key);
  }

  lemma AbsentBetween<V>(pre: seq<(int, V)>, post: seq<(int, V)>, key: int)
    requires AllBelow(pre, key) && AllAbove(post, key)
    ensures key !in MapOf(pre + post)
  {
    MapOfKeys(pre + post, key);
    forall e | e in pre + post ensures e.0 != key {
      if e !in pre {
        assert e in post;
      }
    }
  }

  /** A new red leaf linked where a search for its key ran off the tree, ready for the fix-up. */
  lemma LinkLeaf<V>(path: seq<Frame<V>>, key: int, item: V)
    requires Ordered(Plug(Leaf, path)) && SearchState(path, key)
    ensures Ordered(Plug(Node(Red, key, item, Leaf, Leaf), path))
    ensures AsMap(Plug(Node(Red, key, item, Leaf, Leaf), path)) == AsMap(Plug(Leaf, path))[key := item]
    ensures Size(Plug(Node(Red, key, item, Leaf, Leaf), path)) == Size(Plug(Leaf, path)) + 1
  {
    var newItem := Node(Red, key, item, Leaf, Leaf);
    var before, after := PathBefore(path), PathAfter(path);
    LinkedElements(path, newItem);
    InsertBetween(before, after, (key, item));
    SizeIsLength(Plug(Leaf, path));
    SizeIsLength(Plug(newItem, path));
  }

  lemma LinkedElements<V>(path: seq<Frame<V>>, newItem: Tree<V>)
    requires newItem.Node? && newItem.left.Leaf? && newItem.right.Leaf?
    ensures Elements(Plug(Leaf, path)) == PathBefore(path) + PathAfter(path)
    ensures Elements(Plug(newItem, path))
         == PathBefore(path) + [(newItem.key, newItem.data)] + PathAfter(path)
  {
    LeafElements(path);
    ElementsPlug(newItem, path);
    assert Elements(newItem) == [(newItem.key, newItem.data)];
  }

  lemma LeafElements<V>(path: seq<Frame<V>>)
    ensures Elements(Plug(Leaf, path)) == PathBefore(path) + PathAfter(path)
  {
    ElementsPlug(Leaf, path);
  }

  lemma SplitAround<V>(node: Tree<V>, path: seq<Frame<V>>)
    requires node.Node?
    ensures Elements(Plug(node, path)) == (PathBefore(path) + Elements(node.left)) +
      [(node.key, node.data)] + (Elements(node.right) + PathAfter(path))
  {
    ElementsPlug(node, path);
  }

  lemma InsertBetween<V>(before: seq<(int, V)>, after: seq<(int, V)>, x: (int, V))
    requires StrictlySorted(before + after) && AllBelow(before, x.0) && AllAbove(after, x.0)
    ensures StrictlySorted(before + [x] + after)
    ensures MapOf(before + [x] + after) == MapOf(before + after)[x.0 := x.1]
  {
    assert before + [] + after == before + after;
    SortedParts(before, [], after);
    SortedJoin(before, x, after);
    MapOfMiddle(before, x, after);
  }

  /** Overwriting the data of one node keeps the order and stores the new data under its key. */
  lemma OverwriteContents<V>(node: Tree<V>, path: seq<Frame<V>>, item: V)
    requires node.Node? && Ordered(Plug(node, path))
    ensures Ordered(Plug(node.(data := item), path))
    ensures AsMap(Plug(node.(data := item), path)) == AsMap(Plug(node, path))[node.key := item]
  {
    OverwriteElements(node, path, item);
    ReplaceMiddle(PathBefore(path) + Elements(node.left), (node.key, node.data), (node.key, item),
                  Elements(node.right) + PathAfter(path));
  }

  lemma OverwriteElements<V>(node: Tree<V>, path: seq<Frame<V>>, item: V)
    requires node.Node?
    ensures Elements(Plug(node, path)) == (PathBefore(path) + Elements(node.left)) +
      [(node.key, node.data)] + (Elements(node.right) + PathAfter(path))
    ensures Elements(Plug(node.(data := item), path)) == (PathBefore(path) + Elements(node.left)) +
      [(node.key, item)] + (Elements(node.right) + PathAfter(path))
  {
    SplitAround(node, path);
    SplitAround(node.(data := item), path);
  }

  lemma ReplaceMiddle<V>(a: seq<(int, V)>, x: (int, V), x': (int, V), b: seq<(int, V)>)
    requires StrictlySorted(a + [x] + b) && x'.0 == x.0
    ensures StrictlySorted(a + [x'] + b)
    ensures MapOf(a + [x'] + b) == MapOf(a + [x] + b)[x.0 := x'.1]
  {
    SortedParts(a, [x], b);
    assert x in [x];
    SortedJoin(a, x', b);
    MapOfMiddle(a, x, b);
    MapOfMiddle(a, x', b);
  }

  /** Overwriting the data of one node changes no colour and no link. */
  lemma OverwriteShape<V>(node: Tree<V>, path: seq<Frame<V>>, item: V)
    requires node.Node? && NoRedRed(Plug(node, path)) && Balanced(Plug(node, path))
    requires !IsRed(Plug(node, path))
    ensures NoRedRed(Plug(node.(data := item), path)) && Balanced(Plug(node.(data := item), path))
    ensures !IsRed(Plug(node.(data := item), path))
    ensures SameShape(Plug(node.(data := item), path), Plug(node, path))
  {
    var node' := node.(data := item);
    SameShapeRefl(node.left);
    SameShapeRefl(node.right);
    SameShapePlug(node, node', path);
    NoRedRedPlug(node, path);
    NoRedRedPlug(node', path);
    BalancedInPlug(node, path);
    ReplaceInPlug(node, node', path);
    if path != [] {
      PlugRootColour(node, path);
      PlugRootColour(node', path);
    }
  }

  // ---------------------------------------------------------------------------------------
  // The nearest key at or below a bound

  /** k is the greatest key of m that does not exceed target. */
  predicate IsFloorKey<V>(m: map<int, V>, target: int, k: int)
  {
    k in m && k <= target && forall j | j in m && j <= target :: j <= k
  }

  lemma {:induction false} MaxExists(s: set<int>, b: int) returns (x: int)
    requires b in s
    ensures x in s && forall y :: y in s ==> y <= x
    decreases |s|
  {
    if forall y :: y in s ==> y <= b {
      x := b;
    } else {
      var c :| c in s && c > b;
      x := MaxExists(s - {b}, c);
      forall z | z in s ensures z <= x {
        if z != b {
          assert z in s - {b};
        }
      }
    }
  }

  lemma FloorKeyExists<V>(m: map<int, V>, target: int)
    requires exists k :: k in m && k <= target
    ensures exists k :: IsFloorKey(m, target, k)
  {
    var k0 :| k0 in m && k0 <= target;
    var below := set k | k in m && k <= target;
    assert k0 in below;
    var x := MaxExists(below, k0);
    forall j | j in m && j <= target ensures j <= x {
      assert j in below;
    }
    assert IsFloorKey(m, target, x);
  }

  /**
   * The data stored under the greatest key that does not exceed `target`, or nothing when
   * every key is above it.
   */
  function NearestLess<V>(m: map<int, V>, target: int): (r: Option<V>)
    ensures r.None? <==> forall k :: k in m ==> target < k
  {
    if exists k :: k in m && k <= target then
      FloorKeyExists(m, target);
      var k :| k in m && IsFloorKey(m, target, k);
      Some(m[k])
    else
      None
  }

  lemma NearestLessAt<V>(m: map<int, V>, target: int, k: int)
    requires IsFloorKey(m, target, k)
    ensures NearestLess(m, target) == Some(m[k])
  {
  }

  /** The walk of findNearestLess: pairs passed on the left are at most the bound. */
  ghost predicate FloorState<V>(path: seq<Frame<V>>, key: int)
  {
    NoneAbove(PathBefore(path), key) && AllAbove(PathAfter(path), key)
  }

  /** The best node so far is the last pair passed on the left. */
  ghost predicate Candidate<V>(optimal: Tree<V>, path: seq<Frame<V>>)
  {
    (optimal.Leaf? <==> PathBefore(path) == []) &&
    (optimal.Node? ==> PathBefore(path)[|PathBefore(path)| - 1] == (optimal.key, optimal.data))
  }

  lemma FloorLeft<V>(t: Tree<V>, path: seq<Frame<V>>, key: int, optimal: Tree<V>)
    requires t.Node? && Ordered(Plug(t, path)) && FloorState(path, key) && key < t.key
    requires Candidate(optimal, path)
    ensures Plug(t.left, [LeftOf(t.colour, t.key, t.data, t.right)] + path) == Plug(t, path)
    ensures FloorState([LeftOf(t.colour, t.key, t.data, t.right)] + path, key)
    ensures Candidate(optimal, [LeftOf(t.colour, t.key, t.data, t.right)] + path)
  {
    SubtreeBounds(t, path);
    DescendLeft(t, path);
  }

  lemma FloorRight<V>(t: Tree<V>, path: seq<Frame<V>>, key: int, optimal: Tree<V>)
    requires t.Node? && Ordered(Plug(t, path)) && FloorState(path, key) && t.key <= key
    requires Candidate(optimal, path)
    ensures optimal.Leaf? || key - optimal.key > key - t.key
    ensures Plug(t.right, [RightOf(t.colour, t.key, t.data, t.left)] + path) == Plug(t, path)
    ensures FloorState([RightOf(t.colour, t.key, t.data, t.left)] + path, key)
    ensures Candidate(t, [RightOf(t.colour, t.key, t.data, t.left)] + path)
  {
    SubtreeBounds(t, path);
    DescendRight(t, path);
    if optimal.Node? {
      var before := PathBefore(path);
      assert before[|before| - 1] in before;
    }
  }

  /** At the end of the walk the best node holds the nearest-less answer. */
  lemma FloorDone<V>(path: seq<Frame<V>>, key: int, optimal: Tree<V>)
    requires Ordered(Plug(Leaf, path)) && FloorState(path, key) && Candidate(optimal, path)
    ensures NearestLess(AsMap(Plug(Leaf, path)), key)
         == if optimal.Leaf? then None else Some(optimal.data)
  {
    LeafElements(path);
    FloorOfSplit(PathBefore(path), PathAfter(path), key);
  }

  /** After the walk of findNearestLess: the last pair passed on the left is the answer. */
  lemma FloorOfSplit<V>(pre: seq<(int, V)>, post: seq<(int, V)>, target: int)
    requires StrictlySorted(pre + post)
    requires NoneAbove(pre, target) && AllAbove(post, target)
    ensures NearestLess(MapOf(pre + post), target) == if pre == [] then None else Some(pre[|pre| - 1].1)
  {
    if pre == [] {
      NothingBelow(post, target);
      assert pre + post == post;
    } else {
      var x := pre[|pre| - 1];
      var p := pre[..|pre| - 1];
      assert pre == p + [x];
      assert pre + post == p + [x] + post;
      FloorIsLast(p, x, post, target);
    }
  }

  lemma NothingBelow<V>(post: seq<(int, V)>, target: int)
    requires AllAbove(post, target)
    ensures NearestLess(MapOf(post), target) == None
  {
    forall k | k in MapOf(post) ensures target < k {
      MapOfKeys(post, k);
    }
  }

  lemma FloorIsLast<V>(p: seq<(int, V)>, x: (int, V), post: seq<(int, V)>, target: int)
    requires StrictlySorted(p + [x] + post)
    requires NoneAbove(p + [x], target) && AllAbove(post, target)
    ensures NearestLess(MapOf(p + [x] + post), target) == Some(x.1)
  {
    var m := MapOf(p + [x] + post);
    SortedParts(p, [x], post);
    assert x in [x] && x in p + [x];
    MapOfMiddle(p, x, post);
    forall j | j in m && j <= target ensures j <= x.0 {
      MapOfKeys(p + [x] + post, j);
    }
    NearestLessAt(m, target, x.0);
  }

  /** toList lists each stored key once, in ascending order, with the data stored for it. */
  lemma ElementsAreContents<V>(t: Tree<V>)
    requires Ordered(t)
    ensures forall e :: e in Elements(t) <==> e.0 in AsMap(t) && AsMap(t)[e.0] == e.1
  {
    var s := Elements(t);
    forall e ensures e in s <==> e.0 in AsMap(t) && AsMap(t)[e.0] == e.1 {
      if e in s {
        var i :| 0 <= i < |s| && s[i] == e;
        EntryLookup(s, i);
      }
      if e.0 in AsMap(t) {
        MapOfKeys(s, e.0);
        var e' :| e' in s && e'.0 == e.0;
        var i :| 0 <= i < |s| && s[i] == e';
        EntryLookup(s, i);
      }
    }
  }

  // ---------------------------------------------------------------------------------------

  /** BinaryTree: a red-black tree whose root the operations replace. */
  class BinaryTree<V> {
    var root: Tree<V>

    ghost predicate Valid()
      reads this
    {
      IsRedBlack(root)
    }

    /** The dictionary the tree stores. */
    ghost function Contents(): map<int, V>
      reads this
    {
      AsMap(root)
    }

    constructor ()
      ensures Valid() && Contents() == map[] && root == Leaf
    {
      root := Leaf;
    }

    /**
     * find: walk down by hash; the node whose hash equals the key's, or a leaf. The path
     * returned is the chain of the node's ancestors, the Java parent links.
     */
    method Find(key: int) returns (node: Tree<V>, path: seq<Frame<V>>)
      requires Valid()
      ensures Plug(node, path) == root
      ensures node.Node? <==> key in Contents()
      ensures node.Node? ==> node.key == key && node.data == Contents()[key]
    {
      var found := false;
      var temp := root;
      var item: Tree<V> := Leaf;
      path := [];
      while !found
        invariant Plug(temp, path) == root && SearchState(path, key)
        invariant found ==> temp.Node? && temp.key == key && item == temp
        decreases (if found then 0 else 1) + Size(temp)
      {
        if temp.Leaf? {
          break;
        }
        if key < temp.key {
          SearchLeft(temp, path, key);
          path := [LeftOf(temp.colour, temp.key, temp.data, temp.right)] + path;
          temp := temp.left;
        } else if key > temp.key {
          SearchRight(temp, path, key);
          path := [RightOf(temp.colour, temp.key, temp.data, temp.left)] + path;
          temp := temp.right;
        }
        if temp.Node? && key == temp.key {
          found := true;
          item := temp;
        }
      }
      if found {
        FoundInPlug(temp, path);
        node := item;
      } else {
        SearchMiss(path, key);
        node := Leaf;
      }
    }

    /** insert: overwrite the data of an existing key, or link a new red leaf and repair. */
    method Insert(key: int, item: V)
      requires Valid()
      modifies this
      ensures Valid()
      ensures Contents() == old(Contents())[key := item]
      ensures key in old(Contents()) ==> SameShape(root, old(root))
      ensures key !in old(Contents()) ==> Size(root) == old(Size(root)) + 1
      ensures old(root).Leaf? ==> root == Node(Black, key, item, Leaf, Leaf)
    {
      var node, nodePath := Find(key);
      if node.Node? {
        OverwriteContents(node, nodePath, item);
        OverwriteShape(node, nodePath, item);
        root := Plug(node.(data := item), nodePath);
        return;
      }
      if root.Leaf? {
        root := Node(Black, key, item, Leaf, Leaf);
        return;
      }
      ghost var r0 := root;
      assert IsRedBlack(r0) && key !in AsMap(r0);
      var x := root;
      var path: seq<Frame<V>> := [];
      while x.Node?
        invariant Plug(x, path) == r0 && SearchState(path, key)
        decreases Size(x)
      {
        FoundInPlug(x, path);
        if key < x.key {
          SearchLeft(x, path, key);
          path := [LeftOf(x.colour, x.key, x.data, x.right)] + path;
          x := x.left;
        } else {
          SearchRight(x, path, key);
          path := [RightOf(x.colour, x.key, x.data, x.left)] + path;
          x := x.right;
        }
      }
      var newItem := Node(Red, key, item, Leaf, Leaf);
      LinkLeaf(path, key, item);
      StartFixUp(path, key, item);
      InsertFixUp(newItem, path);
      assert Elements(root) == Elements(Plug(newItem, path));
      SizeIsLength(root);
      SizeIsLength(Plug(newItem, path));
    }

    /** insertFixUp: climb from the new node, recolouring and rotating, then blacken the root. */
    method InsertFixUp(item0: Tree<V>, path0: seq<Frame<V>>)
      requires FixUpInvariant(item0, path0) && Ordered(Plug(item0, path0))
      modifies this
      ensures Valid() && Elements(root) == Elements(Plug(item0, path0))
    {
      var item, path := item0, path0;
      while path != [] && path[0].colour == Red
        invariant FixUpInvariant(item, path)
        invariant Elements(Plug(item, path)) == Elements(Plug(item0, path0))
        decreases |path|
      {
        if path[1].LeftOf? {
          if IsRed(path[1].sibling) {
            var z := RecolourUp(item, path);
            item, path := z.0, z.1;
          } else {
            if path[0].RightOf? {
              var z := RotateParentLeft(item, path);
              item, path := z.0, z.1;
            }
            var z' := RotateGrandRight(item, path);
            item, path := z'.0, z'.1;
          }
        } else {
          if IsRed(path[1].sibling) {
            var z := RecolourUp(item, path);
            item, path := z.0, z.1;
          } else {
            if path[0].LeftOf? {
              var z := RotateParentRight(item, path);
              item, path := z.0, z.1;
            }
            var z' := RotateGrandLeft(item, path);
            item, path := z'.0, z'.1;
          }
        }
      }
      FinishFixUp(item, path);
      root := Plug(item, path).(colour := Black);
    }

    /** findNearestLess: the data under the greatest key not above `key`. */
    method FindNearestLess(key: int) returns (r: Option<V>)
      requires Valid()
      ensures r == NearestLess(Contents(), key)
    {
      var node := root;
      var optimal: Tree<V> := Leaf;
      ghost var path: seq<Frame<V>> := [];
      while node.Node?
        invariant Plug(node, path) == root && FloorState(path, key) && Candidate(optimal, path)
        decreases Size(node)
      {
        ghost var previous := optimal;
        if node.key <= key && (optimal.Leaf? || key - optimal.key > key - node.key) {
          optimal := node;
        }
        if node.key > key {
          FloorLeft(node, path, key, optimal);
          path := [LeftOf(node.colour, node.key, node.data, node.right)] + path;
          node := node.left;
        } else {
          FloorRight(node, path, key, previous);
          path := [RightOf(node.colour, node.key, node.data, node.left)] + path;
          node := node.right;
        }
      }
      FloorDone(path, key, optimal);
      r := if optimal.Leaf? then None else Some(optimal.data);
    }

    method Get(key: int) returns (r: Option<V>)
      requires Valid()
      ensures r.Some? <==> key in Contents()
      ensures r.Some? ==> r.value == Contents()[key]
    {
      var node, _ := Find(key);
      r := if node.Leaf? then None else Some(node.data);
    }

    method Contains(key: int) returns (b: bool)
      requires Valid()
      ensures b <==> key in Contents()
    {
      var node, _ := Find(key);
      b := node.Node?;
    }

    /** toList (and the iterator built on it): the pairs in ascending key order. */
    method ToList() returns (r: seq<(int, V)>)
      requires Valid()
      ensures StrictlySorted(r) && MapOf(r) == Contents()
      ensures forall e :: e in r <==> e.0 in Contents() && Contents()[e.0] == e.1
    {
      r := AddToList([], root);
      assert r == Elements(root);
      ElementsAreContents(root);
    }

    /** addToList: append the subtree in in-order. */
    static method AddToList(list: seq<(int, V)>, node: Tree<V>) returns (r: seq<(int, V)>)
      ensures r == list + Elements(node)
      decreases node
    {
      if node.Leaf? {
        return list;
      }
      r := AddToList(list, node.left);
      r := r + [(node.key, node.data)];
      r := AddToList(r, node.right);
    }
  }
}
