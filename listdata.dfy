/**
 * The pieces the persistent linked list is built from
 * (persistence/structure/list/DoubleLinkedData.java, DoubleLinkedContent.java): link records
 * kept in fat nodes, the arena of fat node objects the list's nodes live in, and the walks
 * along next links that toList, findNode and contains perform.
 */
module LinkedData {
  import opened Wrappers
  import opened RedBlackTree
  import opened FatNode

  /** A reference to one fat node object of the arena. */
  type Ref = nat

  /** A node identity (a UUID): every record of a node carries it, and a rebuild keeps it. */
  type Id = nat

  /**
   * DoubleLinkedData: one version of a list node, holding its neighbours (None is null), the
   * fat node holding its element, and its id. The datatype constructor is the four-argument
   * constructor; the three-argument one, which draws a fresh id, is Arena.NewData.
   */
  datatype Data = Data(next: Option<Ref>, previous: Option<Ref>, value: Ref, id: Id)

  /** DoubleLinkedContent: the two sentinels, fixed at construction; null is accepted. */
  datatype Sentinels = Sentinels(pseudoHead: Option<Ref>, pseudoTail: Option<Ref>)

  /** The link fat nodes (PersistentNode<DoubleLinkedData<T>> objects) by reference. */
  type Links = map<Ref, History<Data>>

  /** The element fat nodes (PersistentNode<T> objects) by reference. */
  type Values<T> = map<Ref, History<Option<T>>>

  /**
   * The sentinels name link objects of the arena, when not null: a Java reference always
   * names an object, and every content the list code builds gives its sentinels this way.
   */
  ghost predicate Anchored(links: Links, s: Sentinels)
  {
    (s.pseudoHead.Some? ==> s.pseudoHead.value in links) && (s.pseudoTail.Some? ==> s.pseudoTail.value in links)
  }

  /** Every reference the record holds names an object, and its id has been handed out. */
  ghost predicate Closed<T>(links: Links, values: Values<T>, nextId: Id, d: Data)
  {
    (d.next.Some? ==> d.next.value in links) &&
    (d.previous.Some? ==> d.previous.value in links) &&
    d.value in values && d.id < nextId
  }

  /**
   * The fat node objects of the lists. Creating an object takes the next free reference;
   * PersistentNode.update writes one step of an existing object.
   */
  class Arena<T> {
    var links: Links
    var values: Values<T>
    var nextRef: Ref  // no object has this reference or a greater one
    var nextId: Id    // no record carries this id or a greater one

    ghost predicate Valid()
      reads this
    {
      (forall r :: r in links ==> r < nextRef) &&
      (forall r :: r in values ==> r < nextRef) &&
      (forall r, k :: r in links && k in links[r] ==> Closed(links, values, nextId, links[r][k]))
    }

    constructor ()
      ensures Valid() && links == map[] && values == map[]
    {
      links := map[];
      values := map[];
      nextRef := 0;
      nextId := 0;
    }

    /** new PersistentNode<T>(step, x): an element node whose one write is `x`. */
    method NewValue(step: int, x: Option<T>) returns (v: Ref)
      requires Valid()
      modifies this
      ensures Valid() && v == old(nextRef) && v !in old(values) && v !in old(links)
      ensures values == old(values)[v := Created(step, x)] && links == old(links)
      ensures nextRef == old(nextRef) + 1 && nextId == old(nextId)
    {
      v := nextRef;
      values := values[v := Created(step, x)];
      nextRef := nextRef + 1;
    }

    /** new PersistentNode<>(step, d): a link node whose one write is `d`. */
    method NewNode(step: int, d: Data) returns (r: Ref)
      requires Valid() && Closed(links, values, nextId, d)
      modifies this
      ensures Valid() && r == old(nextRef) && r !in old(links) && r !in old(values)
      ensures links == old(links)[r := Created(step, d)] && values == old(values)
      ensures nextRef == old(nextRef) + 1 && nextId == old(nextId)
    {
      r := nextRef;
      links := links[r := Created(step, d)];
      nextRef := nextRef + 1;
    }

    /**
     * The three-argument DoubleLinkedData constructor: the links and element given, and an id
     * (UUID.randomUUID) that no record in the arena carries.
     */
    method NewData(next: Option<Ref>, previous: Option<Ref>, value: Ref) returns (d: Data)
      requires Valid()
      modifies this
      ensures Valid() && d == Data(next, previous, value, old(nextId)) && nextId == old(nextId) + 1
      ensures forall r, k :: r in links && k in links[r] ==> links[r][k].id != d.id
      ensures links == old(links) && values == old(values) && nextRef == old(nextRef)
    {
      d := Data(next, previous, value, nextId);
      nextId := nextId + 1;
    }

    /** PersistentNode.update on a link node: `d` is its record from `step` on. */
    method Update(r: Ref, step: int, d: Data)
      requires Valid() && r in links && Closed(links, values, nextId, d)
      modifies this
      ensures Valid() && links == Write(old(links), r, step, d)
      ensures values == old(values) && nextRef == old(nextRef) && nextId == old(nextId)
    {
      links := links[r := links[r][step := d]];
    }

    /** PersistentNode.update on an element node. */
    method UpdateValue(v: Ref, step: int, x: Option<T>)
      requires Valid() && v in values
      modifies this
      ensures Valid() && values == old(values)[v := old(values)[v][step := x]]
      ensures links == old(links) && nextRef == old(nextRef) && nextId == old(nextId)
    {
      values := values[v := values[v][step := x]];
    }
  }

  // ---------------------------------------------------------------------------------------
  // Reads at a step

  /** PersistentNode.update of the link node `r`, as a change of the arena's link nodes. */
  function Write(links: Links, r: Ref, step: int, d: Data): Links
    requires r in links
  {
    links[r := links[r][step := d]]
  }

  /** node.value(step): the record the node holds at `step`; None for null or a null read. */
  function Read(links: Links, r: Option<Ref>, step: int): Option<Data>
  {
    if r.Some? && r.value in links then NearestLess(links[r.value], step) else None
  }

  /** A record read from a node is one of the node's records, so its references are closed. */
  lemma ReadClosed<T>(links: Links, values: Values<T>, nextId: Id, r: Option<Ref>, step: int)
    requires forall x, k :: x in links && k in links[x] ==> Closed(links, values, nextId, links[x][k])
    requires Read(links, r, step).Some?
    ensures Closed(links, values, nextId, Read(links, r, step).value)
  {
    var m := links[r.value];
    FloorKeyExists(m, step);
    var k :| IsFloorKey(m, step, k);
    NearestLessAt(m, step, k);
  }

  /** value(step) of an element node. */
  function ValueOf<T>(values: Values<T>, v: Ref, step: int): Option<T>
  {
    if v in values then ValueAt(values[v], step) else None
  }

  /** The element the node `r` holds at `step`. */
  function ElementOf<T>(links: Links, values: Values<T>, r: Ref, step: int): Option<T>
  {
    match Read(links, Some(r), step)
    case None => None
    case Some(d) => ValueOf(values, d.value, step)
  }

  /** The element node the node `r` refers to at `step`. */
  function ValueRef(links: Links, r: Ref, step: int): Option<Ref>
  {
    match Read(links, Some(r), step)
    case None => None
    case Some(d) => Some(d.value)
  }

  // ---------------------------------------------------------------------------------------
  // The walks along next links

  /** pseudoHead.value(step).getNext(): where every walk starts. */
  function First(links: Links, s: Sentinels, step: int): Result<Option<Ref>>
  {
    match Read(links, s.pseudoHead, step)
    case None => Failure(NullPointer)
    case Some(d) => Success(d.next)
  }

  /** findNode's walk: `k` next links on from `cur`; dereferencing null throws. */
  function Follow(links: Links, cur: Option<Ref>, step: int, k: nat): Result<Option<Ref>>
    decreases k
  {
    if k == 0 then Success(cur)
    else
      match Read(links, cur, step)
      case None => Failure(NullPointer)
      case Some(d) => Follow(links, d.next, step, k - 1)
  }

  /** findNode(num): `num` next links on from the first node of the list with sentinels `s`. */
  function FindNode(links: Links, s: Sentinels, step: int, num: nat): Result<Option<Ref>>
  {
    match First(links, s, step)
    case Failure(e) => Failure(e)
    case Success(cur) => Follow(links, cur, step, num)
  }

  /** toList's walk: the elements of `n` nodes from `cur` on. */
  function Collect<T>(links: Links, values: Values<T>, cur: Option<Ref>, step: int, n: nat): Result<seq<Option<T>>>
    decreases n
  {
    if n == 0 then Success([])
    else
      match Read(links, cur, step)
      case None => Failure(NullPointer)
      case Some(d) =>
        match Collect(links, values, d.next, step, n - 1)
        case Failure(e) => Failure(e)
        case Success(rest) => Success([ValueOf(values, d.value, step)] + rest)
  }

  /** toList(step) of a list with `count` elements whose sentinels are `s`. */
  function ToList<T>(links: Links, values: Values<T>, s: Sentinels, step: int, count: nat): Result<seq<Option<T>>>
  {
    match First(links, s, step)
    case Failure(e) => Failure(e)
    case Success(cur) => Collect(links, values, cur, step, count)
  }

  /**
   * contains' walk over `n` nodes from `cur`: true at the first element equal to `item`; a
   * null element met before that throws, since equals is called on it.
   */
  function Search<T(==)>(links: Links, values: Values<T>, cur: Option<Ref>, step: int, n: nat, item: Option<T>): Result<bool>
    decreases n
  {
    if n == 0 then Success(false)
    else
      match Read(links, cur, step)
      case None => Failure(NullPointer)
      case Some(d) =>
        match ValueOf(values, d.value, step)
        case None => Failure(NullPointer)
        case Some(x) => if Some(x) == item then Success(true) else Search(links, values, d.next, step, n - 1, item)
  }

  /** The reference answer of contains on a list of elements. */
  function FirstMatch<T(==)>(xs: seq<Option<T>>, item: Option<T>): Result<bool>
  {
    if |xs| == 0 then Success(false)
    else if xs[0].None? then Failure(NullPointer)
    else if xs[0] == item then Success(true)
    else FirstMatch(xs[1..], item)
  }

  /** On a list without nulls, contains answers membership. */
  lemma {:induction false} FirstMatchMember<T>(xs: seq<Option<T>>, item: Option<T>)
    requires forall i :: 0 <= i < |xs| ==> xs[i].Some?
    ensures FirstMatch(xs, item) == Success(item in xs)
  {
    if |xs| != 0 {
      FirstMatchMember(xs[1..], item);
      assert xs == [xs[0]] + xs[1..];
    }
  }

  // ---------------------------------------------------------------------------------------
  // Well-formed lists

  /** Every node of `c` reads as a record at `step`. */
  ghost predicate AllRead(links: Links, c: seq<Ref>, step: int)
  {
    forall i {:trigger HasRecord(links, c[i], step)} :: 0 <= i < |c| ==> HasRecord(links, c[i], step)
  }

  /** The node `r` reads as a record at `step`. */
  ghost predicate HasRecord(links: Links, r: Ref, step: int)
  {
    Read(links, Some(r), step).Some?
  }

  /** The records the nodes of `c` hold at `step`. */
  ghost function Snapshot(links: Links, c: seq<Ref>, step: int): (rs: seq<Data>)
    requires AllRead(links, c, step)
    ensures |rs| == |c| && forall i {:trigger rs[i]} :: 0 <= i < |c| ==> Read(links, Some(c[i]), step) == Some(rs[i])
  {
    assert forall i :: 0 <= i < |c| ==> HasRecord(links, c[i], step);
    seq(|c|, i requires 0 <= i < |c| && AllRead(links, c, step) => assert HasRecord(links, c[i], step); Read(links, Some(c[i]), step).value)
  }

  /**
   * The records `rs` of the nodes `c` make a well-formed doubly linked list: distinct nodes,
   * each linked both ways to its neighbours, nothing before the first or after the last,
   * and distinct element nodes.
   */
  ghost predicate WellLinked<T>(c: seq<Ref>, rs: seq<Data>, values: Values<T>)
  {
    |rs| == |c| && 2 <= |c| &&
    (forall i, j :: 0 <= i < j < |c| ==> c[i] != c[j]) &&
    (forall i :: 0 <= i < |c| ==> rs[i].next == (if i + 1 < |c| then Some(c[i + 1]) else None)) &&
    (forall i :: 0 <= i < |c| ==> rs[i].previous == (if 0 < i then Some(c[i - 1]) else None)) &&
    (forall i :: 0 <= i < |c| ==> rs[i].value in values) &&
    (forall i, j :: 0 <= i < j < |c| ==> rs[i].value != rs[j].value)
  }

  /**
   * Nodes picked in order (at increasing positions `f`) from a well-formed list, with at most
   * one fresh node among them (marked by a negative position) and records that keep their
   * values and link the picked nodes to each other, form a well-formed list.
   */
  lemma PickedWellLinked<T>(c: seq<Ref>, rs: seq<Data>, values: Values<T>, c': seq<Ref>, rs': seq<Data>,
                            values': Values<T>, f: seq<int>)
    requires WellLinked(c, rs, values) && |f| == |c'| == |rs'| && 2 <= |c'|
    requires forall v :: v in values ==> v in values'
    requires forall i :: 0 <= i < |f| && 0 <= f[i] ==> f[i] < |c| && c'[i] == c[f[i]] && rs'[i].value == rs[f[i]].value
    requires forall i :: 0 <= i < |f| && f[i] < 0 ==> c'[i] !in c && rs'[i].value !in values && rs'[i].value in values'
    requires forall i, j :: 0 <= i < j < |f| ==> (0 <= f[i] && 0 <= f[j] && f[i] < f[j]) || (f[i] < 0 && 0 <= f[j]) || (0 <= f[i] && f[j] < 0)
    requires forall i :: 0 <= i < |c'| ==> rs'[i].next == (if i + 1 < |c'| then Some(c'[i + 1]) else None)
    requires forall i :: 0 <= i < |c'| ==> rs'[i].previous == (if 0 < i then Some(c'[i - 1]) else None)
    ensures WellLinked(c', rs', values')
  {
    forall i | 0 <= i < |c'| ensures rs'[i].value in values' {
      if 0 <= f[i] {
        assert rs[f[i]].value in values;
      }
    }
    forall i, j | 0 <= i < j < |c'| ensures c'[i] != c'[j] && rs'[i].value != rs'[j].value {
      if 0 <= f[i] && 0 <= f[j] {
        assert f[i] < f[j];
      } else if 0 <= f[i] {
        assert c[f[i]] in c && rs[f[i]].value in values;
      } else {
        assert c[f[j]] in c && rs[f[j]].value in values;
      }
    }
  }

  /** The nodes `c` form a well-formed doubly linked list at `step`. */
  ghost predicate Chain<T>(links: Links, values: Values<T>, c: seq<Ref>, step: int)
  {
    AllRead(links, c, step) && WellLinked(c, Snapshot(links, c, step), values)
  }

  /** A well-formed list stays well-formed over more element nodes. */
  lemma WellLinkedWider<T>(c: seq<Ref>, rs: seq<Data>, values: Values<T>, values': Values<T>)
    requires WellLinked(c, rs, values) && values.Keys <= values'.Keys
    ensures WellLinked(c, rs, values')
  {
  }

  /** The sentinels of `s` around the nodes `ns`. */
  function ChainOf(s: Sentinels, ns: seq<Ref>): (c: seq<Ref>)
    requires s.pseudoHead.Some? && s.pseudoTail.Some?
    ensures |c| == |ns| + 2 && c[0] == s.pseudoHead.value && c[|c| - 1] == s.pseudoTail.value
    ensures forall i :: 0 <= i < |ns| ==> c[i + 1] == ns[i]
  {
    [s.pseudoHead.value] + ns + [s.pseudoTail.value]
  }

  /** At `step`, the list with sentinels `s` holds exactly the nodes `ns`, in order. */
  ghost predicate Linked<T>(links: Links, values: Values<T>, s: Sentinels, step: int, ns: seq<Ref>)
  {
    s.pseudoHead.Some? && s.pseudoTail.Some? && Chain(links, values, ChainOf(s, ns), step)
  }

  /** The elements the nodes `ns` hold at `step`. */
  ghost function Items<T>(links: Links, values: Values<T>, ns: seq<Ref>, step: int): (xs: seq<Option<T>>)
    ensures |xs| == |ns|
  {
    seq(|ns|, i requires 0 <= i < |ns| => ElementOf(links, values, ns[i], step))
  }

  /** Nothing was written to node `r` or to its element node after `step`. */
  ghost predicate SettledNode<T>(links: Links, values: Values<T>, r: Ref, step: int)
  {
    r in links && (forall k :: k in links[r] ==> k <= step) &&
    (ValueRef(links, r, step).Some? && ValueRef(links, r, step).value in values ==>
      forall k :: k in values[ValueRef(links, r, step).value] ==> k <= step)
  }

  /** Nothing was written to the nodes of `c` after `step`: later steps read as `step` does. */
  ghost predicate Settled<T>(links: Links, values: Values<T>, c: seq<Ref>, step: int)
  {
    forall i {:trigger SettledNode(links, values, c[i], step)} :: 0 <= i < |c| ==> SettledNode(links, values, c[i], step)
  }

  /** Records read one by one, node for node, are the snapshot. */
  lemma SnapshotIs(links: Links, c: seq<Ref>, step: int, rs: seq<Data>)
    requires |rs| == |c| && forall i :: 0 <= i < |c| ==> Read(links, Some(c[i]), step) == Some(rs[i])
    ensures AllRead(links, c, step) && Snapshot(links, c, step) == rs
  {
    forall i | 0 <= i < |c| ensures HasRecord(links, c[i], step) {
    }
  }

  /**
   * A node of a settled chain that a write to `a` and `b` left alone reads at step + 1 the
   * record it held at `step`.
   */
  lemma UntouchedChain<T>(links: Links, values: Values<T>, links': Links, c: seq<Ref>, step: int, a: Ref, b: Ref, i: int)
    requires AllRead(links, c, step) && Settled(links, values, c, step) && 0 <= i < |c| && c[i] != a && c[i] != b
    requires forall x :: x in links && x != a && x != b ==> x in links' && links'[x] == links[x]
    ensures Read(links', Some(c[i]), step + 1) == Some(Snapshot(links, c, step)[i])
  {
    assert HasRecord(links, c[i], step) && SettledNode(links, values, c[i], step);
    SettledRead(links, values, c[i], step, step + 1);
  }

  /** A settled chain that a write to `r`, not on it, left alone reads at step + 1 as it read at `step`. */
  lemma UntouchedAll<T>(links: Links, values: Values<T>, links': Links, c: seq<Ref>, step: int, r: Ref)
    requires AllRead(links, c, step) && Settled(links, values, c, step) && r !in c
    requires forall x :: x in links && x != r ==> x in links' && links'[x] == links[x]
    ensures AllRead(links', c, step + 1) && Snapshot(links', c, step + 1) == Snapshot(links, c, step)
  {
    var rs := Snapshot(links, c, step);
    forall i | 0 <= i < |c| ensures Read(links', Some(c[i]), step + 1) == Some(rs[i]) {
      UntouchedChain(links, values, links', c, step, r, r, i);
    }
    SnapshotIs(links', c, step + 1, rs);
  }

  /**
   * A settled node read again at step + 1, possibly under another reference, with a record
   * that keeps its element node, holds the same element there if that element node was left alone.
   */
  lemma ElementKept<T>(links: Links, values: Values<T>, links': Links, values': Values<T>, r: Ref, r': Ref, step: int,
                       d: Data, d': Data)
    requires Read(links, Some(r), step) == Some(d) && Read(links', Some(r'), step + 1) == Some(d') && d'.value == d.value
    requires SettledNode(links, values, r, step) && d.value in values && d.value in values' && values'[d.value] == values[d.value]
    ensures ElementOf(links', values', r', step + 1) == ElementOf(links, values, r, step)
  {
    assert ValueRef(links, r, step) == Some(d.value);
    ValueSettled(values, d.value, step, step + 1);
  }

  /** A settled node reads the same at every later step. */
  lemma SettledRead<T>(links: Links, values: Values<T>, r: Ref, step: int, at: int)
    requires SettledNode(links, values, r, step) && step <= at
    ensures Read(links, Some(r), at) == Read(links, Some(r), step)
    ensures ElementOf(links, values, r, at) == ElementOf(links, values, r, step)
  {
    ReadsAfterLastWrite(links[r], step, at);
    match Read(links, Some(r), step)
    case None =>
    case Some(d) =>
      if d.value in values {
        ReadsAfterLastWrite(values[d.value], step, at);
      }
  }

  // ---------------------------------------------------------------------------------------
  // Versions below a write

  /** Every node of `links` reads in `links'` as it did, at every step up to `step`. */
  ghost predicate KeptUpTo(links: Links, links': Links, step: int)
  {
    forall r :: r in links ==> r in links' && Restrict(links'[r], step) == Restrict(links[r], step)
  }

  /** Every element node of `values` reads in `values'` as it did, at every step up to `step`. */
  ghost predicate ValuesKeptUpTo<T>(values: Values<T>, values': Values<T>, step: int)
  {
    forall v :: v in values ==> v in values' && Restrict(values'[v], step) == Restrict(values[v], step)
  }

  /** Every object of the old arena is still there and holds what it held. */
  ghost predicate Grown<T>(links: Links, values: Values<T>, links': Links, values': Values<T>)
  {
    (forall r :: r in links ==> r in links' && links'[r] == links[r]) &&
    (forall v :: v in values ==> v in values' && values'[v] == values[v])
  }

  /** A write above `step` keeps every version up to `step`. */
  lemma WriteKeeps(links: Links, r: Ref, w: int, d: Data, step: int)
    requires r in links && step < w
    ensures KeptUpTo(links, Write(links, r, w, d), step)
  {
    assert Restrict(links[r][w := d], step) == Restrict(links[r], step);
  }

  /** KeptUpTo composes. */
  lemma KeptTrans(l1: Links, l2: Links, l3: Links, step: int)
    requires KeptUpTo(l1, l2, step) && KeptUpTo(l2, l3, step)
    ensures KeptUpTo(l1, l3, step)
  {
  }

  /** An element node with no write after `step` reads the same at every later step. */
  lemma ValueSettled<T>(values: Values<T>, v: Ref, step: int, at: int)
    requires v in values && (forall k :: k in values[v] ==> k <= step) && step <= at
    ensures ValueOf(values, v, at) == ValueOf(values, v, step)
  {
    ReadsAfterLastWrite(values[v], step, at);
  }

  /** Writes above `step` and new nodes leave every version up to `step` as it was. */
  lemma {:induction false} PastKept<T>(links: Links, values: Values<T>, links': Links, values': Values<T>,
                                       c: seq<Ref>, step: int, at: int)
    requires KeptUpTo(links, links', step) && ValuesKeptUpTo(values, values', step) && at <= step
    requires Chain(links, values, c, at)
    ensures Chain(links', values', c, at) && Snapshot(links', c, at) == Snapshot(links, c, at)
    ensures Items(links', values', c, at) == Items(links, values, c, at)
  {
    forall i | 0 <= i < |c|
      ensures Read(links', Some(c[i]), at) == Read(links, Some(c[i]), at)
      ensures HasRecord(links', c[i], at)
      ensures ElementOf(links', values', c[i], at) == ElementOf(links, values, c[i], at)
    {
      var x := c[i];
      assert HasRecord(links, x, at);
      RestrictReads(links[x], step, at);
      RestrictReads(links'[x], step, at);
      var d := Read(links, Some(x), at).value;
      assert d.value in values by {
        assert d == Snapshot(links, c, at)[i];
      }
      RestrictReads(values[d.value], step, at);
      RestrictReads(values'[d.value], step, at);
    }
    assert Snapshot(links', c, at) == Snapshot(links, c, at);
  }

  // ---------------------------------------------------------------------------------------
  // The walks over a well-formed list

  /** The record a chain node holds, as the walks use it. */
  lemma ChainAt<T>(links: Links, values: Values<T>, c: seq<Ref>, step: int, i: int)
    requires Chain(links, values, c, step) && 0 <= i < |c|
    ensures Read(links, Some(c[i]), step).Some?
    ensures Read(links, Some(c[i]), step).value.next == if i + 1 < |c| then Some(c[i + 1]) else None
    ensures Read(links, Some(c[i]), step).value.value in values
  {
    assert Read(links, Some(c[i]), step) == Some(Snapshot(links, c, step)[i]);
  }

  /** The element a chain node holds is the value of its record's element node. */
  lemma ChainElement<T>(links: Links, values: Values<T>, c: seq<Ref>, step: int, i: int)
    requires Chain(links, values, c, step) && 0 <= i < |c|
    ensures ElementOf(links, values, c[i], step) == ValueOf(values, Snapshot(links, c, step)[i].value, step)
  {
  }

  /**
   * A node of a later chain whose record refers to the element node of a settled node of an
   * earlier chain holds the same element.
   */
  lemma SettledItem<T>(links: Links, values: Values<T>, c: seq<Ref>, step: int, j: int,
                       links': Links, c': seq<Ref>, at: int, i: int)
    requires Chain(links, values, c, step) && Settled(links, values, c, step) && 0 <= j < |c|
    requires Chain(links', values, c', at) && 0 <= i < |c'| && step <= at
    requires Snapshot(links', c', at)[i].value == Snapshot(links, c, step)[j].value
    ensures ElementOf(links', values, c'[i], at) == ElementOf(links, values, c[j], step)
  {
    var v := Snapshot(links, c, step)[j].value;
    assert SettledNode(links, values, c[j], step);
    assert ValueRef(links, c[j], step) == Some(v);
    ValueSettled(values, v, step, at);
  }

  /**
   * Walking `n` nodes of a chain from its `i`-th collects their elements; the walk may
   * reach the last node (the tail), whose element is collected like any other.
   */
  lemma {:induction false} CollectChain<T>(links: Links, values: Values<T>, c: seq<Ref>, step: int, i: nat, n: nat)
    requires Chain(links, values, c, step) && 1 <= i < |c| && i + n <= |c|
    ensures Collect(links, values, Some(c[i]), step, n) == Success(Items(links, values, c[i..i + n], step))
    decreases n
  {
    if n > 0 {
      ChainAt(links, values, c, step, i);
      if n > 1 {
        CollectChain(links, values, c, step, i + 1, n - 1);
      }
      assert Items(links, values, c[i..i + n], step) ==
        [ElementOf(links, values, c[i], step)] + Items(links, values, c[i + 1..i + n], step);
    }
  }

  /** The walk over `n` nodes of a chain sees only those nodes' records. */
  lemma {:induction false} CollectAgrees<T>(links: Links, links': Links, values: Values<T>, c: seq<Ref>, step: int, i: nat, n: nat)
    requires Chain(links, values, c, step) && 1 <= i && i + n <= |c| - 1
    requires forall k :: i <= k < i + n ==> Read(links', Some(c[k]), step) == Read(links, Some(c[k]), step)
    ensures Collect(links', values, Some(c[i]), step, n) == Collect(links, values, Some(c[i]), step, n)
    decreases n
  {
    if n > 0 {
      ChainAt(links, values, c, step, i);
      CollectAgrees(links, links', values, c, step, i + 1, n - 1);
    }
  }

  /** toList of a well-formed list returns the elements of its nodes. */
  lemma ListView<T>(links: Links, values: Values<T>, s: Sentinels, step: int, ns: seq<Ref>)
    requires Linked(links, values, s, step, ns)
    ensures First(links, s, step) == Success(Some(ChainOf(s, ns)[1]))
    ensures ToList(links, values, s, step, |ns|) == Success(Items(links, values, ns, step))
  {
    var c := ChainOf(s, ns);
    assert Read(links, Some(c[0]), step) == Some(Snapshot(links, c, step)[0]);
    CollectChain(links, values, c, step, 1, |ns|);
    assert c[1..1 + |ns|] == ns;
  }

  /**
   * toList told one element more than a well-formed list holds walks on into the tail and
   * lists the tail's own element node last, without failing.
   */
  lemma ListOverrun<T>(links: Links, values: Values<T>, s: Sentinels, step: int, ns: seq<Ref>)
    requires Linked(links, values, s, step, ns)
    ensures ToList(links, values, s, step, |ns| + 1) ==
      Success(Items(links, values, ns, step) + [ElementOf(links, values, s.pseudoTail.value, step)])
  {
    var c := ChainOf(s, ns);
    assert Read(links, Some(c[0]), step) == Some(Snapshot(links, c, step)[0]);
    CollectChain(links, values, c, step, 1, |ns| + 1);
    var t := s.pseudoTail.value;
    assert c[1..1 + |ns| + 1] == ns + [t];
    var xs := Items(links, values, ns + [t], step);
    assert xs[|ns|] == ElementOf(links, values, t, step);
    assert xs == Items(links, values, ns, step) + [ElementOf(links, values, t, step)];
  }

  /** A walk that succeeds lists exactly as many elements as it was told to walk. */
  lemma {:induction false} CollectLength<T>(links: Links, values: Values<T>, cur: Option<Ref>, step: int, n: nat)
    requires Collect(links, values, cur, step, n).Success?
    ensures |Collect(links, values, cur, step, n).value| == n
    decreases n
  {
    if n > 0 {
      CollectLength(links, values, Read(links, cur, step).value.next, step, n - 1);
    }
  }

  /**
   * findNode on a chain: `k` steps from its `i`-th node reach the node `k` further on; one
   * step past the last node gives null, and more throw.
   */
  lemma {:induction false} FollowChain<T>(links: Links, values: Values<T>, c: seq<Ref>, step: int, i: nat, k: nat)
    requires Chain(links, values, c, step) && 1 <= i < |c|
    ensures Follow(links, Some(c[i]), step, k) ==
      if i + k < |c| then Success(Some(c[i + k]))
      else if i + k == |c| then Success(None)
      else Failure(NullPointer)
    decreases k
  {
    if k > 0 {
      ChainAt(links, values, c, step, i);
      if i + 1 < |c| {
        FollowChain(links, values, c, step, i + 1, k - 1);
      }
    }
  }

  /**
   * findNode on a well-formed list: index `num` up to the count reaches the `num`-th node,
   * the count itself reaching the tail; one more gives null, and beyond that the walk throws.
   */
  lemma FindNodeLinked<T>(links: Links, values: Values<T>, s: Sentinels, step: int, ns: seq<Ref>, num: nat)
    requires Linked(links, values, s, step, ns)
    ensures FindNode(links, s, step, num) ==
      if num < |ns| then Success(Some(ns[num]))
      else if num == |ns| then Success(s.pseudoTail)
      else if num == |ns| + 1 then Success(None)
      else Failure(NullPointer)
  {
    ListView(links, values, s, step, ns);
    FollowChain(links, values, ChainOf(s, ns), step, 1, num);
  }

  /** contains' walk over a chain answers as FirstMatch on its elements. */
  lemma {:induction false} SearchChain<T>(links: Links, values: Values<T>, c: seq<Ref>, step: int, i: nat, n: nat, item: Option<T>)
    requires Chain(links, values, c, step) && 1 <= i && i + n <= |c| - 1
    ensures Search(links, values, Some(c[i]), step, n, item) == FirstMatch(Items(links, values, c[i..i + n], step), item)
    decreases n
  {
    if n > 0 {
      ChainAt(links, values, c, step, i);
      SearchChain(links, values, c, step, i + 1, n - 1, item);
      var xs := Items(links, values, c[i..i + n], step);
      assert xs[1..] == Items(links, values, c[i + 1..i + n], step);
    }
  }
}
