/**
 * reassembleNodes of the persistent linked list
 * (persistence/structure/list/PersistentLinkedList.java): when the storage has moved past a
 * version, a write to that version first copies the version into fresh fat nodes, replaying
 * every modification made up to the version's step, and works on the copy.
 */
module LinkedRebuild {
  import opened Wrappers
  import opened RedBlackTree
  import opened FatNode
  import opened Storage
  import opened LinkedData

  /**
   * One collected modification: the id of the record written (the map entry's key), the
   * step it was written at and the record itself.
   */
  datatype Entry = Entry(id: Id, step: int, data: Data)

  // ---------------------------------------------------------------------------------------
  // Stable sorting (Stream.sorted and List.sort keep equal elements in their order)

  /** Pairs compared first on the first component, then on the second. */
  predicate NoLater(a: (int, int), b: (int, int))
  {
    a.0 < b.0 || (a.0 == b.0 && a.1 <= b.1)
  }

  predicate SortedBy(xs: seq<Entry>, key: Entry -> (int, int))
  {
    forall i, j :: 0 <= i < j < |xs| ==> NoLater(key(xs[i]), key(xs[j]))
  }

  /** `x` placed before the first element whose key is not below its own. */
  function Insert(x: Entry, xs: seq<Entry>, key: Entry -> (int, int)): (r: seq<Entry>)
    ensures multiset(r) == multiset(xs) + multiset{x}
  {
    if xs == [] || NoLater(key(x), key(xs[0])) then [x] + xs
    else
      assert xs == [xs[0]] + xs[1..];
      [xs[0]] + Insert(x, xs[1..], key)
  }

  /** A stable insertion sort by `key`. */
  function SortBy(xs: seq<Entry>, key: Entry -> (int, int)): (r: seq<Entry>)
    ensures multiset(r) == multiset(xs)
  {
    if xs == [] then []
    else
      assert xs == [xs[0]] + xs[1..];
      Insert(xs[0], SortBy(xs[1..], key), key)
  }

  lemma {:induction false} InsertSorted(x: Entry, xs: seq<Entry>, key: Entry -> (int, int))
    requires SortedBy(xs, key)
    ensures SortedBy(Insert(x, xs, key), key)
    decreases |xs|
  {
    if xs == [] || NoLater(key(x), key(xs[0])) {
    } else {
      InsertSorted(x, xs[1..], key);
      var r := Insert(x, xs[1..], key);
      forall e | e in r ensures NoLater(key(xs[0]), key(e)) {
        assert e in multiset(xs[1..]) + multiset{x};
        if e in xs[1..] {
          var k :| 0 <= k < |xs[1..]| && xs[1..][k] == e;
          assert xs[k + 1] == e;
        }
      }
      ConsSorted(xs[0], r, key);
    }
  }

  /** An element no later than every element of a sorted sequence can go in front of it. */
  lemma ConsSorted(a: Entry, r: seq<Entry>, key: Entry -> (int, int))
    requires SortedBy(r, key) && forall e :: e in r ==> NoLater(key(a), key(e))
    ensures SortedBy([a] + r, key)
  {
    var r' := [a] + r;
    forall i, j | 0 <= i < j < |r'| ensures NoLater(key(r'[i]), key(r'[j])) {
      if i == 0 {
        assert r'[j] == r[j - 1] && r[j - 1] in r;
      } else {
        assert r'[i] == r[i - 1] && r'[j] == r[j - 1];
      }
    }
  }

  /** The sort orders by its key and keeps the elements, each as often as before. */
  lemma {:induction false} SortBySorted(xs: seq<Entry>, key: Entry -> (int, int))
    ensures SortedBy(SortBy(xs, key), key)
    ensures multiset(SortBy(xs, key)) == multiset(xs)
  {
    if xs != [] {
      SortBySorted(xs[1..], key);
      InsertSorted(xs[0], SortBy(xs[1..], key), key);
    }
  }

  /** Stability on input already in order: the sort then changes nothing. */
  lemma {:induction false} SortByKeepsSorted(xs: seq<Entry>, key: Entry -> (int, int))
    requires SortedBy(xs, key)
    ensures SortBy(xs, key) == xs
  {
    if xs != [] {
      assert SortedBy(xs[1..], key) by {
        forall i, j | 0 <= i < j < |xs[1..]| ensures NoLater(key(xs[1..][i]), key(xs[1..][j])) {
          assert xs[1..][i] == xs[i + 1] && xs[1..][j] == xs[j + 1];
        }
      }
      SortByKeepsSorted(xs[1..], key);
      if |xs| > 1 {
        assert NoLater(key(xs[0]), key(xs[1]));
        assert xs[1..][0] == xs[1];
      }
      assert xs == [xs[0]] + xs[1..];
    }
  }

  // ---------------------------------------------------------------------------------------
  // Collecting the modifications

  /** The pairs at steps up to `mc`, each keyed by the id of its record. */
  function Listed(ms: seq<(int, Data)>, mc: int): (r: seq<Entry>)
    ensures forall e :: e in r ==> (e.step, e.data) in ms && e.step <= mc && e.id == e.data.id
  {
    if ms == [] then []
    else
      var rest := Listed(ms[1..], mc);
      if ms[0].0 <= mc then [Entry(ms[0].1.id, ms[0].0, ms[0].1)] + rest else rest
  }

  function ById(e: Entry): (int, int)
  {
    (e.id, 0)
  }

  /**
   * neededModifications of one node: its modifications in step order, those up to `mc`,
   * then sorted by id. Each is a record the node holds at its step.
   */
  function NodeEntries(h: History<Data>, mc: int): (r: seq<Entry>)
    ensures forall e :: e in r ==> e.step in h && h[e.step] == e.data && e.step <= mc && e.id == e.data.id
  {
    var ms := Modifications(h);
    var xs := Listed(ms, mc);
    var r := SortBy(xs, ById);
    assert forall e :: e in r ==> e.step in h && h[e.step] == e.data && e.step <= mc && e.id == e.data.id by {
      forall e | e in r ensures e.step in h && h[e.step] == e.data && e.step <= mc && e.id == e.data.id {
        assert e in multiset(xs);
        assert e in xs;
        var i :| 0 <= i < |ms| && ms[i] == (e.step, e.data);
        EntryLookup(ms, i);
      }
    }
    r
  }

  /**
   * The sort by id changes nothing when every record of the node carries one id, as
   * records of one list node do: its modifications stay in step order.
   */
  lemma OneIdInStepOrder(h: History<Data>, mc: int, id: Id)
    requires forall k :: k in h ==> h[k].id == id
    ensures NodeEntries(h, mc) == Listed(Modifications(h), mc)
  {
    var xs := Listed(Modifications(h), mc);
    assert forall e :: e in xs ==> e.id == id by {
      forall e | e in xs ensures e.id == id {
        var i :| 0 <= i < |Modifications(h)| && Modifications(h)[i] == (e.step, e.data);
        EntryLookup(Modifications(h), i);
      }
    }
    assert SortedBy(xs, ById) by {
      forall i, j | 0 <= i < j < |xs| ensures NoLater(ById(xs[i]), ById(xs[j])) {
        assert xs[i] in xs && xs[j] in xs;
      }
    }
    SortByKeepsSorted(xs, ById);
  }

  /**
   * The walk of reassembleNodes' first loop: `n` nodes from `current` on, each adding its
   * entries and recording their number under the id it holds at `mc`; a null node or a
   * null record throws.
   */
  function Gather(links: Links, current: Option<Ref>, mc: int, n: nat, es: seq<Entry>, counts: map<Id, int>)
    : Result<(seq<Entry>, map<Id, int>)>
    decreases n
  {
    if n == 0 then Success((es, counts))
    else if current.None? || current.value !in links then Failure(NullPointer)
    else
      var own := NodeEntries(links[current.value], mc);
      match Read(links, current, mc)
      case None => Failure(NullPointer)
      case Some(d) => Gather(links, d.next, mc, n - 1, es + own, counts[d.id := |own|])
  }

  /** A collected entry: at most `mc`, keyed by its record's id, its record closed in the arena. */
  ghost predicate Fit<T>(links: Links, values: Values<T>, nextId: Id, mc: int, e: Entry)
  {
    e.step <= mc && e.id == e.data.id && Closed(links, values, nextId, e.data)
  }

  /** The entries of one node of the arena are collected entries. */
  lemma OwnFit<T>(links: Links, values: Values<T>, nextId: Id, mc: int, x: Ref, es: seq<Entry>)
    requires forall x, k :: x in links && k in links[x] ==> Closed(links, values, nextId, links[x][k])
    requires forall e :: e in es ==> Fit(links, values, nextId, mc, e)
    requires x in links
    ensures forall e :: e in es + NodeEntries(links[x], mc) ==> Fit(links, values, nextId, mc, e)
  {
    var own := NodeEntries(links[x], mc);
    forall e | e in es + own ensures Fit(links, values, nextId, mc, e) {
      if e !in es {
        assert e in own;
      }
    }
  }

  /** The loop collecting allModifications and nodeModificationCount. */
  method CollectModifications<T>(arena: Arena<T>, s: Sentinels, mc: int, count: int)
    returns (r: Result<(seq<Entry>, map<Id, int>)>)
    requires arena.Valid() && -2 <= count
    ensures r == Gather(arena.links, s.pseudoHead, mc, count + 2, [], map[])
    ensures r.Success? ==> forall e :: e in r.value.0 ==> Fit(arena.links, arena.values, arena.nextId, mc, e)
  {
    var es: seq<Entry> := [];
    var counts: map<Id, int> := map[];
    var current := s.pseudoHead;
    var i := count;
    while i != -2
      invariant -2 <= i
      invariant Gather(arena.links, s.pseudoHead, mc, count + 2, [], map[]) == Gather(arena.links, current, mc, i + 2, es, counts)
      invariant forall e :: e in es ==> Fit(arena.links, arena.values, arena.nextId, mc, e)
      decreases i + 2
    {
      if current.None? || current.value !in arena.links {
        return Failure(NullPointer);
      }
      var own := NodeEntries(arena.links[current.value], mc);
      var d := Read(arena.links, current, mc);
      if d.None? {
        return Failure(NullPointer);
      }
      OwnFit(arena.links, arena.values, arena.nextId, mc, current.value, es);
      es := es + own;
      counts := counts[d.value.id := |own|];
      current := d.value.next;
      i := i - 1;
    }
    r := Success((es, counts));
  }

  // ---------------------------------------------------------------------------------------
  // Ordering

  /** The replay key: the step, then the number of entries of the entry's node. */
  function Rank(counts: map<Id, int>, e: Entry): (int, int)
  {
    (e.step, if e.id in counts then counts[e.id] else 0)
  }

  /**
   * Two entries share a step and one of them has no count: comparing them unboxes the
   * null nodeModificationCount.get answers.
   */
  predicate Uncounted(es: seq<Entry>, counts: map<Id, int>)
  {
    exists i, j :: 0 <= i < |es| && 0 <= j < |es| && i != j && es[i].step == es[j].step && es[i].id !in counts
  }

  /**
   * orderedModifications: grouped by step, each group sorted by node count, then sorted by
   * step; both sorts are stable, so this is one stable sort on (step, count).
   */
  function Order(es: seq<Entry>, counts: map<Id, int>): (r: Result<seq<Entry>>)
    ensures r.Failure? <==> Uncounted(es, counts)
    ensures r.Success? ==> multiset(r.value) == multiset(es) && SortedBy(r.value, e => Rank(counts, e))
  {
    if Uncounted(es, counts) then Failure(NullPointer)
    else
      SortBySorted(es, e => Rank(counts, e));
      Success(SortBy(es, e => Rank(counts, e)))
  }

  /**
   * The entry is its node's first collected record: no record of the same node is older.
   * Up to the version's step, a node's first record is the one that created it.
   */
  predicate Creation(es: seq<Entry>, e: Entry)
  {
    forall f :: f in es && f.id == e.id ==> e.step <= f.step
  }

  /**
   * The replay key of the corrected order: the step, within a step the creations before
   * the other records, then the node count as before.
   */
  function CreationRank(es: seq<Entry>, counts: map<Id, int>, e: Entry): (int, int)
  {
    (2 * e.step + (if Creation(es, e) then 0 else 1), if e.id in counts then counts[e.id] else 0)
  }

  /**
   * The replay order the rebuild needs: Order with each step's creations moved in front of
   * the step's other records. The rebuild itself replays in Order.
   */
  function ReplayOrder(es: seq<Entry>, counts: map<Id, int>): (r: Result<seq<Entry>>)
    ensures r.Failure? <==> Uncounted(es, counts)
    ensures r.Success? ==> multiset(r.value) == multiset(es) && SortedBy(r.value, e => CreationRank(es, counts, e))
  {
    if Uncounted(es, counts) then Failure(NullPointer)
    else
      SortBySorted(es, e => CreationRank(es, counts, e));
      Success(SortBy(es, e => CreationRank(es, counts, e)))
  }

  /**
   * In the replay order a node's creation comes before every record of a later step and
   * every other record of its own step: a record that links to a node existing at its step
   * is replayed after that node is rebuilt.
   */
  lemma CreationsFirst(es: seq<Entry>, counts: map<Id, int>)
    requires ReplayOrder(es, counts).Success?
    ensures var r := ReplayOrder(es, counts).value;
      forall i, j :: 0 <= i < |r| && 0 <= j < |r| && Creation(es, r[i]) &&
        (r[i].step < r[j].step || (r[i].step == r[j].step && !Creation(es, r[j])))
        ==> i < j
  {
    var r := ReplayOrder(es, counts).value;
    forall i, j | 0 <= i < |r| && 0 <= j < |r| && Creation(es, r[i]) &&
        (r[i].step < r[j].step || (r[i].step == r[j].step && !Creation(es, r[j])))
      ensures i < j
    {
      var ki, kj := CreationRank(es, counts, r[i]), CreationRank(es, counts, r[j]);
      assert ki.0 < kj.0;
      assert !NoLater(kj, ki) && ki != kj;
    }
  }

  // ---------------------------------------------------------------------------------------
  // A history the node-count order replays wrongly

  /**
   * The link nodes after addLast(x), addLast(y), removeLast(), addLast(z), removeLast() on
   * a new list: head `hd`, tail `tl` and the nodes `a` (x), `b` (y) and `c` (z), each under
   * a reference equal to its id; element nodes are 10 to 14. removeLast writes the tail at
   * the handle's own step.
   */
  function FiveWrites(hd: Id, tl: Id, a: Id, b: Id, c: Id): Links
  {
    map[
      hd := map[-1 := Data(None, None, 10, hd), 0 := Data(Some(tl), None, 10, hd), 1 := Data(Some(a), None, 10, hd)],
      tl := map[-1 := Data(None, None, 11, tl), 0 := Data(None, Some(hd), 11, tl), 1 := Data(None, Some(a), 11, tl),
                2 := Data(None, Some(a), 11, tl), 4 := Data(None, Some(a), 11, tl)],
      a := map[1 := Data(Some(tl), Some(hd), 12, a), 2 := Data(Some(b), Some(hd), 12, a), 3 := Data(Some(tl), Some(hd), 12, a),
               4 := Data(Some(c), Some(hd), 12, a), 5 := Data(Some(tl), Some(hd), 12, a)],
      b := map[2 := Data(Some(tl), Some(a), 13, b)],
      c := map[4 := Data(Some(tl), Some(a), 14, c)]
    ]
  }

  /**
   * What the first loop of reassembleNodes collects from FiveWrites for the version at
   * step 5 (one element): the walk head, a, tail, each node's records in step order.
   */
  function FiveWritesEntries(hd: Id, tl: Id, a: Id, b: Id, c: Id): seq<Entry>
  {
    [Entry(hd, -1, Data(None, None, 10, hd)), Entry(hd, 0, Data(Some(tl), None, 10, hd)),
     Entry(hd, 1, Data(Some(a), None, 10, hd)),
     Entry(a, 1, Data(Some(tl), Some(hd), 12, a)), Entry(a, 2, Data(Some(b), Some(hd), 12, a)),
     Entry(a, 3, Data(Some(tl), Some(hd), 12, a)), Entry(a, 4, Data(Some(c), Some(hd), 12, a)),
     Entry(a, 5, Data(Some(tl), Some(hd), 12, a)),
     Entry(tl, -1, Data(None, None, 11, tl)), Entry(tl, 0, Data(None, Some(hd), 11, tl)),
     Entry(tl, 1, Data(None, Some(a), 11, tl)), Entry(tl, 2, Data(None, Some(a), 11, tl)),
     Entry(tl, 4, Data(None, Some(a), 11, tl))]
  }

  /** The node counts of that walk: three records for the head, five for a and for the tail. */
  function FiveWritesCounts(hd: Id, tl: Id, a: Id): map<Id, int>
  {
    map[hd := 3, a := 5, tl := 5]
  }

  /** The ids of the entries: the nodes a replay of them has rebuilt. */
  function Ids(es: seq<Entry>): set<Id>
  {
    set e | e in es :: e.id
  }

  /** One more entry replayed adds its id. */
  lemma IdsNext(es: seq<Entry>, i: int)
    requires 0 <= i < |es|
    ensures Ids(es[..i + 1]) == Ids(es[..i]) + {es[i].id}
  {
    assert es[..i + 1] == es[..i] + [es[i]];
  }

  /** No entry of that walk lacks a count, so neither order throws. */
  lemma FiveWritesCounted(hd: Id, tl: Id, a: Id, b: Id, c: Id)
    ensures !Uncounted(FiveWritesEntries(hd, tl, a, b, c), FiveWritesCounts(hd, tl, a))
  {
    var es := FiveWritesEntries(hd, tl, a, b, c);
    forall i | 0 <= i < |es| ensures es[i].id in FiveWritesCounts(hd, tl, a) {
    }
  }

  /**
   * In the node-count order, a record of a node with fewer records goes before every record
   * of a node with more, from the record's step on: none of those is rebuilt when it replays.
   */
  lemma CountOrderBefore(es: seq<Entry>, counts: map<Id, int>, h: Entry, id: Id)
    requires !Uncounted(es, counts) && h in es
    requires h.id in counts && id in counts && counts[h.id] < counts[id]
    requires forall e :: e in es && e.id == id ==> h.step <= e.step
    ensures Order(es, counts).Success?
    ensures var r := Order(es, counts).value;
      exists i :: 0 <= i < |r| && r[i] == h && id !in Ids(r[..i])
  {
    var r := Order(es, counts).value;
    assert h in multiset(r);
    var i :| 0 <= i < |r| && r[i] == h;
    forall j | 0 <= j < i ensures r[j].id != id {
      assert NoLater(Rank(counts, r[j]), Rank(counts, r[i]));
      assert r[j] in multiset(es);
    }
  }

  /**
   * In the replay order, a node's creation goes before every other record of its step:
   * the node is rebuilt when they replay.
   */
  lemma ReplayOrderAfter(es: seq<Entry>, counts: map<Id, int>, h: Entry, a: Entry)
    requires !Uncounted(es, counts) && h in es && a in es
    requires Creation(es, a) && !Creation(es, h) && a.step == h.step
    ensures ReplayOrder(es, counts).Success?
    ensures var r := ReplayOrder(es, counts).value;
      exists i :: 0 <= i < |r| && r[i] == h && a.id in Ids(r[..i])
  {
    CreationsFirst(es, counts);
    var r := ReplayOrder(es, counts).value;
    assert h in multiset(r) && a in multiset(r);
    var i :| 0 <= i < |r| && r[i] == h;
    var j :| 0 <= j < |r| && r[j] == a;
    assert j < i;
    assert r[..i][j] == a;
  }

  /**
   * In FiveWrites node a reads, at step 1, its creating record: a link to it renames to the
   * rebuilt node registered under a, null when there is none.
   */
  lemma ReadFiveWrites(hd: Id, tl: Id, a: Id, b: Id, c: Id, newNodes: map<Id, Ref>)
    requires |{hd, tl, a, b, c}| == 5
    ensures Read(FiveWrites(hd, tl, a, b, c), Some(a), 1) == Some(Data(Some(tl), Some(hd), 12, a))
    ensures Relink(FiveWrites(hd, tl, a, b, c), newNodes, Some(a), 1) == Success(Lookup(newNodes, a))
  {
    NearestLessAt(FiveWrites(hd, tl, a, b, c)[a], 1, 1);
  }

  /** In that walk a's record of step 1 creates a, and the head's record of step 1 does not create the head. */
  lemma FiveWritesCreation(hd: Id, tl: Id, a: Id, b: Id, c: Id)
    requires |{hd, tl, a, b, c}| == 5
    ensures var es := FiveWritesEntries(hd, tl, a, b, c);
      es[2] in es && es[3] in es && Creation(es, es[3]) && !Creation(es, es[2])
  {
    var es := FiveWritesEntries(hd, tl, a, b, c);
    assert es[0] in es;
    forall f | f in es && f.id == a ensures 1 <= f.step {
      assert hd != a && tl != a;
    }
  }

  /**
   * The node-count order on FiveWrites, whatever the five ids: the head's record of step 1,
   * whose next is a, has the smaller count, so it is replayed before every record of a. The
   * nodes rebuilt by then do not include a, and the head's rebuilt next becomes null.
   */
  lemma OrderLinksBeforeCreation(hd: Id, tl: Id, a: Id, b: Id, c: Id)
    requires |{hd, tl, a, b, c}| == 5
    ensures Order(FiveWritesEntries(hd, tl, a, b, c), FiveWritesCounts(hd, tl, a)).Success?
    ensures var r := Order(FiveWritesEntries(hd, tl, a, b, c), FiveWritesCounts(hd, tl, a)).value;
      exists i :: 0 <= i < |r| && r[i] == FiveWritesEntries(hd, tl, a, b, c)[2] && a !in Ids(r[..i])
    ensures FiveWritesEntries(hd, tl, a, b, c)[2].data.next == Some(a)
    ensures forall newNodes :: a !in newNodes ==> Relink(FiveWrites(hd, tl, a, b, c), newNodes, Some(a), 1) == Success(None)
  {
    var es := FiveWritesEntries(hd, tl, a, b, c);
    FiveWritesCounted(hd, tl, a, b, c);
    assert es[2] in es;
    CountOrderBefore(es, FiveWritesCounts(hd, tl, a), es[2], a);
    forall newNodes | a !in newNodes
      ensures Relink(FiveWrites(hd, tl, a, b, c), newNodes, Some(a), 1) == Success(None)
    {
      ReadFiveWrites(hd, tl, a, b, c, newNodes);
    }
  }

  /**
   * The replay order on FiveWrites: a's creation is replayed before the head's record of
   * step 1, so that record's next is renamed to the rebuilt a.
   */
  lemma ReplayOrderLinksAfterCreation(hd: Id, tl: Id, a: Id, b: Id, c: Id)
    requires |{hd, tl, a, b, c}| == 5
    ensures ReplayOrder(FiveWritesEntries(hd, tl, a, b, c), FiveWritesCounts(hd, tl, a)).Success?
    ensures var r := ReplayOrder(FiveWritesEntries(hd, tl, a, b, c), FiveWritesCounts(hd, tl, a)).value;
      exists i :: 0 <= i < |r| && r[i] == FiveWritesEntries(hd, tl, a, b, c)[2] && a in Ids(r[..i])
    ensures forall newNodes :: a in newNodes ==>
      Relink(FiveWrites(hd, tl, a, b, c), newNodes, Some(a), 1) == Success(Some(newNodes[a]))
  {
    var es := FiveWritesEntries(hd, tl, a, b, c);
    FiveWritesCounted(hd, tl, a, b, c);
    FiveWritesCreation(hd, tl, a, b, c);
    ReplayOrderAfter(es, FiveWritesCounts(hd, tl, a), es[2], es[3]);
    var r := ReplayOrder(es, FiveWritesCounts(hd, tl, a)).value;
    var i :| 0 <= i < |r| && r[i] == es[2] && es[3].id in Ids(r[..i]);
    assert es[3].id == a;
    forall newNodes | a in newNodes
      ensures Relink(FiveWrites(hd, tl, a, b, c), newNodes, Some(a), 1) == Success(Some(newNodes[a]))
    {
      ReadFiveWrites(hd, tl, a, b, c, newNodes);
    }
  }

  // ---------------------------------------------------------------------------------------
  // Replaying

  /** newNodes.get(id): null for an id without a rebuilt node. */
  function Lookup(newNodes: map<Id, Ref>, id: Id): Option<Ref>
  {
    if id in newNodes then Some(newNodes[id]) else None
  }

  /**
   * The rebuilt node an old link leads to: null stays null; otherwise the node the link
   * names is read at `step` (a null record throws) and its id looked up.
   */
  function Relink(links: Links, newNodes: map<Id, Ref>, link: Option<Ref>, step: int): (r: Result<Option<Ref>>)
    ensures r.Success? && r.value.Some? ==>
      Read(links, link, step).Some? && r.value == Lookup(newNodes, Read(links, link, step).value.id)
  {
    if link.None? then Success(None)
    else
      match Read(links, link, step)
      case None => Failure(NullPointer)
      case Some(d) => Success(Lookup(newNodes, d.id))
  }

  /** A renamed link is null or a rebuilt node. */
  lemma RelinkRegistered(links: Links, newNodes: map<Id, Ref>, base: Ref, link: Option<Ref>, step: int)
    requires Registered(links, newNodes, base)
    ensures var r := Relink(links, newNodes, link, step);
      r.Success? && r.value.Some? ==> r.value.value in links && base <= r.value.value
  {
  }

  /** What a read returns is the record the node holds at some step at or below the read. */
  lemma ReadRecord(links: Links, r: Option<Ref>, step: int) returns (k: int)
    requires Read(links, r, step).Some?
    ensures r.Some? && r.value in links && k in links[r.value] && k <= step
    ensures links[r.value][k] == Read(links, r, step).value
  {
    var m := links[r.value];
    FloorKeyExists(m, step);
    k :| IsFloorKey(m, step, k);
    NearestLessAt(m, step, k);
  }

  /** Every reference a record holds is at least `base`. */
  predicate RefsFrom(d: Data, base: Ref)
  {
    (d.next.Some? ==> base <= d.next.value) && (d.previous.Some? ==> base <= d.previous.value) && base <= d.value
  }

  /**
   * The link nodes from `base` on were written only at step -1 and at steps up to `mc`,
   * and refer only to objects from `base` on.
   */
  ghost predicate BuiltLinks(links: Links, base: Ref, mc: int)
  {
    forall r, k :: r in links && base <= r && k in links[r] ==> (k == -1 || k <= mc) && RefsFrom(links[r][k], base)
  }

  /** The element nodes from `base` on were written only at step -1 and at steps up to `mc`. */
  ghost predicate BuiltValues<T>(values: Values<T>, base: Ref, mc: int)
  {
    forall v, k :: v in values && base <= v && k in values[v] ==> k == -1 || k <= mc
  }

  /** The rebuilt nodes all exist and are new. */
  ghost predicate Registered(links: Links, newNodes: map<Id, Ref>, base: Ref)
  {
    forall id :: id in newNodes ==> newNodes[id] in links && base <= newNodes[id]
  }

  /**
   * What the rebuild keeps between steps: the objects below `base` are the ones it started
   * with, untouched, and the ones from `base` on are built as BuiltLinks and BuiltValues say.
   */
  ghost predicate Built<T>(links0: Links, values0: Values<T>, links: Links, values: Values<T>, base: Ref, mc: int,
                           newNodes: map<Id, Ref>)
  {
    (forall x :: x in links0 ==> x < base) && (forall v :: v in values0 ==> v < base) &&
    Grown(links0, values0, links, values) &&
    BuiltLinks(links, base, mc) && BuiltValues(values, base, mc) && Registered(links, newNodes, base)
  }

  ghost predicate Rebuilding<T>(arena: Arena<T>, links0: Links, values0: Values<T>, base: Ref, mc: int, newNodes: map<Id, Ref>)
    reads arena
  {
    arena.Valid() && base <= arena.nextRef && Built(links0, values0, arena.links, arena.values, base, mc, newNodes)
  }

  /** Writing a new link node at an allowed step, with new objects only, keeps the state. */
  lemma BuiltWrite<T>(links0: Links, values0: Values<T>, links: Links, values: Values<T>, base: Ref, mc: int,
                      newNodes: map<Id, Ref>, r: Ref, k: int, d: Data)
    requires Built(links0, values0, links, values, base, mc, newNodes)
    requires r in links && base <= r && (k == -1 || k <= mc) && RefsFrom(d, base)
    ensures Built(links0, values0, Write(links, r, k, d), values, base, mc, newNodes)
  {
    var links' := Write(links, r, k, d);
    forall x, j | x in links' && base <= x && j in links'[x]
      ensures (j == -1 || j <= mc) && RefsFrom(links'[x][j], base)
    {
      if x != r || j != k {
        assert j in links[x] && links'[x][j] == links[x][j];
      }
    }
  }

  /** Creating a link node, and registering it under `id`, keeps the state. */
  lemma BuiltNode<T>(links0: Links, values0: Values<T>, links: Links, values: Values<T>, base: Ref, mc: int,
                     newNodes: map<Id, Ref>, r: Ref, k: int, d: Data, id: Id)
    requires Built(links0, values0, links, values, base, mc, newNodes)
    requires r !in links && base <= r && (k == -1 || k <= mc) && RefsFrom(d, base)
    ensures Built(links0, values0, links[r := Created(k, d)], values, base, mc, newNodes[id := r])
  {
    var links' := links[r := Created(k, d)];
    forall x, j | x in links' && base <= x && j in links'[x]
      ensures (j == -1 || j <= mc) && RefsFrom(links'[x][j], base)
    {
      if x != r {
        assert x in links;
      }
    }
  }

  /** Writing a new element node at an allowed step keeps the state. */
  lemma BuiltValueWrite<T>(links0: Links, values0: Values<T>, links: Links, values: Values<T>, base: Ref, mc: int,
                           newNodes: map<Id, Ref>, v: Ref, k: int, x: Option<T>)
    requires Built(links0, values0, links, values, base, mc, newNodes)
    requires v in values && base <= v && (k == -1 || k <= mc)
    ensures Built(links0, values0, links, values[v := values[v][k := x]], base, mc, newNodes)
  {
    var values' := values[v := values[v][k := x]];
    forall w, j | w in values' && base <= w && j in values'[w] ensures j == -1 || j <= mc {
      if w != v || j != k {
        assert j in values[w];
      }
    }
  }

  /** Creating an element node keeps the state. */
  lemma BuiltValue<T>(links0: Links, values0: Values<T>, links: Links, values: Values<T>, base: Ref, mc: int,
                      newNodes: map<Id, Ref>, v: Ref, k: int, x: Option<T>)
    requires Built(links0, values0, links, values, base, mc, newNodes)
    requires v !in values && base <= v && (k == -1 || k <= mc)
    ensures Built(links0, values0, links, values[v := Created(k, x)], base, mc, newNodes)
  {
    var values' := values[v := Created(k, x)];
    forall w, j | w in values' && base <= w && j in values'[w] ensures j == -1 || j <= mc {
      if w != v {
        assert w in values;
      }
    }
  }

  /**
   * A rebuilt node registered under `id`: new PersistentNode<>(step, new DoubleLinkedData<>(
   * next, previous, new PersistentNode<>(step, x), id)). The first two entries get one each
   * at step -1 with null links and a null element.
   */
  method NewRebuilt<T>(arena: Arena<T>, ghost links0: Links, ghost values0: Values<T>, base: Ref, mc: int,
                       newNodes: map<Id, Ref>, step: int, next: Option<Ref>, previous: Option<Ref>, x: Option<T>, id: Id)
    returns (newNodes': map<Id, Ref>)
    requires Rebuilding(arena, links0, values0, base, mc, newNodes) && id < arena.nextId && (step == -1 || step <= mc)
    requires next.Some? ==> next.value in arena.links && base <= next.value
    requires previous.Some? ==> previous.value in arena.links && base <= previous.value
    modifies arena
    ensures Rebuilding(arena, links0, values0, base, mc, newNodes') && arena.nextId == old(arena.nextId)
    ensures newNodes'.Keys == newNodes.Keys + {id}
  {
    BuiltValue(links0, values0, arena.links, arena.values, base, mc, newNodes, arena.nextRef, step, x);
    var v := arena.NewValue(step, x);
    BuiltNode(links0, values0, arena.links, arena.values, base, mc, newNodes, arena.nextRef, step, Data(next, previous, v, id), id);
    var n := arena.NewNode(step, Data(next, previous, v, id));
    newNodes' := newNodes[id := n];
  }

  /**
   * One entry of the replay loop for a node already rebuilt: the node gets the entry's
   * record at its step, with links renamed to rebuilt nodes, and its element node (the one
   * it holds one step earlier) the element the entry's element node holds then.
   */
  method ReplayExisting<T>(arena: Arena<T>, ghost links0: Links, ghost values0: Values<T>, base: Ref, mc: int,
                           newNodes: map<Id, Ref>, e: Entry)
    returns (ok: bool)
    requires Rebuilding(arena, links0, values0, base, mc, newNodes)
    requires e.step <= mc && e.id < arena.nextId && e.id in newNodes
    modifies arena
    ensures ok ==> Rebuilding(arena, links0, values0, base, mc, newNodes)
    ensures ok ==>
      var next := Relink(old(arena.links), newNodes, e.data.next, e.step);
      next.Success? && e.step in arena.links[newNodes[e.id]] && arena.links[newNodes[e.id]][e.step].next == next.value
    ensures arena.nextId == old(arena.nextId)
    ensures !ok ==> unchanged(arena)
  {
    var node := newNodes[e.id];
    var next := Relink(arena.links, newNodes, e.data.next, e.step);
    if next.Failure? {
      return false;
    }
    var previous := Relink(arena.links, newNodes, e.data.previous, e.step);
    if previous.Failure? {
      return false;
    }
    var rec := Read(arena.links, Some(node), e.step - 1);
    if rec.None? {
      return false;
    }
    var k := ReadRecord(arena.links, Some(node), e.step - 1);
    ReadClosed(arena.links, arena.values, arena.nextId, Some(node), e.step - 1);
    RelinkRegistered(arena.links, newNodes, base, e.data.next, e.step);
    RelinkRegistered(arena.links, newNodes, base, e.data.previous, e.step);
    var v := rec.value.value;
    var x := ValueOf(arena.values, e.data.value, e.step);
    var d := Data(next.value, previous.value, v, e.id);
    assert base <= node && RefsFrom(arena.links[node][k], base);
    ReplayWrite(arena, links0, values0, base, mc, newNodes, node, e.step, x, d);
    ok := true;
  }

  /** The two writes of a replayed entry: the element `x` to d's element node, then `d` to `node`. */
  method ReplayWrite<T>(arena: Arena<T>, ghost links0: Links, ghost values0: Values<T>, base: Ref, mc: int,
                        newNodes: map<Id, Ref>, node: Ref, step: int, x: Option<T>, d: Data)
    requires Rebuilding(arena, links0, values0, base, mc, newNodes)
    requires node in arena.links && base <= node && step <= mc
    requires RefsFrom(d, base) && Closed(arena.links, arena.values, arena.nextId, d)
    modifies arena
    ensures Rebuilding(arena, links0, values0, base, mc, newNodes) && arena.nextId == old(arena.nextId)
    ensures arena.links == Write(old(arena.links), node, step, d)
  {
    BuiltValueWrite(links0, values0, arena.links, arena.values, base, mc, newNodes, d.value, step, x);
    arena.UpdateValue(d.value, step, x);
    BuiltWrite(links0, values0, arena.links, arena.values, base, mc, newNodes, node, step, d);
    arena.Update(node, step, d);
  }

  /**
   * One entry of the replay loop for an id not rebuilt yet: a new node and a new element
   * node, created at the entry's step; the entry's links must not be null.
   */
  method ReplayNew<T>(arena: Arena<T>, ghost links0: Links, ghost values0: Values<T>, base: Ref, mc: int,
                      newNodes: map<Id, Ref>, e: Entry)
    returns (r: Option<map<Id, Ref>>)
    requires Rebuilding(arena, links0, values0, base, mc, newNodes)
    requires e.step <= mc && e.id < arena.nextId
    modifies arena
    ensures r.Some? ==> Rebuilding(arena, links0, values0, base, mc, r.value) && r.value.Keys == newNodes.Keys + {e.id}
    ensures arena.nextId == old(arena.nextId)
    ensures r.None? ==> unchanged(arena)
  {
    if e.data.next.None? {
      return None;
    }
    var next := Relink(arena.links, newNodes, e.data.next, e.step);
    if next.Failure? {
      return None;
    }
    if e.data.previous.None? {
      return None;
    }
    var previous := Relink(arena.links, newNodes, e.data.previous, e.step);
    if previous.Failure? {
      return None;
    }
    RelinkRegistered(arena.links, newNodes, base, e.data.next, e.step);
    RelinkRegistered(arena.links, newNodes, base, e.data.previous, e.step);
    var x := ValueOf(arena.values, e.data.value, e.step);
    var grown := NewRebuilt(arena, links0, values0, base, mc, newNodes, e.step, next.value, previous.value, x, e.id);
    r := Some(grown);
  }

  /** The objects from `base` on, the sentinels of a rebuilt content among them. */
  predicate FreshSentinels(s: Sentinels, base: Ref)
  {
    (s.pseudoHead.Some? ==> base <= s.pseudoHead.value) && (s.pseudoTail.Some? ==> base <= s.pseudoTail.value)
  }

  /** The conditions the rebuild needs to get past its collecting and ordering. */
  function Ordered(links: Links, s: Sentinels, mc: int, count: int): Result<seq<Entry>>
    requires -2 <= count
  {
    match Gather(links, s.pseudoHead, mc, count + 2, [], map[])
    case Failure(e) => Failure(e)
    case Success((es, counts)) => Order(es, counts)
  }

  /**
   * reassembleNodes up to the replay: the collected modifications in the code's replay
   * order, Order, which can replay a link before the node it names
   * (OrderLinksBeforeCreation); ReplayOrder is the order that avoids it.
   */
  method OrderedModifications<T>(arena: Arena<T>, s: Sentinels, mc: int, count: int) returns (r: Result<seq<Entry>>)
    requires arena.Valid() && -2 <= count
    ensures r == Ordered(arena.links, s, mc, count)
    ensures r.Success? ==> forall e :: e in r.value ==> Fit(arena.links, arena.values, arena.nextId, mc, e)
  {
    var gathered := CollectModifications(arena, s, mc, count);
    if gathered.Failure? {
      return Failure(gathered.error);
    }
    var (es, counts) := gathered.value;
    r := Order(es, counts);
    if r.Success? {
      forall e | e in r.value ensures Fit(arena.links, arena.values, arena.nextId, mc, e) {
        assert e in multiset(es);
      }
    }
  }

  /**
   * The placeholders for the first two entries, then the replay of the others in order.
   * Fewer than two entries make orderedModifications.get(0) throw.
   */
  method ReplayAll<T>(arena: Arena<T>, ghost links0: Links, ghost values0: Values<T>, base: Ref, mc: int, entries: seq<Entry>)
    returns (r: Result<map<Id, Ref>>)
    requires Rebuilding(arena, links0, values0, base, mc, map[])
    requires forall e :: e in entries ==> e.step <= mc && e.id < arena.nextId
    modifies arena
    ensures Rebuilding(arena, links0, values0, base, mc, map[]) && arena.nextId == old(arena.nextId)
    ensures r.Success? ==> Rebuilding(arena, links0, values0, base, mc, r.value) && 2 <= |entries|
    ensures r.Success? ==> r.value.Keys == Ids(entries)
    ensures |entries| < 2 ==> r == Failure(IndexOutOfBounds)
  {
    if |entries| == 0 {
      return Failure(IndexOutOfBounds);
    }
    assert entries[0] in entries;
    var newNodes := NewRebuilt(arena, links0, values0, base, mc, map[], -1, None, None, None, entries[0].id);
    if |entries| == 1 {
      return Failure(IndexOutOfBounds);
    }
    assert entries[1] in entries;
    newNodes := NewRebuilt(arena, links0, values0, base, mc, newNodes, -1, None, None, None, entries[1].id);
    IdsNext(entries, 0);
    IdsNext(entries, 1);
    r := ReplayRest(arena, links0, values0, base, mc, entries, newNodes);
  }

  /** One entry of the replay loop: onto the node rebuilt for its id, or a new node; null when it throws. */
  method ReplayEntry<T>(arena: Arena<T>, ghost links0: Links, ghost values0: Values<T>, base: Ref, mc: int,
                        newNodes: map<Id, Ref>, e: Entry)
    returns (r: Option<map<Id, Ref>>)
    requires Rebuilding(arena, links0, values0, base, mc, newNodes)
    requires e.step <= mc && e.id < arena.nextId
    modifies arena
    ensures r.Some? ==> Rebuilding(arena, links0, values0, base, mc, r.value) && r.value.Keys == newNodes.Keys + {e.id}
    ensures arena.nextId == old(arena.nextId)
    ensures r.None? ==> unchanged(arena)
  {
    if e.id in newNodes {
      var ok := ReplayExisting(arena, links0, values0, base, mc, newNodes, e);
      if !ok {
        return None;
      }
      r := Some(newNodes);
    } else {
      r := ReplayNew(arena, links0, values0, base, mc, newNodes, e);
    }
  }

  /** The replay loop over the entries after the two placeholders. */
  method ReplayRest<T>(arena: Arena<T>, ghost links0: Links, ghost values0: Values<T>, base: Ref, mc: int,
                       entries: seq<Entry>, newNodes0: map<Id, Ref>)
    returns (r: Result<map<Id, Ref>>)
    requires Rebuilding(arena, links0, values0, base, mc, newNodes0) && 2 <= |entries|
    requires newNodes0.Keys == Ids(entries[..2])
    requires forall e :: e in entries ==> e.step <= mc && e.id < arena.nextId
    modifies arena
    ensures Rebuilding(arena, links0, values0, base, mc, map[]) && arena.nextId == old(arena.nextId)
    ensures r.Success? ==> Rebuilding(arena, links0, values0, base, mc, r.value) && r.value.Keys == Ids(entries)
  {
    var newNodes := newNodes0;
    var i := 2;
    while i < |entries|
      invariant 2 <= i <= |entries|
      invariant Rebuilding(arena, links0, values0, base, mc, newNodes) && arena.nextId == old(arena.nextId)
      invariant newNodes.Keys == Ids(entries[..i])
    {
      var e := entries[i];
      assert e in entries;
      var grown := ReplayEntry(arena, links0, values0, base, mc, newNodes, e);
      if grown.None? {
        return Failure(NullPointer);
      }
      newNodes := grown.value;
      IdsNext(entries, i);
      i := i + 1;
    }
    assert entries[..i] == entries;
    r := Success(newNodes);
  }

  /**
   * reassembleNodes of the version at step `mc` with `count` elements over the content
   * `nodes`. It writes nothing the storage already had: every object it writes is new,
   * written at step -1 or at steps up to `mc` only, and the new content's counter is `mc`,
   * so the next write (at mc + 1) lies above everything the copy holds.
   */
  method ReassembleNodes<T>(arena: Arena<T>, nodes: PersistentContent<Sentinels>, mc: int, count: int)
    returns (r: Result<PersistentContent<Sentinels>>)
    requires arena.Valid() && -2 <= count
    modifies arena
    ensures arena.Valid() && arena.nextId == old(arena.nextId) && old(arena.nextRef) <= arena.nextRef
    ensures Grown(old(arena.links), old(arena.values), arena.links, arena.values)
    ensures BuiltLinks(arena.links, old(arena.nextRef), mc) && BuiltValues(arena.values, old(arena.nextRef), mc)
    ensures r.Success? ==>
      var es := Ordered(old(arena.links), nodes.content, mc, count);
      es.Success? && |es.value| >= 2
    ensures r.Success? ==>
      fresh(r.value) && fresh(r.value.maxModification) && r.value.maxModification.value == mc &&
      Anchored(arena.links, r.value.content) && FreshSentinels(r.value.content, old(arena.nextRef))
  {
    var s := nodes.content;
    // The rebuild writes only objects it creates, so reading the old sentinels first reads
    // what the end of reassembleNodes reads.
    var hd := Read(arena.links, s.pseudoHead, mc);
    var tl := Read(arena.links, s.pseudoTail, mc);
    var ordered := OrderedModifications(arena, s, mc, count);
    if ordered.Failure? {
      return Failure(ordered.error);
    }
    var entries := ordered.value;
    assert forall e :: e in entries ==> e.step <= mc && e.id < arena.nextId by {
      forall e | e in entries ensures e.step <= mc && e.id < arena.nextId {
        assert Fit(arena.links, arena.values, arena.nextId, mc, e);
      }
    }
    r := RebuildFrom(arena, mc, entries, hd, tl);
  }

  /**
   * The rest of reassembleNodes once the entries are in order: the replay, then the new
   * content over the rebuilt nodes of the old head and tail records `hd` and `tl`.
   */
  method RebuildFrom<T>(arena: Arena<T>, mc: int, entries: seq<Entry>, hd: Option<Data>, tl: Option<Data>)
    returns (r: Result<PersistentContent<Sentinels>>)
    requires arena.Valid() && forall e :: e in entries ==> e.step <= mc && e.id < arena.nextId
    modifies arena
    ensures arena.Valid() && arena.nextId == old(arena.nextId) && old(arena.nextRef) <= arena.nextRef
    ensures Grown(old(arena.links), old(arena.values), arena.links, arena.values)
    ensures BuiltLinks(arena.links, old(arena.nextRef), mc) && BuiltValues(arena.values, old(arena.nextRef), mc)
    ensures r.Success? ==> 2 <= |entries|
    ensures r.Success? ==>
      fresh(r.value) && fresh(r.value.maxModification) && r.value.maxModification.value == mc &&
      Anchored(arena.links, r.value.content) && FreshSentinels(r.value.content, old(arena.nextRef))
  {
    ghost var links0, values0 := arena.links, arena.values;
    var base := arena.nextRef;
    assert Rebuilding(arena, links0, values0, base, mc, map[]);
    var rebuilt := ReplayAll(arena, links0, values0, base, mc, entries);
    if rebuilt.Failure? {
      return Failure(rebuilt.error);
    }
    var newNodes := rebuilt.value;
    if hd.None? || tl.None? {
      return Failure(NullPointer);
    }
    var sentinels := Sentinels(Lookup(newNodes, hd.value.id), Lookup(newNodes, tl.value.id));
    SentinelsRegistered(arena.links, newNodes, base, hd.value.id, tl.value.id);
    var counter := new ModificationCount(mc);
    var content := new PersistentContent(sentinels, counter);
    r := Success(content);
  }

  /** Sentinels looked up among registered rebuilt nodes are rebuilt nodes of the arena. */
  lemma SentinelsRegistered(links: Links, newNodes: map<Id, Ref>, base: Ref, head: Id, tail: Id)
    requires Registered(links, newNodes, base)
    ensures Anchored(links, Sentinels(Lookup(newNodes, head), Lookup(newNodes, tail)))
    ensures FreshSentinels(Sentinels(Lookup(newNodes, head), Lookup(newNodes, tail)), base)
  {
  }
}
