/**
 * The persistent doubly linked list (persistence/structure/list/PersistentLinkedList.java).
 * Every node is a fat node of DoubleLinkedData records, and so are the two sentinels; an
 * operation on the version at step s writes the records it changes at step s + 1, so that
 * every earlier version still reads its own records.
 */
module PersistentLinkedLists {
  import opened Wrappers
  import opened RedBlackTree
  import opened FatNode
  import opened Storage
  import opened Base
  import opened LinkedData
  import LinkedRebuild

  type PersistentLinkedList = Handle<Sentinels>

  // ---------------------------------------------------------------------------------------
  // addFirst

  /** What addFirst reads before writing: the head's record, the first node and its record. */
  function HeadAndFirst(links: Links, s: Sentinels, step: int): Option<(Data, Ref, Data)>
  {
    match Read(links, s.pseudoHead, step)
    case None => None
    case Some(hd) =>
      match Read(links, hd.next, step)
      case None => None
      case Some(nd) => Some((hd, hd.next.value, nd))
  }

  /**
   * The link nodes after addFirst at `step`: the new node `nr` (element node `vr`, id `id`)
   * created at step + 1 between the head and the old first node, whose records at step + 1
   * point to it.
   */
  ghost function FirstAdded(links: Links, s: Sentinels, step: int, nr: Ref, vr: Ref, id: Id): Links
    requires HeadAndFirst(links, s, step).Some?
  {
    var (hd, n, nd) := HeadAndFirst(links, s, step).value;
    var l1 := links[nr := Created(step + 1, Data(hd.next, s.pseudoHead, vr, id))];
    var l2 := Write(l1, n, step + 1, Data(nd.next, Some(nr), nd.value, nd.id));
    Write(l2, s.pseudoHead.value, step + 1, Data(Some(nr), None, hd.value, hd.id))
  }

  /** The records addFirst leaves on [head, new node, old first node, ...]. */
  function FirstRecords(c: seq<Ref>, rs: seq<Data>, nr: Ref, vr: Ref, id: Id): seq<Data>
    requires 2 <= |c| == |rs|
  {
    [Data(Some(nr), None, rs[0].value, rs[0].id), Data(rs[0].next, Some(c[0]), vr, id),
     Data(rs[1].next, Some(nr), rs[1].value, rs[1].id)] + rs[2..]
  }

  /** Linking a fresh node in after the first keeps a list well-formed. */
  lemma FirstLinked<T>(c: seq<Ref>, rs: seq<Data>, values: Values<T>, nr: Ref, vr: Ref, id: Id, x: History<Option<T>>)
    requires WellLinked(c, rs, values) && nr !in c && vr !in values
    ensures WellLinked([c[0], nr] + c[1..], FirstRecords(c, rs, nr, vr, id), values[vr := x])
  {
    var c' := [c[0], nr] + c[1..];
    var rs' := FirstRecords(c, rs, nr, vr, id);
    var f := seq(|c'|, i => if i == 0 then 0 else if i == 1 then -1 else i - 1);
    forall i | 0 <= i < |c'|
      ensures 0 <= f[i] ==> c'[i] == c[f[i]] && rs'[i].value == rs[f[i]].value
      ensures rs'[i].next == (if i + 1 < |c'| then Some(c'[i + 1]) else None)
      ensures rs'[i].previous == (if 0 < i then Some(c'[i - 1]) else None)
    {
      if 3 <= i {
        assert c'[i] == c[i - 1] && rs'[i] == rs[i - 1];
        if i + 1 < |c'| { assert c'[i + 1] == c[i]; }
        if 3 < i { assert c'[i - 1] == c[i - 2]; }
      } else if i == 2 && 3 < |c'| {
        assert c'[3] == c[2];
      }
    }
    PickedWellLinked(c, rs, values, c', rs', values[vr := x], f);
  }

  /** A node nobody wrote to reads at a later step as it did at `step`. */
  lemma UntouchedRead<T>(links: Links, values: Values<T>, links': Links, x: Ref, step: int)
    requires SettledNode(links, values, x, step) && x in links' && links'[x] == links[x]
    ensures Read(links', Some(x), step + 1) == Read(links, Some(x), step)
  {
    SettledRead(links, values, x, step, step + 1);
  }

  /** The nodes addFirst writes, and what it writes to them. */
  lemma FirstAddedAt(links: Links, s: Sentinels, step: int, nr: Ref, vr: Ref, id: Id)
    requires HeadAndFirst(links, s, step).Some? && nr !in links
    requires HeadAndFirst(links, s, step).value.1 != s.pseudoHead.value
    ensures var (hd, n, nd) := HeadAndFirst(links, s, step).value;
      var links' := FirstAdded(links, s, step, nr, vr, id);
      var h := s.pseudoHead.value;
      h in links && n in links && h in links' && n in links' && nr in links' &&
      links'[h] == links[h][step + 1 := Data(Some(nr), None, hd.value, hd.id)] &&
      links'[n] == links[n][step + 1 := Data(nd.next, Some(nr), nd.value, nd.id)] &&
      links'[nr] == Created(step + 1, Data(hd.next, s.pseudoHead, vr, id)) &&
      forall x :: x in links && x != h && x != n ==> x in links' && links'[x] == links[x]
  {
  }

  /** The chain with `nr` added in front of `ns` is the old chain with `nr` after the head. */
  lemma ChainOfFront(s: Sentinels, ns: seq<Ref>, nr: Ref)
    requires s.pseudoHead.Some? && s.pseudoTail.Some?
    ensures ChainOf(s, [nr] + ns) == [ChainOf(s, ns)[0], nr] + ChainOf(s, ns)[1..]
  {
    var c := ChainOf(s, ns);
    assert c[1..] == ns + [s.pseudoTail.value];
  }

  /** The chain with `nr` added behind `ns` is the old chain with `nr` before the tail. */
  lemma ChainOfBack(s: Sentinels, ns: seq<Ref>, nr: Ref)
    requires s.pseudoHead.Some? && s.pseudoTail.Some?
    ensures ChainOf(s, ns + [nr]) == ChainOf(s, ns)[..|ns| + 1] + [nr, s.pseudoTail.value]
  {
    var c := ChainOf(s, ns);
    assert c[..|ns| + 1] == [s.pseudoHead.value] + ns;
  }

  /** The chain without the first of `ns` is the old chain without its second node. */
  lemma ChainOfDropFront(s: Sentinels, ns: seq<Ref>)
    requires s.pseudoHead.Some? && s.pseudoTail.Some? && 1 <= |ns|
    ensures ChainOf(s, ns[1..]) == [s.pseudoHead.value] + ChainOf(s, ns)[2..]
  {
    var c := ChainOf(s, ns);
    assert c[2..] == ns[1..] + [s.pseudoTail.value];
  }

  /** The chain without the last of `ns` is the old chain without its second-last node. */
  lemma ChainOfDropBack(s: Sentinels, ns: seq<Ref>)
    requires s.pseudoHead.Some? && s.pseudoTail.Some? && 1 <= |ns|
    ensures ChainOf(s, ns[..|ns| - 1]) == ChainOf(s, ns)[..|ns|] + [s.pseudoTail.value]
  {
    var c := ChainOf(s, ns);
    assert c[..|ns|] == [s.pseudoHead.value] + ns[..|ns| - 1];
  }

  /** The reads behind FirstAddedReads, on the chain's nodes and records alone. */
  lemma FirstWriteReads<T>(links: Links, values: Values<T>, links': Links, c: seq<Ref>, rs: seq<Data>, step: int,
                           nr: Ref, vr: Ref, id: Id)
    requires AllRead(links, c, step) && rs == Snapshot(links, c, step) && Settled(links, values, c, step)
    requires 2 <= |c| && forall i, j :: 0 <= i < j < |c| ==> c[i] != c[j]
    requires c[0] in links && c[0] in links' && links'[c[0]] == links[c[0]][step + 1 := FirstRecords(c, rs, nr, vr, id)[0]]
    requires nr in links' && links'[nr] == Created(step + 1, FirstRecords(c, rs, nr, vr, id)[1])
    requires c[1] in links && c[1] in links' && links'[c[1]] == links[c[1]][step + 1 := FirstRecords(c, rs, nr, vr, id)[2]]
    requires forall x :: x in links && x != c[0] && x != c[1] ==> x in links' && links'[x] == links[x]
    ensures AllRead(links', [c[0], nr] + c[1..], step + 1)
    ensures Snapshot(links', [c[0], nr] + c[1..], step + 1) == FirstRecords(c, rs, nr, vr, id)
  {
    var c' := [c[0], nr] + c[1..];
    var rs' := FirstRecords(c, rs, nr, vr, id);
    ReadOwnWrite(links[c[0]], step + 1, rs'[0]);
    CreatedReads(step + 1, rs'[1], step + 1);
    ReadOwnWrite(links[c[1]], step + 1, rs'[2]);
    forall i | 0 <= i < |c'| ensures Read(links', Some(c'[i]), step + 1) == Some(rs'[i]) {
      if 3 <= i {
        assert c'[i] == c[i - 1] && rs'[i] == rs[i - 1];
        UntouchedChain(links, values, links', c, step, c[0], c[1], i - 1);
      }
    }
    SnapshotIs(links', c', step + 1, rs');
  }

  lemma FirstAddedReads<T>(links: Links, values: Values<T>, s: Sentinels, step: int, ns: seq<Ref>, nr: Ref, vr: Ref, id: Id)
    requires Linked(links, values, s, step, ns) && Settled(links, values, ChainOf(s, ns), step) && nr !in links
    ensures HeadAndFirst(links, s, step).Some?
    ensures var links' := FirstAdded(links, s, step, nr, vr, id);
      var c := ChainOf(s, ns);
      var c' := ChainOf(s, [nr] + ns);
      AllRead(links', c', step + 1) &&
      Snapshot(links', c', step + 1) == FirstRecords(c, Snapshot(links, c, step), nr, vr, id)
  {
    var c := ChainOf(s, ns);
    var rs := Snapshot(links, c, step);
    assert Read(links, Some(c[0]), step) == Some(rs[0]) && Read(links, Some(c[1]), step) == Some(rs[1]);
    assert HeadAndFirst(links, s, step) == Some((rs[0], c[1], rs[1]));
    FirstAddedAt(links, s, step, nr, vr, id);
    ChainOfFront(s, ns, nr);
    FirstWriteReads(links, values, FirstAdded(links, s, step, nr, vr, id), c, rs, step, nr, vr, id);
  }

  /** addFirst leaves every version up to `step` as it was. */
  lemma FirstAddedKeeps(links: Links, s: Sentinels, step: int, nr: Ref, vr: Ref, id: Id)
    requires HeadAndFirst(links, s, step).Some? && nr !in links
    ensures KeptUpTo(links, FirstAdded(links, s, step, nr, vr, id), step)
  {
    var (hd, n, nd) := HeadAndFirst(links, s, step).value;
    var l1 := links[nr := Created(step + 1, Data(hd.next, s.pseudoHead, vr, id))];
    var l2 := Write(l1, n, step + 1, Data(nd.next, Some(nr), nd.value, nd.id));
    WriteKeeps(l1, n, step + 1, Data(nd.next, Some(nr), nd.value, nd.id), step);
    WriteKeeps(l2, s.pseudoHead.value, step + 1, Data(Some(nr), None, hd.value, hd.id), step);
    KeptTrans(links, l1, l2, step);
    KeptTrans(links, l2, FirstAdded(links, s, step, nr, vr, id), step);
  }

  /** After addFirst the new chain is settled at step + 1. */
  lemma FirstAddedSettled<T>(links: Links, values: Values<T>, s: Sentinels, step: int, ns: seq<Ref>,
                             nr: Ref, vr: Ref, id: Id, value: Option<T>)
    requires Linked(links, values, s, step, ns) && Settled(links, values, ChainOf(s, ns), step)
    requires nr !in links && vr !in values
    ensures HeadAndFirst(links, s, step).Some?
    ensures Settled(FirstAdded(links, s, step, nr, vr, id), values[vr := Created(step + 1, value)],
                    ChainOf(s, [nr] + ns), step + 1)
  {
    var c := ChainOf(s, ns);
    var rs := Snapshot(links, c, step);
    FirstAddedReads(links, values, s, step, ns, nr, vr, id);
    var links' := FirstAdded(links, s, step, nr, vr, id);
    var values' := values[vr := Created(step + 1, value)];
    var c' := ChainOf(s, [nr] + ns);
    var rs' := Snapshot(links', c', step + 1);
    ChainOfFront(s, ns, nr);
    forall i | 0 <= i < |c'| ensures SettledNode(links', values', c'[i], step + 1) {
      if i != 1 {
        var j := if i == 0 then 0 else i - 1;
        assert c'[i] == c[j] && rs'[i].value == rs[j].value;
        assert SettledNode(links, values, c[j], step);
        assert ValueRef(links, c[j], step) == Some(rs[j].value);
        assert ValueRef(links', c'[i], step + 1) == Some(rs'[i].value);
      } else {
        assert ValueRef(links', c'[i], step + 1) == Some(vr);
      }
    }
  }

  /** After addFirst the version at step + 1 holds the new element, then the old ones. */
  lemma FirstAddedItems<T>(links: Links, values: Values<T>, s: Sentinels, step: int, ns: seq<Ref>,
                           nr: Ref, vr: Ref, id: Id, value: Option<T>)
    requires Linked(links, values, s, step, ns) && Settled(links, values, ChainOf(s, ns), step)
    requires nr !in links && vr !in values
    requires HeadAndFirst(links, s, step).Some?
    requires Chain(FirstAdded(links, s, step, nr, vr, id), values[vr := Created(step + 1, value)],
                   ChainOf(s, [nr] + ns), step + 1)
    ensures Items(FirstAdded(links, s, step, nr, vr, id), values[vr := Created(step + 1, value)], [nr] + ns, step + 1)
      == [value] + Items(links, values, ns, step)
  {
    var c := ChainOf(s, ns);
    var rs := Snapshot(links, c, step);
    FirstAddedReads(links, values, s, step, ns, nr, vr, id);
    var links' := FirstAdded(links, s, step, nr, vr, id);
    var values' := values[vr := Created(step + 1, value)];
    var c' := ChainOf(s, [nr] + ns);
    var rs' := Snapshot(links', c', step + 1);
    forall i | 0 <= i < |ns| + 1
      ensures Items(links', values', [nr] + ns, step + 1)[i] == ([value] + Items(links, values, ns, step))[i]
    {
      assert ([nr] + ns)[i] == c'[i + 1] && Read(links', Some(c'[i + 1]), step + 1) == Some(rs'[i + 1]);
      if i == 0 {
        CreatedReads(step + 1, value, step + 1);
      } else {
        assert ns[i - 1] == c[i] && Read(links, Some(c[i]), step) == Some(rs[i]);
        ElementKept(links, values, links', values', c[i], c'[i + 1], step, rs[i], rs'[i + 1]);
      }
    }
  }

  /**
   * addFirst on a well-formed list: the version at step + 1 is the new element followed by
   * the old elements, well-formed and settled in its turn; every version up to `step` reads
   * as before.
   */
  lemma AddFirstView<T>(links: Links, values: Values<T>, s: Sentinels, step: int, ns: seq<Ref>,
                        nr: Ref, vr: Ref, id: Id, value: Option<T>)
    requires Linked(links, values, s, step, ns) && Settled(links, values, ChainOf(s, ns), step)
    requires nr !in links && vr !in values
    ensures HeadAndFirst(links, s, step).Some?
    ensures var links' := FirstAdded(links, s, step, nr, vr, id);
      var values' := values[vr := Created(step + 1, value)];
      Linked(links', values', s, step + 1, [nr] + ns) &&
      Settled(links', values', ChainOf(s, [nr] + ns), step + 1) &&
      Items(links', values', [nr] + ns, step + 1) == [value] + Items(links, values, ns, step) &&
      KeptUpTo(links, links', step) && ValuesKeptUpTo(values, values', step)
  {
    var c := ChainOf(s, ns);
    var rs := Snapshot(links, c, step);
    FirstAddedReads(links, values, s, step, ns, nr, vr, id);
    var links' := FirstAdded(links, s, step, nr, vr, id);
    var values' := values[vr := Created(step + 1, value)];
    var c' := ChainOf(s, [nr] + ns);
    forall i | 0 <= i < |c| ensures c[i] in links {
      assert HasRecord(links, c[i], step);
    }
    FirstLinked(c, rs, values, nr, vr, id, Created(step + 1, value));
    ChainOfFront(s, ns, nr);
    assert Chain(links', values', c', step + 1);
    FirstAddedSettled(links, values, s, step, ns, nr, vr, id, value);
    FirstAddedItems(links, values, s, step, ns, nr, vr, id, value);
    FirstAddedKeeps(links, s, step, nr, vr, id);
  }

  // ---------------------------------------------------------------------------------------
  // addLast

  /** What addLast reads before writing: the tail's record, the last node and its record. */
  function TailAndLast(links: Links, s: Sentinels, step: int): Option<(Data, Ref, Data)>
  {
    match Read(links, s.pseudoTail, step)
    case None => None
    case Some(td) =>
      match Read(links, td.previous, step)
      case None => None
      case Some(pd) => Some((td, td.previous.value, pd))
  }

  /**
   * The link nodes after addLast at `step`: the new node `nr` created at step + 1 between the
   * old last node and the tail, whose records at step + 1 point to it.
   */
  ghost function LastAdded(links: Links, s: Sentinels, step: int, nr: Ref, vr: Ref, id: Id): Links
    requires TailAndLast(links, s, step).Some?
  {
    var (td, p, pd) := TailAndLast(links, s, step).value;
    var l1 := links[nr := Created(step + 1, Data(s.pseudoTail, td.previous, vr, id))];
    var l2 := Write(l1, p, step + 1, Data(Some(nr), pd.previous, pd.value, pd.id));
    Write(l2, s.pseudoTail.value, step + 1, Data(None, Some(nr), td.value, td.id))
  }

  /** The records addLast leaves on [..., old last node, new node, tail]. */
  function LastRecords(c: seq<Ref>, rs: seq<Data>, nr: Ref, vr: Ref, id: Id): seq<Data>
    requires 2 <= |c| == |rs|
  {
    var m := |c| - 1;
    rs[..m - 1] +
    [Data(Some(nr), rs[m - 1].previous, rs[m - 1].value, rs[m - 1].id), Data(Some(c[m]), rs[m].previous, vr, id),
     Data(None, Some(nr), rs[m].value, rs[m].id)]
  }

  /** Linking a fresh node in before the last keeps a list well-formed. */
  lemma LastLinked<T>(c: seq<Ref>, rs: seq<Data>, values: Values<T>, nr: Ref, vr: Ref, id: Id, x: History<Option<T>>)
    requires WellLinked(c, rs, values) && nr !in c && vr !in values
    ensures WellLinked(c[..|c| - 1] + [nr, c[|c| - 1]], LastRecords(c, rs, nr, vr, id), values[vr := x])
  {
    var m := |c| - 1;
    var c' := c[..m] + [nr, c[m]];
    var rs' := LastRecords(c, rs, nr, vr, id);
    var f := seq(|c'|, i => if i < m then i else if i == m then -1 else m);
    forall i | 0 <= i < |c'|
      ensures 0 <= f[i] ==> c'[i] == c[f[i]] && rs'[i].value == rs[f[i]].value
      ensures rs'[i].next == (if i + 1 < |c'| then Some(c'[i + 1]) else None)
      ensures rs'[i].previous == (if 0 < i then Some(c'[i - 1]) else None)
    {
      if i < m - 1 {
        assert c'[i] == c[i] && rs'[i] == rs[i] && c'[i + 1] == c[i + 1];
        if 0 < i { assert c'[i - 1] == c[i - 1]; }
      } else if i == m - 1 && 0 < i {
        assert c'[i - 1] == c[i - 1];
      }
    }
    PickedWellLinked(c, rs, values, c', rs', values[vr := x], f);
  }

  /** The nodes addLast writes, and what it writes to them. */
  lemma LastAddedAt(links: Links, s: Sentinels, step: int, nr: Ref, vr: Ref, id: Id)
    requires TailAndLast(links, s, step).Some? && nr !in links
    requires TailAndLast(links, s, step).value.1 != s.pseudoTail.value
    ensures var (td, p, pd) := TailAndLast(links, s, step).value;
      var links' := LastAdded(links, s, step, nr, vr, id);
      var t := s.pseudoTail.value;
      t in links && p in links && t in links' && p in links' && nr in links' &&
      links'[t] == links[t][step + 1 := Data(None, Some(nr), td.value, td.id)] &&
      links'[p] == links[p][step + 1 := Data(Some(nr), pd.previous, pd.value, pd.id)] &&
      links'[nr] == Created(step + 1, Data(s.pseudoTail, td.previous, vr, id)) &&
      forall x :: x in links && x != t && x != p ==> x in links' && links'[x] == links[x]
  {
  }

  /** The reads behind LastAddedReads, on the chain's nodes and records alone. */
  lemma LastWriteReads<T>(links: Links, values: Values<T>, links': Links, c: seq<Ref>, rs: seq<Data>, step: int,
                          nr: Ref, vr: Ref, id: Id)
    requires AllRead(links, c, step) && rs == Snapshot(links, c, step) && Settled(links, values, c, step)
    requires 2 <= |c| && forall i, j :: 0 <= i < j < |c| ==> c[i] != c[j]
    requires var m := |c| - 1;
      c[m] in links && c[m] in links' && links'[c[m]] == links[c[m]][step + 1 := LastRecords(c, rs, nr, vr, id)[m + 1]] &&
      nr in links' && links'[nr] == Created(step + 1, LastRecords(c, rs, nr, vr, id)[m]) &&
      c[m - 1] in links && c[m - 1] in links' && links'[c[m - 1]] == links[c[m - 1]][step + 1 := LastRecords(c, rs, nr, vr, id)[m - 1]]
    requires forall x :: x in links && x != c[|c| - 1] && x != c[|c| - 2] ==> x in links' && links'[x] == links[x]
    ensures AllRead(links', c[..|c| - 1] + [nr, c[|c| - 1]], step + 1)
    ensures Snapshot(links', c[..|c| - 1] + [nr, c[|c| - 1]], step + 1) == LastRecords(c, rs, nr, vr, id)
  {
    var m := |c| - 1;
    var c' := c[..m] + [nr, c[m]];
    var rs' := LastRecords(c, rs, nr, vr, id);
    ReadOwnWrite(links[c[m]], step + 1, rs'[m + 1]);
    CreatedReads(step + 1, rs'[m], step + 1);
    ReadOwnWrite(links[c[m - 1]], step + 1, rs'[m - 1]);
    forall i | 0 <= i < |c'| ensures Read(links', Some(c'[i]), step + 1) == Some(rs'[i]) {
      if i < m - 1 {
        assert c'[i] == c[i] && rs'[i] == rs[i];
        UntouchedChain(links, values, links', c, step, c[m], c[m - 1], i);
      }
    }
    SnapshotIs(links', c', step + 1, rs');
  }

  lemma LastAddedReads<T>(links: Links, values: Values<T>, s: Sentinels, step: int, ns: seq<Ref>, nr: Ref, vr: Ref, id: Id)
    requires Linked(links, values, s, step, ns) && Settled(links, values, ChainOf(s, ns), step) && nr !in links
    ensures TailAndLast(links, s, step).Some?
    ensures var links' := LastAdded(links, s, step, nr, vr, id);
      var c := ChainOf(s, ns);
      var c' := ChainOf(s, ns + [nr]);
      AllRead(links', c', step + 1) &&
      Snapshot(links', c', step + 1) == LastRecords(c, Snapshot(links, c, step), nr, vr, id)
  {
    var c := ChainOf(s, ns);
    var rs := Snapshot(links, c, step);
    var m := |c| - 1;
    assert Read(links, Some(c[m]), step) == Some(rs[m]) && Read(links, Some(c[m - 1]), step) == Some(rs[m - 1]);
    assert TailAndLast(links, s, step) == Some((rs[m], c[m - 1], rs[m - 1]));
    LastAddedAt(links, s, step, nr, vr, id);
    ChainOfBack(s, ns, nr);
    LastWriteReads(links, values, LastAdded(links, s, step, nr, vr, id), c, rs, step, nr, vr, id);
  }

  /** addLast leaves every version up to `step` as it was. */
  lemma LastAddedKeeps(links: Links, s: Sentinels, step: int, nr: Ref, vr: Ref, id: Id)
    requires TailAndLast(links, s, step).Some? && nr !in links
    ensures KeptUpTo(links, LastAdded(links, s, step, nr, vr, id), step)
  {
    var (td, p, pd) := TailAndLast(links, s, step).value;
    var l1 := links[nr := Created(step + 1, Data(s.pseudoTail, td.previous, vr, id))];
    var l2 := Write(l1, p, step + 1, Data(Some(nr), pd.previous, pd.value, pd.id));
    WriteKeeps(l1, p, step + 1, Data(Some(nr), pd.previous, pd.value, pd.id), step);
    WriteKeeps(l2, s.pseudoTail.value, step + 1, Data(None, Some(nr), td.value, td.id), step);
    KeptTrans(links, l1, l2, step);
    KeptTrans(links, l2, LastAdded(links, s, step, nr, vr, id), step);
  }

  /** After addLast the new chain is settled at step + 1. */
  lemma LastAddedSettled<T>(links: Links, values: Values<T>, s: Sentinels, step: int, ns: seq<Ref>,
                            nr: Ref, vr: Ref, id: Id, value: Option<T>)
    requires Linked(links, values, s, step, ns) && Settled(links, values, ChainOf(s, ns), step)
    requires nr !in links && vr !in values
    ensures TailAndLast(links, s, step).Some?
    ensures Settled(LastAdded(links, s, step, nr, vr, id), values[vr := Created(step + 1, value)],
                    ChainOf(s, ns + [nr]), step + 1)
  {
    var c := ChainOf(s, ns);
    var m := |c| - 1;
    var rs := Snapshot(links, c, step);
    LastAddedReads(links, values, s, step, ns, nr, vr, id);
    var links' := LastAdded(links, s, step, nr, vr, id);
    var values' := values[vr := Created(step + 1, value)];
    var c' := ChainOf(s, ns + [nr]);
    var rs' := Snapshot(links', c', step + 1);
    ChainOfBack(s, ns, nr);
    forall i | 0 <= i < |c'| ensures SettledNode(links', values', c'[i], step + 1) {
      if i != m {
        var j := if i == m + 1 then m else i;
        assert c'[i] == c[j] && rs'[i].value == rs[j].value;
        assert SettledNode(links, values, c[j], step);
        assert ValueRef(links, c[j], step) == Some(rs[j].value);
        assert ValueRef(links', c'[i], step + 1) == Some(rs'[i].value);
      } else {
        assert ValueRef(links', c'[i], step + 1) == Some(vr);
      }
    }
  }

  /** After addLast the version at step + 1 holds the old elements, then the new one. */
  lemma LastAddedItems<T>(links: Links, values: Values<T>, s: Sentinels, step: int, ns: seq<Ref>,
                          nr: Ref, vr: Ref, id: Id, value: Option<T>)
    requires Linked(links, values, s, step, ns) && Settled(links, values, ChainOf(s, ns), step)
    requires nr !in links && vr !in values
    requires TailAndLast(links, s, step).Some?
    requires Chain(LastAdded(links, s, step, nr, vr, id), values[vr := Created(step + 1, value)],
                   ChainOf(s, ns + [nr]), step + 1)
    ensures Items(LastAdded(links, s, step, nr, vr, id), values[vr := Created(step + 1, value)], ns + [nr], step + 1)
      == Items(links, values, ns, step) + [value]
  {
    var c := ChainOf(s, ns);
    var rs := Snapshot(links, c, step);
    LastAddedReads(links, values, s, step, ns, nr, vr, id);
    var links' := LastAdded(links, s, step, nr, vr, id);
    var values' := values[vr := Created(step + 1, value)];
    var c' := ChainOf(s, ns + [nr]);
    var rs' := Snapshot(links', c', step + 1);
    forall i | 0 <= i < |ns| + 1
      ensures Items(links', values', ns + [nr], step + 1)[i] == (Items(links, values, ns, step) + [value])[i]
    {
      assert (ns + [nr])[i] == c'[i + 1] && Read(links', Some(c'[i + 1]), step + 1) == Some(rs'[i + 1]);
      if i == |ns| {
        CreatedReads(step + 1, value, step + 1);
      } else {
        assert ns[i] == c[i + 1] && Read(links, Some(c[i + 1]), step) == Some(rs[i + 1]);
        ElementKept(links, values, links', values', c[i + 1], c'[i + 1], step, rs[i + 1], rs'[i + 1]);
      }
    }
  }

  /**
   * addLast on a well-formed list: the version at step + 1 is the old elements followed by
   * the new one, well-formed and settled in its turn; every version up to `step` reads as
   * before.
   */
  lemma AddLastView<T>(links: Links, values: Values<T>, s: Sentinels, step: int, ns: seq<Ref>,
                       nr: Ref, vr: Ref, id: Id, value: Option<T>)
    requires Linked(links, values, s, step, ns) && Settled(links, values, ChainOf(s, ns), step)
    requires nr !in links && vr !in values
    ensures TailAndLast(links, s, step).Some?
    ensures var links' := LastAdded(links, s, step, nr, vr, id);
      var values' := values[vr := Created(step + 1, value)];
      Linked(links', values', s, step + 1, ns + [nr]) &&
      Settled(links', values', ChainOf(s, ns + [nr]), step + 1) &&
      Items(links', values', ns + [nr], step + 1) == Items(links, values, ns, step) + [value] &&
      KeptUpTo(links, links', step) && ValuesKeptUpTo(values, values', step)
  {
    var c := ChainOf(s, ns);
    var rs := Snapshot(links, c, step);
    LastAddedReads(links, values, s, step, ns, nr, vr, id);
    var links' := LastAdded(links, s, step, nr, vr, id);
    var values' := values[vr := Created(step + 1, value)];
    var c' := ChainOf(s, ns + [nr]);
    forall i | 0 <= i < |c| ensures c[i] in links {
      assert HasRecord(links, c[i], step);
    }
    LastLinked(c, rs, values, nr, vr, id, Created(step + 1, value));
    ChainOfBack(s, ns, nr);
    assert Chain(links', values', c', step + 1);
    LastAddedSettled(links, values, s, step, ns, nr, vr, id, value);
    LastAddedItems(links, values, s, step, ns, nr, vr, id, value);
    LastAddedKeeps(links, s, step, nr, vr, id);
  }

  // ---------------------------------------------------------------------------------------
  // removeFirst

  /**
   * What removeFirst reads before writing: the head's record, the node after the first
   * (the new first node, or the tail) and its record.
   */
  function HeadAndSecond(links: Links, s: Sentinels, step: int): Option<(Data, Ref, Data)>
  {
    match Read(links, s.pseudoHead, step)
    case None => None
    case Some(hd) =>
      match Read(links, hd.next, step)
      case None => None
      case Some(fd) =>
        match Read(links, fd.next, step)
        case None => None
        case Some(nnd) => Some((hd, fd.next.value, nnd))
  }

  /** The link nodes after removeFirst at `step`: the head and the second node point to each other. */
  ghost function FirstRemoved(links: Links, s: Sentinels, step: int): Links
    requires HeadAndSecond(links, s, step).Some?
  {
    var (hd, nn, nnd) := HeadAndSecond(links, s, step).value;
    var l1 := Write(links, nn, step + 1, Data(nnd.next, s.pseudoHead, nnd.value, nnd.id));
    Write(l1, s.pseudoHead.value, step + 1, Data(Some(nn), None, hd.value, hd.id))
  }

  /** The records removeFirst leaves on [head, old second node, ...]. */
  function FirstDropRecords(c: seq<Ref>, rs: seq<Data>): seq<Data>
    requires 3 <= |c| == |rs|
  {
    [Data(Some(c[2]), None, rs[0].value, rs[0].id), Data(rs[2].next, Some(c[0]), rs[2].value, rs[2].id)] + rs[3..]
  }

  /** Unlinking the first node keeps a list well-formed. */
  lemma FirstUnlinked<T>(c: seq<Ref>, rs: seq<Data>, values: Values<T>)
    requires WellLinked(c, rs, values) && 3 <= |c|
    ensures WellLinked([c[0]] + c[2..], FirstDropRecords(c, rs), values)
  {
    var c' := [c[0]] + c[2..];
    var rs' := FirstDropRecords(c, rs);
    var f := seq(|c'|, i => if i == 0 then 0 else i + 1);
    forall i | 0 <= i < |c'|
      ensures c'[i] == c[f[i]] && rs'[i].value == rs[f[i]].value
      ensures rs'[i].next == (if i + 1 < |c'| then Some(c'[i + 1]) else None)
      ensures rs'[i].previous == (if 0 < i then Some(c'[i - 1]) else None)
    {
      if 2 <= i {
        assert c'[i] == c[i + 1] && rs'[i] == rs[i + 1];
        if i + 1 < |c'| { assert c'[i + 1] == c[i + 2]; }
        if 2 < i { assert c'[i - 1] == c[i]; }
      }
    }
    PickedWellLinked(c, rs, values, c', rs', values, f);
  }

  /** The nodes removeFirst writes, and what it writes to them. */
  lemma FirstRemovedAt(links: Links, s: Sentinels, step: int)
    requires HeadAndSecond(links, s, step).Some?
    requires HeadAndSecond(links, s, step).value.1 != s.pseudoHead.value
    ensures var (hd, nn, nnd) := HeadAndSecond(links, s, step).value;
      var links' := FirstRemoved(links, s, step);
      var h := s.pseudoHead.value;
      h in links && nn in links && h in links' && nn in links' &&
      links'[h] == links[h][step + 1 := Data(Some(nn), None, hd.value, hd.id)] &&
      links'[nn] == links[nn][step + 1 := Data(nnd.next, s.pseudoHead, nnd.value, nnd.id)] &&
      forall x :: x in links && x != h && x != nn ==> x in links' && links'[x] == links[x]
  {
  }

  /** The reads behind FirstRemovedReads, on the chain's nodes and records alone. */
  lemma FirstDropReads<T>(links: Links, values: Values<T>, links': Links, c: seq<Ref>, rs: seq<Data>, step: int)
    requires AllRead(links, c, step) && rs == Snapshot(links, c, step) && Settled(links, values, c, step)
    requires 3 <= |c| && forall i, j :: 0 <= i < j < |c| ==> c[i] != c[j]
    requires c[0] in links && c[0] in links' && links'[c[0]] == links[c[0]][step + 1 := FirstDropRecords(c, rs)[0]]
    requires c[2] in links && c[2] in links' && links'[c[2]] == links[c[2]][step + 1 := FirstDropRecords(c, rs)[1]]
    requires forall x :: x in links && x != c[0] && x != c[2] ==> x in links' && links'[x] == links[x]
    ensures AllRead(links', [c[0]] + c[2..], step + 1)
    ensures Snapshot(links', [c[0]] + c[2..], step + 1) == FirstDropRecords(c, rs)
  {
    var c' := [c[0]] + c[2..];
    var rs' := FirstDropRecords(c, rs);
    ReadOwnWrite(links[c[0]], step + 1, rs'[0]);
    ReadOwnWrite(links[c[2]], step + 1, rs'[1]);
    forall i | 0 <= i < |c'| ensures Read(links', Some(c'[i]), step + 1) == Some(rs'[i]) {
      if 2 <= i {
        assert c'[i] == c[i + 1] && rs'[i] == rs[i + 1];
        UntouchedChain(links, values, links', c, step, c[0], c[2], i + 1);
      }
    }
    SnapshotIs(links', c', step + 1, rs');
  }

  lemma FirstRemovedReads<T>(links: Links, values: Values<T>, s: Sentinels, step: int, ns: seq<Ref>)
    requires Linked(links, values, s, step, ns) && Settled(links, values, ChainOf(s, ns), step) && 1 <= |ns|
    ensures HeadAndSecond(links, s, step).Some?
    ensures var links' := FirstRemoved(links, s, step);
      var c := ChainOf(s, ns);
      var c' := ChainOf(s, ns[1..]);
      AllRead(links', c', step + 1) &&
      Snapshot(links', c', step + 1) == FirstDropRecords(c, Snapshot(links, c, step))
  {
    var c := ChainOf(s, ns);
    var rs := Snapshot(links, c, step);
    assert Read(links, Some(c[0]), step) == Some(rs[0]) && Read(links, Some(c[1]), step) == Some(rs[1]);
    assert Read(links, Some(c[2]), step) == Some(rs[2]);
    assert HeadAndSecond(links, s, step) == Some((rs[0], c[2], rs[2]));
    FirstRemovedAt(links, s, step);
    ChainOfDropFront(s, ns);
    FirstDropReads(links, values, FirstRemoved(links, s, step), c, rs, step);
  }

  /** removeFirst leaves every version up to `step` as it was. */
  lemma FirstRemovedKeeps(links: Links, s: Sentinels, step: int)
    requires HeadAndSecond(links, s, step).Some?
    ensures KeptUpTo(links, FirstRemoved(links, s, step), step)
  {
    var (hd, nn, nnd) := HeadAndSecond(links, s, step).value;
    var l1 := Write(links, nn, step + 1, Data(nnd.next, s.pseudoHead, nnd.value, nnd.id));
    WriteKeeps(links, nn, step + 1, Data(nnd.next, s.pseudoHead, nnd.value, nnd.id), step);
    WriteKeeps(l1, s.pseudoHead.value, step + 1, Data(Some(nn), None, hd.value, hd.id), step);
    KeptTrans(links, l1, FirstRemoved(links, s, step), step);
  }

  /** After removeFirst the shortened chain is settled at step + 1. */
  lemma FirstRemovedSettled<T>(links: Links, values: Values<T>, s: Sentinels, step: int, ns: seq<Ref>)
    requires Linked(links, values, s, step, ns) && Settled(links, values, ChainOf(s, ns), step) && 1 <= |ns|
    ensures HeadAndSecond(links, s, step).Some?
    ensures Settled(FirstRemoved(links, s, step), values, ChainOf(s, ns[1..]), step + 1)
  {
    var c := ChainOf(s, ns);
    var rs := Snapshot(links, c, step);
    FirstRemovedReads(links, values, s, step, ns);
    var links' := FirstRemoved(links, s, step);
    var c' := ChainOf(s, ns[1..]);
    var rs' := Snapshot(links', c', step + 1);
    forall i | 0 <= i < |c'| ensures SettledNode(links', values, c'[i], step + 1) {
      var j := if i == 0 then 0 else i + 1;
      assert c'[i] == c[j] && rs'[i].value == rs[j].value;
      assert SettledNode(links, values, c[j], step);
      assert ValueRef(links, c[j], step) == Some(rs[j].value);
      assert ValueRef(links', c'[i], step + 1) == Some(rs'[i].value);
    }
  }

  /** After removeFirst the version at step + 1 holds the old elements but the first. */
  lemma FirstRemovedItems<T>(links: Links, values: Values<T>, s: Sentinels, step: int, ns: seq<Ref>)
    requires Linked(links, values, s, step, ns) && Settled(links, values, ChainOf(s, ns), step) && 1 <= |ns|
    requires HeadAndSecond(links, s, step).Some?
    requires Chain(FirstRemoved(links, s, step), values, ChainOf(s, ns[1..]), step + 1)
    ensures Items(FirstRemoved(links, s, step), values, ns[1..], step + 1) == Items(links, values, ns, step)[1..]
  {
    var c := ChainOf(s, ns);
    var rs := Snapshot(links, c, step);
    FirstRemovedReads(links, values, s, step, ns);
    var links' := FirstRemoved(links, s, step);
    var c' := ChainOf(s, ns[1..]);
    var xs := Items(links, values, ns, step);
    var xs' := Items(links', values, ns[1..], step + 1);
    forall i | 0 <= i < |ns| - 1 ensures xs'[i] == xs[i + 1] {
      assert FirstDropRecords(c, rs)[i + 1].value == rs[i + 2].value;
      SettledItem(links, values, c, step, i + 2, links', c', step + 1, i + 1);
    }
  }

  /**
   * removeFirst on a well-formed list of at least one element: the version at step + 1 is
   * the old elements without the first, well-formed and settled in its turn; every version
   * up to `step` reads as before.
   */
  lemma RemoveFirstView<T>(links: Links, values: Values<T>, s: Sentinels, step: int, ns: seq<Ref>)
    requires Linked(links, values, s, step, ns) && Settled(links, values, ChainOf(s, ns), step) && 1 <= |ns|
    ensures HeadAndSecond(links, s, step).Some?
    ensures var links' := FirstRemoved(links, s, step);
      Linked(links', values, s, step + 1, ns[1..]) &&
      Settled(links', values, ChainOf(s, ns[1..]), step + 1) &&
      Items(links', values, ns[1..], step + 1) == Items(links, values, ns, step)[1..] &&
      KeptUpTo(links, links', step)
  {
    var c := ChainOf(s, ns);
    var rs := Snapshot(links, c, step);
    FirstRemovedReads(links, values, s, step, ns);
    var links' := FirstRemoved(links, s, step);
    var c' := ChainOf(s, ns[1..]);
    FirstUnlinked(c, rs, values);
    ChainOfDropFront(s, ns);
    assert Chain(links', values, c', step + 1);
    FirstRemovedSettled(links, values, s, step, ns);
    FirstRemovedItems(links, values, s, step, ns);
    FirstRemovedKeeps(links, s, step);
  }

  // ---------------------------------------------------------------------------------------
  // removeLast

  /**
   * What removeLast reads before writing: the tail's record, the node before the last (the
   * new last node, or the head) and its record.
   */
  function TailAndSecondLast(links: Links, s: Sentinels, step: int): Option<(Data, Ref, Data)>
  {
    match Read(links, s.pseudoTail, step)
    case None => None
    case Some(td) =>
      match Read(links, td.previous, step)
      case None => None
      case Some(ld) =>
        match Read(links, ld.previous, step)
        case None => None
        case Some(ppd) => Some((td, ld.previous.value, ppd))
  }

  /**
   * The link nodes after removeLast at `step`: the node before the last points forward to
   * the tail from step + 1 on, but the tail's backward link is rewritten at `step` itself,
   * inside the version removeLast was called on.
   */
  ghost function LastRemoved(links: Links, s: Sentinels, step: int): Links
    requires TailAndSecondLast(links, s, step).Some?
  {
    var (td, pp, ppd) := TailAndSecondLast(links, s, step).value;
    var l1 := Write(links, pp, step + 1, Data(s.pseudoTail, ppd.previous, ppd.value, ppd.id));
    Write(l1, s.pseudoTail.value, step, Data(None, Some(pp), td.value, td.id))
  }

  /** The records removeLast leaves on [..., old second-last node, tail]. */
  function LastDropRecords(c: seq<Ref>, rs: seq<Data>): seq<Data>
    requires 3 <= |c| == |rs|
  {
    var m := |c| - 1;
    rs[..m - 2] +
    [Data(Some(c[m]), rs[m - 2].previous, rs[m - 2].value, rs[m - 2].id), Data(None, Some(c[m - 2]), rs[m].value, rs[m].id)]
  }

  /** Unlinking the last node keeps a list well-formed. */
  lemma LastUnlinked<T>(c: seq<Ref>, rs: seq<Data>, values: Values<T>)
    requires WellLinked(c, rs, values) && 3 <= |c|
    ensures WellLinked(c[..|c| - 2] + [c[|c| - 1]], LastDropRecords(c, rs), values)
  {
    var m := |c| - 1;
    var c' := c[..m - 1] + [c[m]];
    var rs' := LastDropRecords(c, rs);
    var f := seq(|c'|, i => if i == m - 1 then m else i);
    forall i | 0 <= i < |c'|
      ensures c'[i] == c[f[i]] && rs'[i].value == rs[f[i]].value
      ensures rs'[i].next == (if i + 1 < |c'| then Some(c'[i + 1]) else None)
      ensures rs'[i].previous == (if 0 < i then Some(c'[i - 1]) else None)
    {
      if i < m - 2 {
        assert c'[i] == c[i] && rs'[i] == rs[i] && c'[i + 1] == c[i + 1];
        if 0 < i { assert c'[i - 1] == c[i - 1]; }
      } else if i == m - 2 && 0 < i {
        assert c'[i - 1] == c[i - 1];
      }
    }
    PickedWellLinked(c, rs, values, c', rs', values, f);
  }

  /** The nodes removeLast writes, and what it writes to them. */
  lemma LastRemovedAt(links: Links, s: Sentinels, step: int)
    requires TailAndSecondLast(links, s, step).Some?
    requires TailAndSecondLast(links, s, step).value.1 != s.pseudoTail.value
    ensures var (td, pp, ppd) := TailAndSecondLast(links, s, step).value;
      var links' := LastRemoved(links, s, step);
      var t := s.pseudoTail.value;
      t in links && pp in links && t in links' && pp in links' &&
      links'[t] == links[t][step := Data(None, Some(pp), td.value, td.id)] &&
      links'[pp] == links[pp][step + 1 := Data(s.pseudoTail, ppd.previous, ppd.value, ppd.id)] &&
      forall x :: x in links && x != t && x != pp ==> x in links' && links'[x] == links[x]
  {
  }

  /**
   * The reads behind LastRemovedReads, on the chain's nodes and records alone; the tail is
   * rewritten at `step` itself, which reads on at step + 1 since nothing came later.
   */
  lemma LastDropReads<T>(links: Links, values: Values<T>, links': Links, c: seq<Ref>, rs: seq<Data>, step: int)
    requires AllRead(links, c, step) && rs == Snapshot(links, c, step) && Settled(links, values, c, step)
    requires 3 <= |c| && forall i, j :: 0 <= i < j < |c| ==> c[i] != c[j]
    requires var m := |c| - 1;
      c[m] in links && c[m] in links' && links'[c[m]] == links[c[m]][step := LastDropRecords(c, rs)[m - 1]] &&
      c[m - 2] in links && c[m - 2] in links' && links'[c[m - 2]] == links[c[m - 2]][step + 1 := LastDropRecords(c, rs)[m - 2]]
    requires forall x :: x in links && x != c[|c| - 1] && x != c[|c| - 3] ==> x in links' && links'[x] == links[x]
    ensures AllRead(links', c[..|c| - 2] + [c[|c| - 1]], step + 1)
    ensures Snapshot(links', c[..|c| - 2] + [c[|c| - 1]], step + 1) == LastDropRecords(c, rs)
  {
    var m := |c| - 1;
    var c' := c[..m - 1] + [c[m]];
    var rs' := LastDropRecords(c, rs);
    ReadOwnWrite(links[c[m - 2]], step + 1, rs'[m - 2]);
    assert SettledNode(links, values, c[m], step);
    ReadOwnWrite(links[c[m]], step, rs'[m - 1]);
    ReadsAfterLastWrite(links'[c[m]], step, step + 1);
    forall i | 0 <= i < |c'| ensures Read(links', Some(c'[i]), step + 1) == Some(rs'[i]) {
      if i < m - 2 {
        assert c'[i] == c[i] && rs'[i] == rs[i];
        UntouchedChain(links, values, links', c, step, c[m], c[m - 2], i);
      }
    }
    SnapshotIs(links', c', step + 1, rs');
  }

  lemma LastRemovedReads<T>(links: Links, values: Values<T>, s: Sentinels, step: int, ns: seq<Ref>)
    requires Linked(links, values, s, step, ns) && Settled(links, values, ChainOf(s, ns), step) && 1 <= |ns|
    ensures TailAndSecondLast(links, s, step).Some?
    ensures var links' := LastRemoved(links, s, step);
      var c := ChainOf(s, ns);
      var c' := ChainOf(s, ns[..|ns| - 1]);
      AllRead(links', c', step + 1) &&
      Snapshot(links', c', step + 1) == LastDropRecords(c, Snapshot(links, c, step))
  {
    var c := ChainOf(s, ns);
    var rs := Snapshot(links, c, step);
    var m := |c| - 1;
    assert Read(links, Some(c[m]), step) == Some(rs[m]) && Read(links, Some(c[m - 1]), step) == Some(rs[m - 1]);
    assert Read(links, Some(c[m - 2]), step) == Some(rs[m - 2]);
    assert TailAndSecondLast(links, s, step) == Some((rs[m], c[m - 2], rs[m - 2]));
    LastRemovedAt(links, s, step);
    ChainOfDropBack(s, ns);
    assert SettledNode(links, values, c[m], step);
    LastDropReads(links, values, LastRemoved(links, s, step), c, rs, step);
  }

  /** removeLast leaves every version before `step` as it was. */
  lemma LastRemovedKeeps(links: Links, s: Sentinels, step: int)
    requires TailAndSecondLast(links, s, step).Some?
    ensures KeptUpTo(links, LastRemoved(links, s, step), step - 1)
  {
    var (td, pp, ppd) := TailAndSecondLast(links, s, step).value;
    var l1 := Write(links, pp, step + 1, Data(s.pseudoTail, ppd.previous, ppd.value, ppd.id));
    WriteKeeps(links, pp, step + 1, Data(s.pseudoTail, ppd.previous, ppd.value, ppd.id), step - 1);
    WriteKeeps(l1, s.pseudoTail.value, step, Data(None, Some(pp), td.value, td.id), step - 1);
    KeptTrans(links, l1, LastRemoved(links, s, step), step - 1);
  }

  /** After removeLast the shortened chain is settled at step + 1. */
  lemma LastRemovedSettled<T>(links: Links, values: Values<T>, s: Sentinels, step: int, ns: seq<Ref>)
    requires Linked(links, values, s, step, ns) && Settled(links, values, ChainOf(s, ns), step) && 1 <= |ns|
    ensures TailAndSecondLast(links, s, step).Some?
    ensures Settled(LastRemoved(links, s, step), values, ChainOf(s, ns[..|ns| - 1]), step + 1)
  {
    var c := ChainOf(s, ns);
    var m := |c| - 1;
    var rs := Snapshot(links, c, step);
    LastRemovedReads(links, values, s, step, ns);
    var links' := LastRemoved(links, s, step);
    var c' := ChainOf(s, ns[..|ns| - 1]);
    var rs' := Snapshot(links', c', step + 1);
    assert |c'| == m && c'[m - 1] == c[m];
    forall i | 0 <= i < |c'| ensures SettledNode(links', values, c'[i], step + 1) {
      var j := if i == m - 1 then m else i;
      assert c'[i] == c[j];
      assert rs'[i].value == rs[j].value;
      assert SettledNode(links, values, c[j], step);
      assert ValueRef(links, c[j], step) == Some(rs[j].value);
      assert ValueRef(links', c'[i], step + 1) == Some(rs'[i].value);
    }
  }

  /** After removeLast the version at step + 1 holds the old elements but the last. */
  lemma LastRemovedItems<T>(links: Links, values: Values<T>, s: Sentinels, step: int, ns: seq<Ref>)
    requires Linked(links, values, s, step, ns) && Settled(links, values, ChainOf(s, ns), step) && 1 <= |ns|
    requires TailAndSecondLast(links, s, step).Some?
    requires Chain(LastRemoved(links, s, step), values, ChainOf(s, ns[..|ns| - 1]), step + 1)
    ensures Items(LastRemoved(links, s, step), values, ns[..|ns| - 1], step + 1) == Items(links, values, ns, step)[..|ns| - 1]
  {
    var c := ChainOf(s, ns);
    var rs := Snapshot(links, c, step);
    LastRemovedReads(links, values, s, step, ns);
    var links' := LastRemoved(links, s, step);
    var c' := ChainOf(s, ns[..|ns| - 1]);
    var xs := Items(links, values, ns, step);
    var xs' := Items(links', values, ns[..|ns| - 1], step + 1);
    forall i | 0 <= i < |ns| - 1 ensures xs'[i] == xs[i] {
      assert LastDropRecords(c, rs)[i + 1].value == rs[i + 1].value;
      SettledItem(links, values, c, step, i + 1, links', c', step + 1, i + 1);
    }
  }

  /**
   * removeLast on a well-formed list of at least one element: the version at step + 1 is
   * the old elements without the last, well-formed and settled in its turn; every version
   * before `step` reads as before.
   */
  lemma RemoveLastView<T>(links: Links, values: Values<T>, s: Sentinels, step: int, ns: seq<Ref>)
    requires Linked(links, values, s, step, ns) && Settled(links, values, ChainOf(s, ns), step) && 1 <= |ns|
    ensures TailAndSecondLast(links, s, step).Some?
    ensures var links' := LastRemoved(links, s, step);
      Linked(links', values, s, step + 1, ns[..|ns| - 1]) &&
      Settled(links', values, ChainOf(s, ns[..|ns| - 1]), step + 1) &&
      Items(links', values, ns[..|ns| - 1], step + 1) == Items(links, values, ns, step)[..|ns| - 1] &&
      KeptUpTo(links, links', step - 1)
  {
    var c := ChainOf(s, ns);
    var rs := Snapshot(links, c, step);
    LastRemovedReads(links, values, s, step, ns);
    var links' := LastRemoved(links, s, step);
    var c' := ChainOf(s, ns[..|ns| - 1]);
    LastUnlinked(c, rs, values);
    ChainOfDropBack(s, ns);
    assert Chain(links', values, c', step + 1);
    LastRemovedSettled(links, values, s, step, ns);
    LastRemovedItems(links, values, s, step, ns);
    LastRemovedKeeps(links, s, step);
  }

  /**
   * removeLast writes the tail's new backward link at the step of the version it was called
   * on, not at the next one: that version's forward walk still lists the old elements, but
   * its tail now links back past the last node, so the version is no longer a well-formed
   * list.
   */
  lemma RemoveLastRewritesPast<T>(links: Links, values: Values<T>, s: Sentinels, step: int, ns: seq<Ref>)
    requires Linked(links, values, s, step, ns) && Settled(links, values, ChainOf(s, ns), step) && 1 <= |ns|
    ensures TailAndSecondLast(links, s, step).Some?
    ensures var links' := LastRemoved(links, s, step);
      var c := ChainOf(s, ns);
      Read(links', s.pseudoTail, step).Some? &&
      Read(links', s.pseudoTail, step).value.previous == Some(c[|c| - 3]) != Read(links, s.pseudoTail, step).value.previous &&
      !Linked(links', values, s, step, ns) &&
      ToList(links', values, s, step, |ns|) == ToList(links, values, s, step, |ns|)
  {
    var c := ChainOf(s, ns);
    var rs := Snapshot(links, c, step);
    var m := |c| - 1;
    var t := c[m];
    var pp := c[m - 2];
    assert Read(links, Some(t), step) == Some(rs[m]) && Read(links, Some(c[m - 1]), step) == Some(rs[m - 1]);
    assert Read(links, Some(pp), step) == Some(rs[m - 2]);
    assert TailAndSecondLast(links, s, step) == Some((rs[m], pp, rs[m - 2]));
    LastRemovedAt(links, s, step);
    var links' := LastRemoved(links, s, step);
    var td' := Data(None, Some(pp), rs[m].value, rs[m].id);
    ReadOwnWrite(links[t], step, td');
    assert Read(links', s.pseudoTail, step) == Some(td');
    assert rs[m].previous == Some(c[m - 1]) != Some(pp);
    if AllRead(links', c, step) {
      var rs' := Snapshot(links', c, step);
      assert rs'[m] == td';
      assert rs'[m].previous != (if 0 < m then Some(c[m - 1]) else None);
    }
    forall k | 0 <= k < m ensures Read(links', Some(c[k]), step) == Read(links, Some(c[k]), step) {
      assert c[k] != t;
      assert HasRecord(links, c[k], step);
      if c[k] == pp {
        EarlierVersionsKept(links[pp], step + 1, Data(s.pseudoTail, rs[m - 2].previous, rs[m - 2].value, rs[m - 2].id), step);
      }
    }
    ListView(links, values, s, step, ns);
    assert First(links', s, step) == First(links, s, step);
    CollectAgrees(links, links', values, c, step, 1, |ns|);
  }

  // ---------------------------------------------------------------------------------------
  // clear

  /** The link nodes after clear at `step`: from step + 1 on, the sentinels point to each other. */
  ghost function Cleared(links: Links, s: Sentinels, step: int): Links
    requires Read(links, s.pseudoHead, step).Some? && Read(links, s.pseudoTail, step).Some?
  {
    var hd := Read(links, s.pseudoHead, step).value;
    var td := Read(links, s.pseudoTail, step).value;
    var l1 := Write(links, s.pseudoHead.value, step + 1, Data(s.pseudoTail, None, hd.value, hd.id));
    Write(l1, s.pseudoTail.value, step + 1, Data(None, s.pseudoHead, td.value, td.id))
  }

  /**
   * Two sentinels pointing to each other, with distinct element nodes and no write after
   * `step`, form an empty, settled list at `step`.
   */
  lemma PairLinked<T>(links: Links, values: Values<T>, h: Ref, t: Ref, hd: Data, td: Data, step: int)
    requires h != t && hd.value != td.value && hd.value in values && td.value in values
    requires hd == Data(Some(t), None, hd.value, hd.id) && td == Data(None, Some(h), td.value, td.id)
    requires Read(links, Some(h), step) == Some(hd) && Read(links, Some(t), step) == Some(td)
    requires SettledNode(links, values, h, step) && SettledNode(links, values, t, step)
    ensures Linked(links, values, Sentinels(Some(h), Some(t)), step, [])
    ensures Settled(links, values, ChainOf(Sentinels(Some(h), Some(t)), []), step)
    ensures ToList(links, values, Sentinels(Some(h), Some(t)), step, 0) == Success([])
  {
    var c := ChainOf(Sentinels(Some(h), Some(t)), []);
    assert c == [h, t];
    SnapshotIs(links, c, step, [hd, td]);
  }

  /**
   * A settled node rewritten at step + 1 with a record that keeps its element node reads
   * that record from step + 1 on and is settled there.
   */
  lemma RewrittenNode<T>(links: Links, values: Values<T>, links': Links, r: Ref, step: int, d: Data)
    requires SettledNode(links, values, r, step) && Read(links, Some(r), step).Some?
    requires d.value == Read(links, Some(r), step).value.value
    requires r in links' && links'[r] == links[r][step + 1 := d]
    ensures Read(links', Some(r), step + 1) == Some(d) && SettledNode(links', values, r, step + 1)
  {
    ReadOwnWrite(links[r], step + 1, d);
    assert ValueRef(links, r, step) == Some(d.value);
  }

  /**
   * clear on a well-formed list: the version at step + 1 is an empty well-formed list,
   * settled in its turn, and every version up to `step` reads as before.
   */
  lemma ClearView<T>(links: Links, values: Values<T>, s: Sentinels, step: int, ns: seq<Ref>)
    requires Linked(links, values, s, step, ns) && Settled(links, values, ChainOf(s, ns), step)
    ensures Read(links, s.pseudoHead, step).Some? && Read(links, s.pseudoTail, step).Some?
    ensures var links' := Cleared(links, s, step);
      Linked(links', values, s, step + 1, []) && Settled(links', values, ChainOf(s, []), step + 1) &&
      ToList(links', values, s, step + 1, 0) == Success([]) &&
      KeptUpTo(links, links', step)
  {
    var c := ChainOf(s, ns);
    var rs := Snapshot(links, c, step);
    var m := |c| - 1;
    var h := c[0];
    var t := c[m];
    assert Read(links, Some(h), step) == Some(rs[0]) && Read(links, Some(t), step) == Some(rs[m]);
    assert h != t && rs[0].value in values && rs[m].value in values && rs[0].value != rs[m].value;
    assert SettledNode(links, values, h, step) && SettledNode(links, values, t, step);
    var hd' := Data(Some(t), None, rs[0].value, rs[0].id);
    var td' := Data(None, Some(h), rs[m].value, rs[m].id);
    var l1 := Write(links, h, step + 1, hd');
    var links' := Cleared(links, s, step);
    assert links' == Write(l1, t, step + 1, td');
    RewrittenNode(links, values, links', h, step, hd');
    RewrittenNode(links, values, links', t, step, td');
    PairLinked(links', values, h, t, hd', td', step + 1);
    WriteKeeps(links, h, step + 1, hd', step);
    WriteKeeps(l1, t, step + 1, td', step);
    KeptTrans(links, l1, links', step);
  }

  // ---------------------------------------------------------------------------------------
  // replace

  /** The writes of replace to the `k`-th node of a chain and to its element node. */
  ghost function Rewritten(links: Links, c: seq<Ref>, step: int, k: nat): Links
    requires AllRead(links, c, step) && k < |c|
  {
    assert HasRecord(links, c[k], step);
    Write(links, c[k], step + 1, Snapshot(links, c, step)[k])
  }

  ghost function Revalued<T>(links: Links, values: Values<T>, c: seq<Ref>, step: int, k: nat, value: Option<T>): Values<T>
    requires Chain(links, values, c, step) && k < |c|
  {
    var v := Snapshot(links, c, step)[k].value;
    values[v := values[v][step + 1 := value]]
  }

  /** After replace's writes the chain reads at step + 1 with the same records. */
  lemma RewrittenReads<T>(links: Links, values: Values<T>, c: seq<Ref>, step: int, k: nat)
    requires Chain(links, values, c, step) && Settled(links, values, c, step) && k < |c|
    ensures var links' := Rewritten(links, c, step, k);
      AllRead(links', c, step + 1) && Snapshot(links', c, step + 1) == Snapshot(links, c, step)
  {
    var rs := Snapshot(links, c, step);
    var r := c[k];
    assert HasRecord(links, r, step);
    var links' := Rewritten(links, c, step, k);
    ReadOwnWrite(links[r], step + 1, rs[k]);
    forall i | 0 <= i < |c| ensures Read(links', Some(c[i]), step + 1) == Some(rs[i]) && HasRecord(links', c[i], step + 1) {
      if i != k {
        assert SettledNode(links, values, c[i], step);
        UntouchedRead(links, values, links', c[i], step);
      }
    }
    assert Snapshot(links', c, step + 1) == rs;
  }

  /** After replace's writes the chain is settled at step + 1. */
  lemma RewrittenSettled<T>(links: Links, values: Values<T>, c: seq<Ref>, step: int, k: nat, value: Option<T>)
    requires Chain(links, values, c, step) && Settled(links, values, c, step) && k < |c|
    requires AllRead(Rewritten(links, c, step, k), c, step + 1)
    requires Snapshot(Rewritten(links, c, step, k), c, step + 1) == Snapshot(links, c, step)
    ensures Settled(Rewritten(links, c, step, k), Revalued(links, values, c, step, k, value), c, step + 1)
  {
    var rs := Snapshot(links, c, step);
    var links' := Rewritten(links, c, step, k);
    var values' := Revalued(links, values, c, step, k, value);
    assert HasRecord(links, c[k], step);
    forall i | 0 <= i < |c| ensures SettledNode(links', values', c[i], step + 1) {
      assert SettledNode(links, values, c[i], step);
      assert ValueRef(links, c[i], step) == Some(rs[i].value);
      assert ValueRef(links', c[i], step + 1) == Some(rs[i].value);
    }
  }

  /** replace's writes leave every version up to `step` as it was. */
  lemma RewrittenKeeps<T>(links: Links, values: Values<T>, c: seq<Ref>, step: int, k: nat, value: Option<T>)
    requires Chain(links, values, c, step) && k < |c|
    ensures KeptUpTo(links, Rewritten(links, c, step, k), step)
    ensures ValuesKeptUpTo(values, Revalued(links, values, c, step, k, value), step)
  {
    var rs := Snapshot(links, c, step);
    assert HasRecord(links, c[k], step);
    WriteKeeps(links, c[k], step + 1, rs[k], step);
    RestrictBelowWrite(values[rs[k].value], step, value);
  }

  /** After replace's writes the chain is well-formed and settled at step + 1, the past kept. */
  lemma RewrittenChain<T>(links: Links, values: Values<T>, c: seq<Ref>, step: int, k: nat, value: Option<T>)
    requires Chain(links, values, c, step) && Settled(links, values, c, step) && k < |c|
    ensures var links' := Rewritten(links, c, step, k);
      var values' := Revalued(links, values, c, step, k, value);
      Chain(links', values', c, step + 1) && Snapshot(links', c, step + 1) == Snapshot(links, c, step) &&
      Settled(links', values', c, step + 1) &&
      KeptUpTo(links, links', step) && ValuesKeptUpTo(values, values', step)
  {
    RewrittenReads(links, values, c, step, k);
    RewrittenSettled(links, values, c, step, k, value);
    RewrittenKeeps(links, values, c, step, k, value);
    WellLinkedWider(c, Snapshot(links, c, step), values, Revalued(links, values, c, step, k, value));
  }

  /** After replace's writes the node at `num` holds `value`, the others what they held. */
  lemma RewrittenItems<T>(links: Links, values: Values<T>, s: Sentinels, step: int, ns: seq<Ref>, num: nat, value: Option<T>)
    requires Linked(links, values, s, step, ns) && Settled(links, values, ChainOf(s, ns), step) && num <= |ns|
    requires var c := ChainOf(s, ns);
      Chain(Rewritten(links, c, step, num + 1), Revalued(links, values, c, step, num + 1, value), c, step + 1) &&
      Snapshot(Rewritten(links, c, step, num + 1), c, step + 1) == Snapshot(links, c, step)
    ensures var c := ChainOf(s, ns);
      Items(Rewritten(links, c, step, num + 1), Revalued(links, values, c, step, num + 1, value), ns, step + 1) ==
        if num < |ns| then Items(links, values, ns, step)[num := value] else Items(links, values, ns, step)
  {
    var c := ChainOf(s, ns);
    var rs := Snapshot(links, c, step);
    var rv := rs[num + 1].value;
    var links' := Rewritten(links, c, step, num + 1);
    var values' := Revalued(links, values, c, step, num + 1, value);
    ValueOwnWrite(values[rv], step + 1, value);
    var xs := Items(links, values, ns, step);
    var xs' := Items(links', values', ns, step + 1);
    assert |xs| == |xs'| == |ns|;
    forall i | 0 <= i < |ns| ensures xs'[i] == if i == num then value else xs[i] {
      assert ns[i] == c[i + 1];
      ChainElement(links', values', c, step + 1, i + 1);
      ChainElement(links, values, c, step, i + 1);
      if i != num {
        assert rs[i + 1].value != rv;
        assert SettledNode(links, values, c[i + 1], step);
        assert ValueRef(links, c[i + 1], step) == Some(rs[i + 1].value);
        ValueSettled(values, rs[i + 1].value, step, step + 1);
      }
    }
  }

  /**
   * replace on a well-formed list, at an index up to the count, where findNode reaches the
   * node at `num` (the tail for `num` equal to the count): with that node's record rewritten as it
   * was at step + 1 and its element node given `value` at step + 1, the version at step + 1
   * is the same list with element `num` replaced (nothing visible when the node is the
   * tail), well-formed and settled; every version up to `step` reads as before.
   */
  lemma ReplaceView<T>(links: Links, values: Values<T>, s: Sentinels, step: int, ns: seq<Ref>, num: nat, value: Option<T>)
    requires Linked(links, values, s, step, ns) && Settled(links, values, ChainOf(s, ns), step) && num <= |ns|
    ensures var c := ChainOf(s, ns);
      var links' := Rewritten(links, c, step, num + 1);
      var values' := Revalued(links, values, c, step, num + 1, value);
      Linked(links', values', s, step + 1, ns) && Settled(links', values', c, step + 1) &&
      Items(links', values', ns, step + 1) ==
        (if num < |ns| then Items(links, values, ns, step)[num := value] else Items(links, values, ns, step)) &&
      KeptUpTo(links, links', step) && ValuesKeptUpTo(values, values', step)
  {
    var c := ChainOf(s, ns);
    RewrittenChain(links, values, c, step, num + 1, value);
    RewrittenItems(links, values, s, step, ns, num, value);
  }

  /**
   * Element nodes other than `v` left alone, a chain whose nodes do not hold `v` and read at
   * step + 1 as at `step` holds the same elements at step + 1.
   */
  lemma OtherElementsKept<T>(links: Links, values: Values<T>, links': Links, values': Values<T>, c: seq<Ref>, step: int, v: Ref)
    requires Chain(links, values, c, step) && Settled(links, values, c, step)
    requires AllRead(links', c, step + 1) && Snapshot(links', c, step + 1) == Snapshot(links, c, step)
    requires forall x :: x in values && x != v ==> x in values' && values'[x] == values[x]
    requires forall i :: 0 <= i < |c| ==> ValueRef(links, c[i], step) != Some(v)
    ensures forall i :: 0 <= i < |c| ==> ElementOf(links', values', c[i], step + 1) == ElementOf(links, values, c[i], step)
  {
    var rs := Snapshot(links, c, step);
    forall i | 0 <= i < |c| ensures ElementOf(links', values', c[i], step + 1) == ElementOf(links, values, c[i], step) {
      assert Read(links, Some(c[i]), step) == Some(rs[i]) && Read(links', Some(c[i]), step + 1) == Some(rs[i]);
      assert ValueRef(links, c[i], step) == Some(rs[i].value);
      assert SettledNode(links, values, c[i], step);
      ValueSettled(values, rs[i].value, step, step + 1);
    }
  }

  /**
   * replace reached through a stale version writes into the nodes of that version's own
   * storage, not into the target's: any other well-formed list that holds neither the
   * written node nor its element node, such as the rebuilt copy the new version is given,
   * reads at step + 1 exactly as it did at `step`, so the replacement is lost.
   */
  lemma ReplaceMissesOtherList<T>(links: Links, values: Values<T>, r: Ref, v: Ref, d: Data, value: Option<T>,
                                  s: Sentinels, step: int, ns: seq<Ref>)
    requires r in links && v in values
    requires Linked(links, values, s, step, ns) && Settled(links, values, ChainOf(s, ns), step)
    requires r !in ChainOf(s, ns) && forall i :: 0 <= i < |ns| + 2 ==> ValueRef(links, ChainOf(s, ns)[i], step) != Some(v)
    ensures var links' := Write(links, r, step + 1, d);
      var values' := values[v := values[v][step + 1 := value]];
      Linked(links', values', s, step + 1, ns) &&
      Items(links', values', ns, step + 1) == Items(links, values, ns, step)
  {
    var c := ChainOf(s, ns);
    var links' := Write(links, r, step + 1, d);
    var values' := values[v := values[v][step + 1 := value]];
    UntouchedAll(links, values, links', c, step, r);
    WellLinkedWider(c, Snapshot(links, c, step), values, values');
    OtherElementsKept(links, values, links', values', c, step, v);
    var xs := Items(links, values, ns, step);
    var xs' := Items(links', values', ns, step + 1);
    forall i | 0 <= i < |ns| ensures xs'[i] == xs[i] {
      assert ns[i] == c[i + 1];
    }
  }

  // ---------------------------------------------------------------------------------------
  // The storage edits: the private addFirst, addLast, removeFirst, removeLast and replace,
  // and the body of clear. Each writes the arena's fat nodes and bumps the counter of the
  // content it is given; a null dereferenced on the way is reported as a failure.

  /** Two PersistentNode.update calls at the same step: `a` first, then `b`. */
  method UpdatePair<T>(arena: Arena<T>, a: Ref, da: Data, b: Ref, db: Data, step: int)
    requires arena.Valid() && a in arena.links && b in arena.links
    requires Closed(arena.links, arena.values, arena.nextId, da) && Closed(arena.links, arena.values, arena.nextId, db)
    modifies arena
    ensures arena.Valid() && arena.links == Write(Write(old(arena.links), a, step, da), b, step, db)
    ensures arena.values == old(arena.values) && arena.nextRef == old(arena.nextRef) && arena.nextId == old(arena.nextId)
  {
    arena.Update(a, step, da);
    arena.Update(b, step, db);
  }

  /** addFirst's writes, spelled out for the records read. */
  lemma FirstAddedIs(links: Links, s: Sentinels, step: int, nr: Ref, vr: Ref, id: Id, hd: Data, n: Ref, nd: Data)
    requires HeadAndFirst(links, s, step) == Some((hd, n, nd))
    ensures FirstAdded(links, s, step, nr, vr, id) ==
      Write(Write(links[nr := Created(step + 1, Data(hd.next, s.pseudoHead, vr, id))], n, step + 1, Data(nd.next, Some(nr), nd.value, nd.id)),
            s.pseudoHead.value, step + 1, Data(Some(nr), None, hd.value, hd.id))
  {
  }

  /** addLast's writes, spelled out for the records read. */
  lemma LastAddedIs(links: Links, s: Sentinels, step: int, nr: Ref, vr: Ref, id: Id, td: Data, p: Ref, pd: Data)
    requires TailAndLast(links, s, step) == Some((td, p, pd))
    ensures LastAdded(links, s, step, nr, vr, id) ==
      Write(Write(links[nr := Created(step + 1, Data(s.pseudoTail, td.previous, vr, id))], p, step + 1, Data(Some(nr), pd.previous, pd.value, pd.id)),
            s.pseudoTail.value, step + 1, Data(None, Some(nr), td.value, td.id))
  {
  }

  /**
   * The private addFirst. A null head record or first node throws before anything is
   * created; a first node without a record throws inside update, once the new node exists.
   */
  method AddFirstImpl<T>(arena: Arena<T>, content: PersistentContent<Sentinels>, step: int, value: Option<T>) returns (ok: bool)
    requires arena.Valid()
    modifies arena, content, content.maxModification
    ensures arena.Valid() && content.content == old(content.content)
    ensures ok <==> HeadAndFirst(old(arena.links), content.content, step).Some?
    ensures ok ==>
      arena.links == FirstAdded(old(arena.links), content.content, step, old(arena.nextRef) + 1, old(arena.nextRef), old(arena.nextId)) &&
      arena.values == old(arena.values)[old(arena.nextRef) := Created(step + 1, value)] &&
      content.maxModification.value == old(content.maxModification.value) + 1
    ensures !ok ==>
      Grown(old(arena.links), old(arena.values), arena.links, arena.values) &&
      content.maxModification.value == old(content.maxModification.value)
    ensures !ok && (Read(old(arena.links), content.content.pseudoHead, step).None? ||
                    Read(old(arena.links), content.content.pseudoHead, step).value.next.None?) ==>
      unchanged(arena)
  {
    var s := content.content;
    var hd := Read(arena.links, s.pseudoHead, step);
    if hd.None? || hd.value.next.None? {
      return false;
    }
    ReadClosed(arena.links, arena.values, arena.nextId, s.pseudoHead, step);
    var n := hd.value.next.value;
    var nd := Read(arena.links, Some(n), step);
    ghost var links0 := arena.links;
    var vr := arena.NewValue(step + 1, value);
    var d := arena.NewData(hd.value.next, s.pseudoHead, vr);
    var nr := arena.NewNode(step + 1, d);
    if nd.None? {
      return false;
    }
    ReadClosed(links0, old(arena.values), arena.nextId, Some(n), step);
    assert HeadAndFirst(old(arena.links), s, step) == Some((hd.value, n, nd.value));
    UpdatePair(arena, n, Data(nd.value.next, Some(nr), nd.value.value, nd.value.id),
           s.pseudoHead.value, Data(Some(nr), None, hd.value.value, hd.value.id), step + 1);
    FirstAddedIs(old(arena.links), s, step, old(arena.nextRef) + 1, old(arena.nextRef), old(arena.nextId), hd.value, n, nd.value);
    content.Update(s);
    ok := true;
  }

  /**
   * The private addLast. A null tail record or last node throws before anything is
   * created; a last node without a record throws inside update, once the new node exists.
   */
  method AddLastImpl<T>(arena: Arena<T>, content: PersistentContent<Sentinels>, step: int, value: Option<T>) returns (ok: bool)
    requires arena.Valid()
    modifies arena, content, content.maxModification
    ensures arena.Valid() && content.content == old(content.content)
    ensures ok <==> TailAndLast(old(arena.links), content.content, step).Some?
    ensures ok ==>
      arena.links == LastAdded(old(arena.links), content.content, step, old(arena.nextRef) + 1, old(arena.nextRef), old(arena.nextId)) &&
      arena.values == old(arena.values)[old(arena.nextRef) := Created(step + 1, value)] &&
      content.maxModification.value == old(content.maxModification.value) + 1
    ensures !ok ==>
      Grown(old(arena.links), old(arena.values), arena.links, arena.values) &&
      content.maxModification.value == old(content.maxModification.value)
    ensures !ok && (Read(old(arena.links), content.content.pseudoTail, step).None? ||
                    Read(old(arena.links), content.content.pseudoTail, step).value.previous.None?) ==>
      unchanged(arena)
  {
    var s := content.content;
    var td := Read(arena.links, s.pseudoTail, step);
    if td.None? || td.value.previous.None? {
      return false;
    }
    ReadClosed(arena.links, arena.values, arena.nextId, s.pseudoTail, step);
    var p := td.value.previous.value;
    var pd := Read(arena.links, Some(p), step);
    ghost var links0 := arena.links;
    var vr := arena.NewValue(step + 1, value);
    var d := arena.NewData(s.pseudoTail, td.value.previous, vr);
    var nr := arena.NewNode(step + 1, d);
    if pd.None? {
      return false;
    }
    ReadClosed(links0, old(arena.values), arena.nextId, Some(p), step);
    assert TailAndLast(old(arena.links), s, step) == Some((td.value, p, pd.value));
    UpdatePair(arena, p, Data(Some(nr), pd.value.previous, pd.value.value, pd.value.id),
           s.pseudoTail.value, Data(None, Some(nr), td.value.value, td.value.id), step + 1);
    LastAddedIs(old(arena.links), s, step, old(arena.nextRef) + 1, old(arena.nextRef), old(arena.nextId), td.value, p, pd.value);
    content.Update(s);
    ok := true;
  }

  /** The private removeFirst: every null it can meet is met before the first write. */
  method RemoveFirstImpl<T>(arena: Arena<T>, content: PersistentContent<Sentinels>, step: int) returns (ok: bool)
    requires arena.Valid()
    modifies arena, content, content.maxModification
    ensures arena.Valid() && content.content == old(content.content)
    ensures ok <==> HeadAndSecond(old(arena.links), content.content, step).Some?
    ensures ok ==>
      arena.links == FirstRemoved(old(arena.links), content.content, step) && arena.values == old(arena.values) &&
      arena.nextRef == old(arena.nextRef) && content.maxModification.value == old(content.maxModification.value) + 1
    ensures !ok ==> unchanged(arena, content, content.maxModification)
  {
    var s := content.content;
    var hd := Read(arena.links, s.pseudoHead, step);
    if hd.None? {
      return false;
    }
    var fd := Read(arena.links, hd.value.next, step);
    if fd.None? {
      return false;
    }
    var nnd := Read(arena.links, fd.value.next, step);
    if nnd.None? {
      return false;
    }
    var nn := fd.value.next.value;
    ReadClosed(arena.links, arena.values, arena.nextId, s.pseudoHead, step);
    ReadClosed(arena.links, arena.values, arena.nextId, Some(nn), step);
    arena.Update(nn, step + 1, Data(nnd.value.next, s.pseudoHead, nnd.value.value, nnd.value.id));
    arena.Update(s.pseudoHead.value, step + 1, Data(Some(nn), None, hd.value.value, hd.value.id));
    content.Update(s);
    ok := true;
  }

  /**
   * The private removeLast: every null it can meet is met before the first write. The
   * tail's new record is written at `step`, not step + 1.
   */
  method RemoveLastImpl<T>(arena: Arena<T>, content: PersistentContent<Sentinels>, step: int) returns (ok: bool)
    requires arena.Valid()
    modifies arena, content, content.maxModification
    ensures arena.Valid() && content.content == old(content.content)
    ensures ok <==> TailAndSecondLast(old(arena.links), content.content, step).Some?
    ensures ok ==>
      arena.links == LastRemoved(old(arena.links), content.content, step) && arena.values == old(arena.values) &&
      arena.nextRef == old(arena.nextRef) && content.maxModification.value == old(content.maxModification.value) + 1
    ensures !ok ==> unchanged(arena, content, content.maxModification)
  {
    var s := content.content;
    var td := Read(arena.links, s.pseudoTail, step);
    if td.None? {
      return false;
    }
    var ld := Read(arena.links, td.value.previous, step);
    if ld.None? {
      return false;
    }
    var ppd := Read(arena.links, ld.value.previous, step);
    if ppd.None? {
      return false;
    }
    var pp := ld.value.previous.value;
    ReadClosed(arena.links, arena.values, arena.nextId, s.pseudoTail, step);
    ReadClosed(arena.links, arena.values, arena.nextId, Some(pp), step);
    arena.Update(pp, step + 1, Data(s.pseudoTail, ppd.value.previous, ppd.value.value, ppd.value.id));
    arena.Update(s.pseudoTail.value, step, Data(None, Some(pp), td.value.value, td.value.id));
    content.Update(s);
    ok := true;
  }

  /**
   * The body clear runs inside update. A null head record throws before any write; a null
   * tail record throws once the head is already rewritten, and the counter is not bumped.
   */
  method ClearImpl<T>(arena: Arena<T>, content: PersistentContent<Sentinels>, step: int) returns (ok: bool)
    requires arena.Valid() && Anchored(arena.links, content.content)
    modifies arena, content, content.maxModification
    ensures arena.Valid() && content.content == old(content.content)
    ensures var s := content.content;
      ok <==> Read(old(arena.links), s.pseudoHead, step).Some? && Read(old(arena.links), s.pseudoTail, step).Some?
    ensures ok ==>
      arena.links == Cleared(old(arena.links), content.content, step) && arena.values == old(arena.values) &&
      arena.nextRef == old(arena.nextRef) && content.maxModification.value == old(content.maxModification.value) + 1
    ensures !ok ==> content.maxModification.value == old(content.maxModification.value)
    ensures !ok && Read(old(arena.links), content.content.pseudoHead, step).None? ==> unchanged(arena)
    ensures !ok && Read(old(arena.links), content.content.pseudoHead, step).Some? ==>
      var hd := Read(old(arena.links), content.content.pseudoHead, step).value;
      arena.links == Write(old(arena.links), content.content.pseudoHead.value, step + 1,
                           Data(content.content.pseudoTail, None, hd.value, hd.id)) &&
      arena.values == old(arena.values)
  {
    var s := content.content;
    var hd := Read(arena.links, s.pseudoHead, step);
    if hd.None? {
      return false;
    }
    ghost var links0 := arena.links;
    ReadClosed(arena.links, arena.values, arena.nextId, s.pseudoHead, step);
    arena.Update(s.pseudoHead.value, step + 1, Data(s.pseudoTail, None, hd.value.value, hd.value.id));
    var td := Read(arena.links, s.pseudoTail, step);
    assert td == Read(links0, s.pseudoTail, step) by {
      if s.pseudoTail.Some? && s.pseudoTail.value == s.pseudoHead.value {
        EarlierVersionsKept(links0[s.pseudoHead.value], step + 1, Data(s.pseudoTail, None, hd.value.value, hd.value.id), step);
      }
    }
    if td.None? {
      return false;
    }
    ReadClosed(links0, arena.values, arena.nextId, s.pseudoTail, step);
    arena.Update(s.pseudoTail.value, step + 1, Data(None, s.pseudoHead, td.value.value, td.value.id));
    content.Update(s);
    ok := true;
  }

  /** The node replace writes and the record it holds: findNode's node in the sentinels `s`. */
  function Located(links: Links, s: Sentinels, step: int, num: nat): Result<(Ref, Data)>
  {
    match FindNode(links, s, step, num)
    case Failure(e) => Failure(e)
    case Success(node) =>
      match Read(links, node, step)
      case None => Failure(NullPointer)
      case Some(d) => Success((node.value, d))
  }

  /** On a well-formed list, replace locates the node at `num`, as ReplaceView writes it. */
  lemma ReplaceLocates<T>(links: Links, values: Values<T>, s: Sentinels, step: int, ns: seq<Ref>, num: nat)
    requires Linked(links, values, s, step, ns) && num <= |ns|
    ensures var c := ChainOf(s, ns);
      Located(links, s, step, num) == Success((c[num + 1], Snapshot(links, c, step)[num + 1]))
  {
    var c := ChainOf(s, ns);
    FindNodeLinked(links, values, s, step, ns, num);
    assert c[num + 1] == if num < |ns| then ns[num] else s.pseudoTail.value;
    assert Read(links, Some(c[num + 1]), step) == Some(Snapshot(links, c, step)[num + 1]);
  }

  /**
   * The private replace: findNode walks the sentinels `own` of the version replace was
   * called on, while the counter bumped is the one of `content`. Every null it can meet
   * is met before the first write; the element node is written before the link node.
   */
  method ReplaceImpl<T>(arena: Arena<T>, own: Sentinels, content: PersistentContent<Sentinels>, step: int, num: nat, value: Option<T>)
    returns (ok: bool)
    requires arena.Valid()
    modifies arena, content, content.maxModification
    ensures arena.Valid() && content.content == old(content.content)
    ensures ok <==> Located(old(arena.links), own, step, num).Success?
    ensures ok ==>
      var (r, d) := Located(old(arena.links), own, step, num).value;
      r in old(arena.links) && d.value in old(arena.values) &&
      arena.links == Write(old(arena.links), r, step + 1, d) &&
      arena.values == old(arena.values)[d.value := old(arena.values)[d.value][step + 1 := value]] &&
      content.maxModification.value == old(content.maxModification.value) + 1
    ensures !ok ==> unchanged(arena, content, content.maxModification)
  {
    var node := FindNodeImpl(arena, own, step, num);
    if node.Failure? || node.value.None? {
      return false;
    }
    var nd := Read(arena.links, node.value, step);
    if nd.None? {
      return false;
    }
    var r := node.value.value;
    ReadClosed(arena.links, arena.values, arena.nextId, Some(r), step);
    arena.UpdateValue(nd.value.value, step + 1, value);
    arena.Update(r, step + 1, nd.value);
    content.Update(content.content);
    ok := true;
  }

  // ---------------------------------------------------------------------------------------
  // The walks

  /** findNode: `num` next links on from the first node; a null met on the way throws. */
  method FindNodeImpl<T>(arena: Arena<T>, s: Sentinels, step: int, num: nat) returns (r: Result<Option<Ref>>)
    ensures r == FindNode(arena.links, s, step, num)
  {
    var hd := Read(arena.links, s.pseudoHead, step);
    if hd.None? {
      return Failure(NullPointer);
    }
    var current := hd.value.next;
    var i: nat := num;
    while i != 0
      invariant FindNode(arena.links, s, step, num) == Follow(arena.links, current, step, i)
    {
      var d := Read(arena.links, current, step);
      if d.None? {
        return Failure(NullPointer);
      }
      current := d.value.next;
      i := i - 1;
    }
    r := Success(current);
  }

  /** A finished walk's result put after the elements listed so far. */
  function After<T>(acc: seq<Option<T>>, rest: Result<seq<Option<T>>>): Result<seq<Option<T>>>
  {
    match rest
    case Failure(e) => Failure(e)
    case Success(xs) => Success(acc + xs)
  }

  /** toList(step): the elements of `count` nodes from the first on; a null met throws. */
  method ToListImpl<T>(arena: Arena<T>, s: Sentinels, step: int, count: nat) returns (r: Result<seq<Option<T>>>)
    ensures r == ToList(arena.links, arena.values, s, step, count)
  {
    var hd := Read(arena.links, s.pseudoHead, step);
    if hd.None? {
      return Failure(NullPointer);
    }
    var current := hd.value.next;
    var acc: seq<Option<T>> := [];
    var i: nat := count;
    match Collect(arena.links, arena.values, current, step, i) {
      case Failure(_) =>
      case Success(xs) => assert acc + xs == xs;
    }
    while i != 0
      invariant ToList(arena.links, arena.values, s, step, count) == After(acc, Collect(arena.links, arena.values, current, step, i))
      decreases i
    {
      var d := Read(arena.links, current, step);
      if d.None? {
        return Failure(NullPointer);
      }
      var x := ValueOf(arena.values, d.value.value, step);
      match Collect(arena.links, arena.values, d.value.next, step, i - 1) {
        case Failure(_) =>
        case Success(rest) => assert acc + ([x] + rest) == acc + [x] + rest;
      }
      acc := acc + [x];
      current := d.value.next;
      i := i - 1;
    }
    assert acc + [] == acc;
    r := Success(acc);
  }

  /** contains: the walk over `count` nodes from the first on, as Search answers it. */
  function Contains<T(==)>(links: Links, values: Values<T>, s: Sentinels, step: int, count: nat, item: Option<T>): Result<bool>
  {
    match First(links, s, step)
    case Failure(e) => Failure(e)
    case Success(cur) => Search(links, values, cur, step, count, item)
  }

  /**
   * contains on a well-formed list answers as FirstMatch on its elements: membership when no
   * element is null, a NullPointer failure when a null comes before any match.
   */
  lemma ContainsLinked<T>(links: Links, values: Values<T>, s: Sentinels, step: int, ns: seq<Ref>, item: Option<T>)
    requires Linked(links, values, s, step, ns)
    ensures Contains(links, values, s, step, |ns|, item) == FirstMatch(Items(links, values, ns, step), item)
    ensures (forall i :: 0 <= i < |ns| ==> Items(links, values, ns, step)[i].Some?) ==>
      Contains(links, values, s, step, |ns|, item) == Success(item in Items(links, values, ns, step))
  {
    var c := ChainOf(s, ns);
    ListView(links, values, s, step, ns);
    SearchChain(links, values, c, step, 1, |ns|, item);
    assert c[1..1 + |ns|] == ns;
    if forall i :: 0 <= i < |ns| ==> Items(links, values, ns, step)[i].Some? {
      FirstMatchMember(Items(links, values, ns, step), item);
    }
  }

  method ContainsImpl<T(==)>(arena: Arena<T>, s: Sentinels, step: int, count: nat, item: Option<T>) returns (r: Result<bool>)
    ensures r == Contains(arena.links, arena.values, s, step, count, item)
  {
    var hd := Read(arena.links, s.pseudoHead, step);
    if hd.None? {
      return Failure(NullPointer);
    }
    var current := hd.value.next;
    var i: nat := count;
    while i != 0
      invariant Contains(arena.links, arena.values, s, step, count, item) == Search(arena.links, arena.values, current, step, i, item)
    {
      var d := Read(arena.links, current, step);
      if d.None? {
        return Failure(NullPointer);
      }
      var x := ValueOf(arena.values, d.value.value, step);
      if x.None? {
        return Failure(NullPointer);
      }
      if x == item {
        return Success(true);
      }
      current := d.value.next;
      i := i - 1;
    }
    r := Success(false);
  }

  /**
   * get(num): findNode's node; the tail (or null when the tail is null) reads as null,
   * any other node as its element, and a null node throws.
   */
  function GetAt<T>(links: Links, values: Values<T>, s: Sentinels, step: int, num: nat): Result<Option<T>>
  {
    match FindNode(links, s, step, num)
    case Failure(e) => Failure(e)
    case Success(node) =>
      if node == s.pseudoTail then Success(None)
      else
        match Read(links, node, step)
        case None => Failure(NullPointer)
        case Some(d) => Success(ValueOf(values, d.value, step))
  }

  /**
   * get on a well-formed list: the element at an index below the count; null at the count
   * (the tail); one past it findNode ends on null and get throws, as it does further on.
   */
  lemma GetLinked<T>(links: Links, values: Values<T>, s: Sentinels, step: int, ns: seq<Ref>, num: nat)
    requires Linked(links, values, s, step, ns)
    ensures GetAt(links, values, s, step, num) ==
      if num < |ns| then Success(Items(links, values, ns, step)[num])
      else if num == |ns| then Success(None)
      else Failure(NullPointer)
  {
    var c := ChainOf(s, ns);
    FindNodeLinked(links, values, s, step, ns, num);
    if num < |ns| {
      assert ns[num] == c[num + 1] != c[|c| - 1];
      assert Read(links, Some(c[num + 1]), step) == Some(Snapshot(links, c, step)[num + 1]);
    }
  }

  /** get(num) on the version `a`, its index counted down as a Java int. */
  method Get<T>(arena: Arena<T>, a: PersistentLinkedList, num: int) returns (r: Result<Option<T>>)
    requires -0x8000_0000 <= num < 0x8000_0000
    ensures r == GetAt(arena.links, arena.values, a.nodes.content, a.modificationCount, Countdown(num))
  {
    var node := FindNodeImpl(arena, a.nodes.content, a.modificationCount, Countdown(num));
    if node.Failure? {
      return Failure(node.error);
    }
    if node.value == a.nodes.content.pseudoTail {
      return Success(None);
    }
    var d := Read(arena.links, node.value, a.modificationCount);
    if d.None? {
      return Failure(NullPointer);
    }
    r := Success(ValueOf(arena.values, d.value.value, a.modificationCount));
  }

  /**
   * recalculateCount(step): the size of toList(step), which walks as many nodes as the
   * handle's own count says; so when it does not throw it answers that count, whatever
   * the version at `step` holds.
   */
  method RecalculateCount<T>(arena: Arena<T>, a: PersistentLinkedList, step: int) returns (r: Result<int>)
    requires 0 <= a.count
    ensures ToList(arena.links, arena.values, a.nodes.content, step, a.count).Failure? <==> r.Failure?
    ensures r.Success? ==> r.value == a.count
  {
    var xs := ToListImpl(arena, a.nodes.content, step, a.count);
    if xs.Failure? {
      return Failure(xs.error);
    }
    match First(arena.links, a.nodes.content, step) {
      case Failure(_) =>
      case Success(cur) => CollectLength(arena.links, arena.values, cur, step, a.count);
    }
    r := Success(|xs.value|);
  }

  /**
   * undo: the same handle at the start step; else the version one step back, with start
   * step 0 and the recalculated count.
   */
  method Undo<T>(arena: Arena<T>, a: PersistentLinkedList) returns (r: Result<PersistentLinkedList>)
    requires 0 <= a.count
    ensures a.modificationCount == a.startModificationCount ==> r == Success(a)
    ensures a.modificationCount != a.startModificationCount ==>
      (r.Success? <==> ToList(arena.links, arena.values, a.nodes.content, a.modificationCount - 1, a.count).Success?) &&
      (r.Success? ==> r.value == Versioned(a.nodes, a.count, a.modificationCount - 1))
  {
    if a.modificationCount == a.startModificationCount {
      return Success(a);
    }
    var n := RecalculateCount(arena, a, a.modificationCount - 1);
    if n.Failure? {
      return Failure(n.error);
    }
    r := Success(Versioned(a.nodes, n.value, a.modificationCount - 1));
  }

  /**
   * redo: the same handle when the storage counter equals its step; else the version one
   * step on, with start step 0 and the recalculated count.
   */
  method Redo<T>(arena: Arena<T>, a: PersistentLinkedList) returns (r: Result<PersistentLinkedList>)
    requires 0 <= a.count
    ensures a.modificationCount == a.nodes.maxModification.value ==> r == Success(a)
    ensures a.modificationCount != a.nodes.maxModification.value ==>
      (r.Success? <==> ToList(arena.links, arena.values, a.nodes.content, a.modificationCount + 1, a.count).Success?) &&
      (r.Success? ==> r.value == Versioned(a.nodes, a.count, a.modificationCount + 1))
  {
    if a.modificationCount == a.nodes.maxModification.value {
      return Success(a);
    }
    var n := RecalculateCount(arena, a, a.modificationCount + 1);
    if n.Failure? {
      return Failure(n.error);
    }
    r := Success(Versioned(a.nodes, n.value, a.modificationCount + 1));
  }

  // ---------------------------------------------------------------------------------------
  // Writes to a version the storage has moved past

  /**
   * The state after a rebuild: the objects of `links0` and `values0` are all below `base`
   * and still hold what they held, every record of a link node from `base` on refers only
   * to objects from `base` on, and so do the sentinels `s` of the copy.
   */
  ghost predicate OnCopy<T>(links0: Links, values0: Values<T>, links: Links, values: Values<T>, base: Ref, mc: int, s: Sentinels)
  {
    (forall x :: x in links0 ==> x < base) && (forall v :: v in values0 ==> v < base) &&
    Grown(links0, values0, links, values) && LinkedRebuild.BuiltLinks(links, base, mc) &&
    LinkedRebuild.FreshSentinels(s, base)
  }

  /** A record read from an object of the copy refers only to objects of the copy. */
  lemma ReadBuilt(links: Links, base: Ref, mc: int, r: Option<Ref>, step: int)
    requires LinkedRebuild.BuiltLinks(links, base, mc) && r.Some? && base <= r.value && Read(links, r, step).Some?
    ensures LinkedRebuild.RefsFrom(Read(links, r, step).value, base)
  {
    var k := LinkedRebuild.ReadRecord(links, r, step);
  }

  lemma GrownTrans<T>(links0: Links, values0: Values<T>, links1: Links, values1: Values<T>, links: Links, values: Values<T>)
    requires Grown(links0, values0, links1, values1) && Grown(links1, values1, links, values)
    ensures Grown(links0, values0, links, values)
  {
  }

  /** A write to an object created after `links0` leaves every object of `links0` as it was. */
  lemma GrownWrite<T>(links0: Links, values0: Values<T>, links: Links, values: Values<T>, r: Ref, k: int, d: Data)
    requires Grown(links0, values0, links, values) && r in links && r !in links0
    ensures Grown(links0, values0, Write(links, r, k, d), values)
  {
  }

  /** addFirst on a copy writes only objects of the copy and the ones it creates. */
  lemma FirstAddedOnCopy<T>(links0: Links, values0: Values<T>, links: Links, values: Values<T>, base: Ref, mc: int,
                            s: Sentinels, step: int, nr: Ref, vr: Ref, id: Id, x: History<Option<T>>)
    requires OnCopy(links0, values0, links, values, base, mc, s) && HeadAndFirst(links, s, step).Some?
    requires base <= nr && base <= vr
    ensures Grown(links0, values0, FirstAdded(links, s, step, nr, vr, id), values[vr := x])
  {
    var (hd, n, nd) := HeadAndFirst(links, s, step).value;
    ReadBuilt(links, base, mc, s.pseudoHead, step);
    var l1 := links[nr := Created(step + 1, Data(hd.next, s.pseudoHead, vr, id))];
    var l2 := Write(l1, n, step + 1, Data(nd.next, Some(nr), nd.value, nd.id));
    GrownWrite(links0, values0, l1, values[vr := x], n, step + 1, Data(nd.next, Some(nr), nd.value, nd.id));
    GrownWrite(links0, values0, l2, values[vr := x], s.pseudoHead.value, step + 1, Data(Some(nr), None, hd.value, hd.id));
  }

  /** addLast on a copy writes only objects of the copy and the ones it creates. */
  lemma LastAddedOnCopy<T>(links0: Links, values0: Values<T>, links: Links, values: Values<T>, base: Ref, mc: int,
                           s: Sentinels, step: int, nr: Ref, vr: Ref, id: Id, x: History<Option<T>>)
    requires OnCopy(links0, values0, links, values, base, mc, s) && TailAndLast(links, s, step).Some?
    requires base <= nr && base <= vr
    ensures Grown(links0, values0, LastAdded(links, s, step, nr, vr, id), values[vr := x])
  {
    var (td, p, pd) := TailAndLast(links, s, step).value;
    ReadBuilt(links, base, mc, s.pseudoTail, step);
    var l1 := links[nr := Created(step + 1, Data(s.pseudoTail, td.previous, vr, id))];
    var l2 := Write(l1, p, step + 1, Data(Some(nr), pd.previous, pd.value, pd.id));
    GrownWrite(links0, values0, l1, values[vr := x], p, step + 1, Data(Some(nr), pd.previous, pd.value, pd.id));
    GrownWrite(links0, values0, l2, values[vr := x], s.pseudoTail.value, step + 1, Data(None, Some(nr), td.value, td.id));
  }

  /** removeFirst on a copy writes only objects of the copy. */
  lemma FirstRemovedOnCopy<T>(links0: Links, values0: Values<T>, links: Links, values: Values<T>, base: Ref, mc: int,
                              s: Sentinels, step: int)
    requires OnCopy(links0, values0, links, values, base, mc, s) && HeadAndSecond(links, s, step).Some?
    ensures Grown(links0, values0, FirstRemoved(links, s, step), values)
  {
    var (hd, nn, nnd) := HeadAndSecond(links, s, step).value;
    ReadBuilt(links, base, mc, s.pseudoHead, step);
    ReadBuilt(links, base, mc, hd.next, step);
    var l1 := Write(links, nn, step + 1, Data(nnd.next, s.pseudoHead, nnd.value, nnd.id));
    GrownWrite(links0, values0, links, values, nn, step + 1, Data(nnd.next, s.pseudoHead, nnd.value, nnd.id));
    GrownWrite(links0, values0, l1, values, s.pseudoHead.value, step + 1, Data(Some(nn), None, hd.value, hd.id));
  }

  /** removeLast on a copy writes only objects of the copy. */
  lemma LastRemovedOnCopy<T>(links0: Links, values0: Values<T>, links: Links, values: Values<T>, base: Ref, mc: int,
                             s: Sentinels, step: int)
    requires OnCopy(links0, values0, links, values, base, mc, s) && TailAndSecondLast(links, s, step).Some?
    ensures Grown(links0, values0, LastRemoved(links, s, step), values)
  {
    var (td, pp, ppd) := TailAndSecondLast(links, s, step).value;
    ReadBuilt(links, base, mc, s.pseudoTail, step);
    ReadBuilt(links, base, mc, td.previous, step);
    var l1 := Write(links, pp, step + 1, Data(s.pseudoTail, ppd.previous, ppd.value, ppd.id));
    GrownWrite(links0, values0, links, values, pp, step + 1, Data(s.pseudoTail, ppd.previous, ppd.value, ppd.id));
    GrownWrite(links0, values0, l1, values, s.pseudoTail.value, step, Data(None, Some(pp), td.value, td.id));
  }

  /** The walk findNode does, on objects that were there before the arena grew, is unchanged. */
  lemma {:induction false} FollowGrown<T>(links0: Links, values0: Values<T>, nextId: Id, links: Links, values: Values<T>,
                                          cur: Option<Ref>, step: int, k: nat)
    requires forall x, j :: x in links0 && j in links0[x] ==> Closed(links0, values0, nextId, links0[x][j])
    requires Grown(links0, values0, links, values) && (cur.Some? ==> cur.value in links0)
    ensures Follow(links, cur, step, k) == Follow(links0, cur, step, k)
    ensures Follow(links0, cur, step, k).Success? && Follow(links0, cur, step, k).value.Some? ==>
      Follow(links0, cur, step, k).value.value in links0
    decreases k
  {
    if k != 0 && Read(links0, cur, step).Some? {
      ReadClosed(links0, values0, nextId, cur, step);
      FollowGrown(links0, values0, nextId, links, values, Read(links0, cur, step).value.next, step, k - 1);
    }
  }

  /** replace finds the same node and record once the arena has grown. */
  lemma LocatedGrown<T>(links0: Links, values0: Values<T>, nextId: Id, links: Links, values: Values<T>,
                        s: Sentinels, step: int, num: nat)
    requires forall x, j :: x in links0 && j in links0[x] ==> Closed(links0, values0, nextId, links0[x][j])
    requires Grown(links0, values0, links, values) && Anchored(links0, s)
    ensures Located(links, s, step, num) == Located(links0, s, step, num)
    ensures Located(links0, s, step, num).Success? ==> Located(links0, s, step, num).value.0 in links0
  {
    if Read(links0, s.pseudoHead, step).Some? {
      ReadClosed(links0, values0, nextId, s.pseudoHead, step);
      var cur := Read(links0, s.pseudoHead, step).value.next;
      FollowGrown(links0, values0, nextId, links, values, cur, step, num);
      match Follow(links0, cur, step, num)
      case Failure(_) =>
      case Success(node) =>
        if node.Some? && node.value in links0 {
          assert Read(links, node, step) == Read(links0, node, step);
        }
    }
  }

  /** clear on a copy writes only the copy's sentinels. */
  lemma ClearedOnCopy<T>(links0: Links, values0: Values<T>, links: Links, values: Values<T>, base: Ref, mc: int,
                         s: Sentinels, step: int)
    requires OnCopy(links0, values0, links, values, base, mc, s) && Anchored(links, s)
    requires Read(links, s.pseudoHead, step).Some? && Read(links, s.pseudoTail, step).Some?
    ensures Grown(links0, values0, Cleared(links, s, step), values)
  {
    var hd := Read(links, s.pseudoHead, step).value;
    var td := Read(links, s.pseudoTail, step).value;
    var l1 := Write(links, s.pseudoHead.value, step + 1, Data(s.pseudoTail, None, hd.value, hd.id));
    GrownWrite(links0, values0, links, values, s.pseudoHead.value, step + 1, Data(s.pseudoTail, None, hd.value, hd.id));
    GrownWrite(links0, values0, l1, values, s.pseudoTail.value, step + 1, Data(None, s.pseudoHead, td.value, td.id));
  }

  /**
   * reassembleNodes for a write to a version the storage has moved past: a copy whose
   * counter stands at the version's step, built from new objects only.
   */
  method Rebuild<T>(arena: Arena<T>, a: PersistentLinkedList) returns (r: Result<PersistentContent<Sentinels>>)
    requires arena.Valid() && 0 <= a.count
    modifies arena
    ensures arena.Valid() && arena.nextId == old(arena.nextId) && old(arena.nextRef) <= arena.nextRef
    ensures Grown(old(arena.links), old(arena.values), arena.links, arena.values)
    ensures r.Success? ==>
      fresh(r.value) && fresh(r.value.maxModification) && r.value.maxModification.value == a.modificationCount &&
      Anchored(arena.links, r.value.content) &&
      OnCopy(old(arena.links), old(arena.values), arena.links, arena.values, old(arena.nextRef), a.modificationCount, r.value.content)
  {
    r := LinkedRebuild.ReassembleNodes(arena, a.nodes, a.modificationCount, a.count);
  }

  /**
   * The handle a write to a version the storage has moved past returns: one step on, with
   * `count` elements and start step 0, over a fresh copy whose counter went from the
   * version's step to the next.
   */
  twostate predicate SteppedOnCopy(a: PersistentLinkedList, new r: PersistentLinkedList, count: int)
    reads r.nodes, r.nodes.maxModification
  {
    r == Versioned(r.nodes, count, a.modificationCount + 1) && fresh(r.nodes) && fresh(r.nodes.maxModification) &&
    r.nodes.maxModification.value == a.modificationCount + 1
  }

  /**
   * The handle a write returns: on the latest version, the shared storage with its counter
   * bumped once; otherwise a fresh copy, the shared storage left as it was.
   */
  twostate predicate Stepped(a: PersistentLinkedList, new r: PersistentLinkedList, count: int)
    reads a.nodes, a.nodes.maxModification, r.nodes, r.nodes.maxModification
  {
    (old(Behind(a)) ==> SteppedOnCopy(a, r, count) && unchanged(a.nodes, a.nodes.maxModification)) &&
    (!old(Behind(a)) ==>
      r == Versioned(a.nodes, count, a.modificationCount + 1) && a.nodes.content == old(a.nodes.content) &&
      a.nodes.maxModification.value == old(a.nodes.maxModification.value) + 1)
  }

  /** The private addFirst on a rebuilt copy: whatever happens, every object older than the copy is left as it was. */
  method AddFirstOnCopy<T>(arena: Arena<T>, target: PersistentContent<Sentinels>, mc: int, value: Option<T>,
                          ghost links0: Links, ghost values0: Values<T>, ghost base: Ref) returns (ok: bool)
    requires arena.Valid() && base <= arena.nextRef && OnCopy(links0, values0, arena.links, arena.values, base, mc, target.content)
    modifies arena, target, target.maxModification
    ensures arena.Valid() && Grown(links0, values0, arena.links, arena.values)
    ensures target.content == old(target.content)
    ensures ok ==> target.maxModification.value == old(target.maxModification.value) + 1
  {
    ok := AddFirstImpl(arena, target, mc, value);
    if !ok {
      GrownTrans(links0, values0, old(arena.links), old(arena.values), arena.links, arena.values);
      return;
    }
    FirstAddedOnCopy(links0, values0, old(arena.links), old(arena.values), base, mc, target.content, mc,
                     old(arena.nextRef) + 1, old(arena.nextRef), old(arena.nextId), Created(mc + 1, value));
  }

  /** addFirst on a version the storage has moved past: reassembleNodes, then the private addFirst on the copy. */
  method AddFirstToCopy<T>(arena: Arena<T>, a: PersistentLinkedList, value: Option<T>) returns (r: Result<PersistentLinkedList>)
    requires arena.Valid() && 0 <= a.count
    modifies arena
    ensures arena.Valid() && Grown(old(arena.links), old(arena.values), arena.links, arena.values)
    ensures r.Success? ==> SteppedOnCopy(a, r.value, a.count + 1)
  {
    ghost var links0, values0, base := arena.links, arena.values, arena.nextRef;
    var copy := Rebuild(arena, a);
    if copy.Failure? {
      return Failure(copy.error);
    }
    var ok := AddFirstOnCopy(arena, copy.value, a.modificationCount, value, links0, values0, base);
    if !ok {
      return Failure(NullPointer);
    }
    r := Success(Versioned(copy.value, a.count + 1, a.modificationCount + 1));
  }

  /**
   * addFirst: the private addFirst on the shared storage when the version is the latest,
   * else on a rebuilt copy, every existing object left as it was. The new handle reads at
   * step + 1 with one element more.
   */
  method AddFirst<T>(arena: Arena<T>, a: PersistentLinkedList, value: Option<T>) returns (r: Result<PersistentLinkedList>)
    requires arena.Valid() && 0 <= a.count
    modifies arena, a.nodes, a.nodes.maxModification
    ensures arena.Valid()
    ensures r.Success? ==> Stepped(a, r.value, a.count + 1)
    ensures !old(Behind(a)) ==>
      (r.Success? <==> HeadAndFirst(old(arena.links), a.nodes.content, a.modificationCount).Some?) &&
      (r.Success? ==>
        arena.links == FirstAdded(old(arena.links), a.nodes.content, a.modificationCount,
                                  old(arena.nextRef) + 1, old(arena.nextRef), old(arena.nextId)) &&
        arena.values == old(arena.values)[old(arena.nextRef) := Created(a.modificationCount + 1, value)]) &&
      (r.Failure? ==> r.error == NullPointer && a.nodes.maxModification.value == old(a.nodes.maxModification.value))
    ensures old(Behind(a)) ==>
      Grown(old(arena.links), old(arena.values), arena.links, arena.values) && unchanged(a.nodes, a.nodes.maxModification)
  {
    if a.nodes.maxModification.value > a.modificationCount {
      r := AddFirstToCopy(arena, a, value);
      return;
    }
    var ok := AddFirstImpl(arena, a.nodes, a.modificationCount, value);
    if !ok {
      return Failure(NullPointer);
    }
    r := Success(Versioned(a.nodes, a.count + 1, a.modificationCount + 1));
  }

  /** The private addLast on a rebuilt copy: whatever happens, every object older than the copy is left as it was. */
  method AddLastOnCopy<T>(arena: Arena<T>, target: PersistentContent<Sentinels>, mc: int, value: Option<T>,
                          ghost links0: Links, ghost values0: Values<T>, ghost base: Ref) returns (ok: bool)
    requires arena.Valid() && base <= arena.nextRef && OnCopy(links0, values0, arena.links, arena.values, base, mc, target.content)
    modifies arena, target, target.maxModification
    ensures arena.Valid() && Grown(links0, values0, arena.links, arena.values)
    ensures target.content == old(target.content)
    ensures ok ==> target.maxModification.value == old(target.maxModification.value) + 1
  {
    ok := AddLastImpl(arena, target, mc, value);
    if !ok {
      GrownTrans(links0, values0, old(arena.links), old(arena.values), arena.links, arena.values);
      return;
    }
    LastAddedOnCopy(links0, values0, old(arena.links), old(arena.values), base, mc, target.content, mc,
                     old(arena.nextRef) + 1, old(arena.nextRef), old(arena.nextId), Created(mc + 1, value));
  }

  /** addLast on a version the storage has moved past: reassembleNodes, then the private addLast on the copy. */
  method AddLastToCopy<T>(arena: Arena<T>, a: PersistentLinkedList, value: Option<T>) returns (r: Result<PersistentLinkedList>)
    requires arena.Valid() && 0 <= a.count
    modifies arena
    ensures arena.Valid() && Grown(old(arena.links), old(arena.values), arena.links, arena.values)
    ensures r.Success? ==> SteppedOnCopy(a, r.value, a.count + 1)
  {
    ghost var links0, values0, base := arena.links, arena.values, arena.nextRef;
    var copy := Rebuild(arena, a);
    if copy.Failure? {
      return Failure(copy.error);
    }
    var ok := AddLastOnCopy(arena, copy.value, a.modificationCount, value, links0, values0, base);
    if !ok {
      return Failure(NullPointer);
    }
    r := Success(Versioned(copy.value, a.count + 1, a.modificationCount + 1));
  }

  /**
   * addLast: the private addLast on the shared storage when the version is the latest,
   * else on a rebuilt copy, every existing object left as it was. The new handle reads at
   * step + 1 with one element more.
   */
  method AddLast<T>(arena: Arena<T>, a: PersistentLinkedList, value: Option<T>) returns (r: Result<PersistentLinkedList>)
    requires arena.Valid() && 0 <= a.count
    modifies arena, a.nodes, a.nodes.maxModification
    ensures arena.Valid()
    ensures r.Success? ==> Stepped(a, r.value, a.count + 1)
    ensures !old(Behind(a)) ==>
      (r.Success? <==> TailAndLast(old(arena.links), a.nodes.content, a.modificationCount).Some?) &&
      (r.Success? ==>
        arena.links == LastAdded(old(arena.links), a.nodes.content, a.modificationCount,
                                 old(arena.nextRef) + 1, old(arena.nextRef), old(arena.nextId)) &&
        arena.values == old(arena.values)[old(arena.nextRef) := Created(a.modificationCount + 1, value)]) &&
      (r.Failure? ==> r.error == NullPointer && a.nodes.maxModification.value == old(a.nodes.maxModification.value))
    ensures old(Behind(a)) ==>
      Grown(old(arena.links), old(arena.values), arena.links, arena.values) && unchanged(a.nodes, a.nodes.maxModification)
  {
    if a.nodes.maxModification.value > a.modificationCount {
      r := AddLastToCopy(arena, a, value);
      return;
    }
    var ok := AddLastImpl(arena, a.nodes, a.modificationCount, value);
    if !ok {
      return Failure(NullPointer);
    }
    r := Success(Versioned(a.nodes, a.count + 1, a.modificationCount + 1));
  }

  /** removeFirst on a version the storage has moved past: reassembleNodes, then the private removeFirst on the copy. */
  method RemoveFirstFromCopy<T>(arena: Arena<T>, a: PersistentLinkedList) returns (r: Result<PersistentLinkedList>)
    requires arena.Valid() && 0 <= a.count
    modifies arena
    ensures arena.Valid() && Grown(old(arena.links), old(arena.values), arena.links, arena.values)
    ensures r.Success? ==> SteppedOnCopy(a, r.value, a.count - 1)
  {
    ghost var links0, values0, base := arena.links, arena.values, arena.nextRef;
    var copy := Rebuild(arena, a);
    if copy.Failure? {
      return Failure(copy.error);
    }
    var target := copy.value;
    ghost var links1, values1 := arena.links, arena.values;
    ghost var s := target.content;
    var mc := a.modificationCount;
    assert OnCopy(links0, values0, links1, values1, base, mc, s);
    var ok := RemoveFirstImpl(arena, target, mc);
    if !ok {
      return Failure(NullPointer);
    }
    FirstRemovedOnCopy(links0, values0, links1, values1, base, mc, s, mc);
    r := Success(Versioned(target, a.count - 1, a.modificationCount + 1));
  }

  /**
   * removeFirst: an empty version is returned as it is; otherwise the private removeFirst
   * on the shared storage when the version is the latest, else on a rebuilt copy. The new
   * handle reads at step + 1 with one element less.
   */
  method RemoveFirst<T>(arena: Arena<T>, a: PersistentLinkedList) returns (r: Result<PersistentLinkedList>)
    requires arena.Valid() && 0 <= a.count
    modifies arena, a.nodes, a.nodes.maxModification
    ensures arena.Valid()
    ensures a.count == 0 ==> r == Success(a) && unchanged(arena, a.nodes, a.nodes.maxModification)
    ensures a.count != 0 && r.Success? ==> Stepped(a, r.value, a.count - 1)
    ensures a.count != 0 && !old(Behind(a)) ==>
      (r.Success? <==> HeadAndSecond(old(arena.links), a.nodes.content, a.modificationCount).Some?) &&
      (r.Success? ==>
        arena.links == FirstRemoved(old(arena.links), a.nodes.content, a.modificationCount) &&
        arena.values == old(arena.values)) &&
      (r.Failure? ==> r.error == NullPointer && unchanged(arena, a.nodes, a.nodes.maxModification))
    ensures a.count != 0 && old(Behind(a)) ==>
      Grown(old(arena.links), old(arena.values), arena.links, arena.values) && unchanged(a.nodes, a.nodes.maxModification)
  {
    if a.count == 0 {
      return Success(a);
    }
    if a.nodes.maxModification.value > a.modificationCount {
      r := RemoveFirstFromCopy(arena, a);
      return;
    }
    var ok := RemoveFirstImpl(arena, a.nodes, a.modificationCount);
    if !ok {
      return Failure(NullPointer);
    }
    r := Success(Versioned(a.nodes, a.count - 1, a.modificationCount + 1));
  }

  /** removeLast on a version the storage has moved past: reassembleNodes, then the private removeLast on the copy. */
  method RemoveLastFromCopy<T>(arena: Arena<T>, a: PersistentLinkedList) returns (r: Result<PersistentLinkedList>)
    requires arena.Valid() && 0 <= a.count
    modifies arena
    ensures arena.Valid() && Grown(old(arena.links), old(arena.values), arena.links, arena.values)
    ensures r.Success? ==> SteppedOnCopy(a, r.value, a.count - 1)
  {
    ghost var links0, values0, base := arena.links, arena.values, arena.nextRef;
    var copy := Rebuild(arena, a);
    if copy.Failure? {
      return Failure(copy.error);
    }
    var target := copy.value;
    ghost var links1, values1 := arena.links, arena.values;
    ghost var s := target.content;
    var mc := a.modificationCount;
    assert OnCopy(links0, values0, links1, values1, base, mc, s);
    var ok := RemoveLastImpl(arena, target, mc);
    if !ok {
      return Failure(NullPointer);
    }
    LastRemovedOnCopy(links0, values0, links1, values1, base, mc, s, mc);
    r := Success(Versioned(target, a.count - 1, a.modificationCount + 1));
  }

  /**
   * removeLast: an empty version is returned as it is; otherwise the private removeLast on
   * the shared storage when the version is the latest, else on a rebuilt copy. The new
   * handle reads at step + 1 with one element less.
   */
  method RemoveLast<T>(arena: Arena<T>, a: PersistentLinkedList) returns (r: Result<PersistentLinkedList>)
    requires arena.Valid() && 0 <= a.count
    modifies arena, a.nodes, a.nodes.maxModification
    ensures arena.Valid()
    ensures a.count == 0 ==> r == Success(a) && unchanged(arena, a.nodes, a.nodes.maxModification)
    ensures a.count != 0 && r.Success? ==> Stepped(a, r.value, a.count - 1)
    ensures a.count != 0 && !old(Behind(a)) ==>
      (r.Success? <==> TailAndSecondLast(old(arena.links), a.nodes.content, a.modificationCount).Some?) &&
      (r.Success? ==>
        arena.links == LastRemoved(old(arena.links), a.nodes.content, a.modificationCount) &&
        arena.values == old(arena.values)) &&
      (r.Failure? ==> r.error == NullPointer && unchanged(arena, a.nodes, a.nodes.maxModification))
    ensures a.count != 0 && old(Behind(a)) ==>
      Grown(old(arena.links), old(arena.values), arena.links, arena.values) && unchanged(a.nodes, a.nodes.maxModification)
  {
    if a.count == 0 {
      return Success(a);
    }
    if a.nodes.maxModification.value > a.modificationCount {
      r := RemoveLastFromCopy(arena, a);
      return;
    }
    var ok := RemoveLastImpl(arena, a.nodes, a.modificationCount);
    if !ok {
      return Failure(NullPointer);
    }
    r := Success(Versioned(a.nodes, a.count - 1, a.modificationCount + 1));
  }

  /** clear on a version the storage has moved past: reassembleNodes, then clear's update on the copy. */
  method ClearCopy<T>(arena: Arena<T>, a: PersistentLinkedList) returns (r: Result<PersistentLinkedList>)
    requires arena.Valid() && 0 <= a.count
    modifies arena
    ensures arena.Valid() && Grown(old(arena.links), old(arena.values), arena.links, arena.values)
    ensures r.Success? ==> SteppedOnCopy(a, r.value, 0)
  {
    ghost var links0, values0, base := arena.links, arena.values, arena.nextRef;
    var copy := Rebuild(arena, a);
    if copy.Failure? {
      return Failure(copy.error);
    }
    var target := copy.value;
    ghost var links1, values1 := arena.links, arena.values;
    ghost var s := target.content;
    var mc := a.modificationCount;
    assert OnCopy(links0, values0, links1, values1, base, mc, s);
    var ok := ClearImpl(arena, target, mc);
    if !ok {
      if Read(links1, s.pseudoHead, a.modificationCount).Some? {
        var hd := Read(links1, s.pseudoHead, a.modificationCount).value;
        GrownWrite(links0, values0, links1, values1, s.pseudoHead.value, a.modificationCount + 1,
                   Data(s.pseudoTail, None, hd.value, hd.id));
      }
      return Failure(NullPointer);
    }
    ClearedOnCopy(links0, values0, links1, values1, base, a.modificationCount, s, a.modificationCount);
    r := Success(Versioned(target, 0, a.modificationCount + 1));
  }

  /**
   * clear: an empty version is returned as it is; otherwise clear's update on the shared
   * storage when the version is the latest, else on a rebuilt copy. The new handle reads
   * at step + 1 with no elements. A null tail record throws once the head is rewritten.
   */
  method Clear<T>(arena: Arena<T>, a: PersistentLinkedList) returns (r: Result<PersistentLinkedList>)
    requires arena.Valid() && 0 <= a.count && Anchored(arena.links, a.nodes.content)
    modifies arena, a.nodes, a.nodes.maxModification
    ensures arena.Valid()
    ensures a.count == 0 ==> r == Success(a) && unchanged(arena, a.nodes, a.nodes.maxModification)
    ensures a.count != 0 && r.Success? ==> Stepped(a, r.value, 0)
    ensures a.count != 0 && !old(Behind(a)) ==>
      var s := a.nodes.content;
      (r.Success? <==> Read(old(arena.links), s.pseudoHead, a.modificationCount).Some? &&
                       Read(old(arena.links), s.pseudoTail, a.modificationCount).Some?) &&
      (r.Success? ==> arena.links == Cleared(old(arena.links), s, a.modificationCount) && arena.values == old(arena.values)) &&
      (r.Failure? ==> r.error == NullPointer && a.nodes.maxModification.value == old(a.nodes.maxModification.value))
    ensures a.count != 0 && old(Behind(a)) ==>
      Grown(old(arena.links), old(arena.values), arena.links, arena.values) && unchanged(a.nodes, a.nodes.maxModification)
  {
    if a.count == 0 {
      return Success(a);
    }
    if a.nodes.maxModification.value > a.modificationCount {
      r := ClearCopy(arena, a);
      return;
    }
    var ok := ClearImpl(arena, a.nodes, a.modificationCount);
    if !ok {
      return Failure(NullPointer);
    }
    r := Success(Versioned(a.nodes, 0, a.modificationCount + 1));
  }

  /**
   * The rounds of a Java countdown `for (i = n; i != 0; i--)` over a 32-bit int: from a
   * negative start it wraps around through Integer.MIN_VALUE.
   */
  function Countdown(n: int): nat
    requires -0x8000_0000 <= n < 0x8000_0000
  {
    if n < 0 then n + 0x1_0000_0000 else n
  }

  /**
   * replace on a version the storage has moved past: reassembleNodes, then the private
   * replace with the copy's counter, while findNode still walks the version's own storage.
   * The write therefore lands in a node of the shared storage, at step + 1, over whatever
   * a later version wrote there.
   */
  method ReplaceInCopy<T>(arena: Arena<T>, a: PersistentLinkedList, num: nat, value: Option<T>) returns (r: Result<PersistentLinkedList>)
    requires arena.Valid() && 0 <= a.count && Anchored(arena.links, a.nodes.content)
    modifies arena
    ensures arena.Valid()
    ensures r.Success? ==> SteppedOnCopy(a, r.value, a.count)
    ensures r.Success? ==>
      var step := a.modificationCount;
      var located := Located(old(arena.links), a.nodes.content, step, num);
      located.Success? &&
      var (x, d) := located.value;
      x in old(arena.links) && x in arena.links && arena.links[x] == old(arena.links)[x][step + 1 := d] &&
      d.value in old(arena.values) && d.value in arena.values && arena.values[d.value] == old(arena.values)[d.value][step + 1 := value]
  {
    ghost var links0, values0, id0 := arena.links, arena.values, arena.nextId;
    var copy := Rebuild(arena, a);
    if copy.Failure? {
      return Failure(copy.error);
    }
    var target := copy.value;
    ghost var links1, values1 := arena.links, arena.values;
    LocatedGrown(links0, values0, id0, links1, values1, a.nodes.content, a.modificationCount, num);
    var ok := ReplaceImpl(arena, a.nodes.content, target, a.modificationCount, num, value);
    if !ok {
      return Failure(NullPointer);
    }
    r := Success(Versioned(target, a.count, a.modificationCount + 1));
  }

  /**
   * replace: an index above the count returns the version as it is; otherwise findNode on
   * the version's storage locates the node, and its record and element are written at
   * step + 1, in the shared storage's counter when the version is the latest, else in a
   * rebuilt copy's.
   */
  method Replace<T>(arena: Arena<T>, a: PersistentLinkedList, num: int, value: Option<T>) returns (r: Result<PersistentLinkedList>)
    requires arena.Valid() && 0 <= a.count && Anchored(arena.links, a.nodes.content)
    requires -0x8000_0000 <= num < 0x8000_0000
    modifies arena, a.nodes, a.nodes.maxModification
    ensures arena.Valid()
    ensures num > a.count ==> r == Success(a) && unchanged(arena, a.nodes, a.nodes.maxModification)
    ensures num <= a.count && r.Success? ==> Stepped(a, r.value, a.count)
    ensures num <= a.count ==>
      var step := a.modificationCount;
      var located := Located(old(arena.links), a.nodes.content, step, Countdown(num));
      (!old(Behind(a)) ==> (r.Success? <==> located.Success?)) &&
      (r.Success? ==>
        located.Success? &&
        var (x, d) := located.value;
        x in old(arena.links) && x in arena.links && arena.links[x] == old(arena.links)[x][step + 1 := d] &&
        d.value in old(arena.values) && d.value in arena.values && arena.values[d.value] == old(arena.values)[d.value][step + 1 := value]) &&
      (r.Failure? && !old(Behind(a)) ==> r.error == NullPointer && unchanged(arena, a.nodes, a.nodes.maxModification))
    ensures num <= a.count && old(Behind(a)) ==> unchanged(a.nodes, a.nodes.maxModification)
  {
    if num > a.count {
      return Success(a);
    }
    if a.nodes.maxModification.value > a.modificationCount {
      r := ReplaceInCopy(arena, a, Countdown(num), value);
      return;
    }
    var ok := ReplaceImpl(arena, a.nodes.content, a.nodes, a.modificationCount, Countdown(num), value);
    if !ok {
      return Failure(NullPointer);
    }
    r := Success(Versioned(a.nodes, a.count, a.modificationCount + 1));
  }

  // ---------------------------------------------------------------------------------------
  // The public constructor

  /** The two sentinels the constructor builds: the empty list at step 0, settled there. */
  lemma EmptyLinked<T>(links: Links, values: Values<T>, h: Ref, t: Ref, hd: Data, td: Data)
    requires h != t && hd.value != td.value
    requires hd == Data(Some(t), None, hd.value, hd.id) && td == Data(None, Some(h), td.value, td.id)
    requires h in links && links[h] == Created(-1, Data(None, None, hd.value, hd.id))
    requires t in links && links[t] == Created(-1, Data(None, None, td.value, td.id))
    requires hd.value in values && values[hd.value] == Created(-1, None)
    requires td.value in values && values[td.value] == Created(-1, None)
    ensures var links' := Write(Write(links, h, 0, hd), t, 0, td);
      Linked(links', values, Sentinels(Some(h), Some(t)), 0, []) &&
      Settled(links', values, ChainOf(Sentinels(Some(h), Some(t)), []), 0) &&
      ToList(links', values, Sentinels(Some(h), Some(t)), 0, 0) == Success([])
  {
    var links' := Write(Write(links, h, 0, hd), t, 0, td);
    assert links'[h] == links[h][0 := hd] && links'[t] == links[t][0 := td];
    NearestLessAt(links'[h], 0, 0);
    NearestLessAt(links'[t], 0, 0);
    PairLinked(links', values, h, t, hd, td, 0);
  }

  /**
   * new PersistentLinkedList(): a head and a tail node, each created at step -1 with an
   * element node holding null, then linked to each other at step 0; the storage counter
   * starts at 0. The new version is the empty list, and nothing is written to its nodes
   * after step 0.
   */
  method NewList<T>(arena: Arena<T>) returns (a: PersistentLinkedList)
    requires arena.Valid()
    modifies arena
    ensures arena.Valid() && Grown(old(arena.links), old(arena.values), arena.links, arena.values)
    ensures a == Initial(a.nodes) && fresh(a.nodes) && fresh(a.nodes.maxModification)
    ensures a.nodes.maxModification.value == 0
    ensures Linked(arena.links, arena.values, a.nodes.content, 0, [])
    ensures Settled(arena.links, arena.values, ChainOf(a.nodes.content, []), 0)
    ensures ToList(arena.links, arena.values, a.nodes.content, 0, 0) == Success([])
  {
    ghost var links0, values0 := arena.links, arena.values;
    var headValue := arena.NewValue(-1, None);
    var headData := arena.NewData(None, None, headValue);
    var head := arena.NewNode(-1, headData);
    assert Grown(links0, values0, arena.links, arena.values);
    var tailValue := arena.NewValue(-1, None);
    var tailData := arena.NewData(None, None, tailValue);
    var tail := arena.NewNode(-1, tailData);
    ghost var links1 := arena.links;
    assert Grown(links0, values0, links1, arena.values);
    var hd := Data(Some(tail), None, headValue, headData.id);
    var td := Data(None, Some(head), tailValue, tailData.id);
    EmptyLinked(links1, arena.values, head, tail, hd, td);
    GrownWrite(links0, values0, links1, arena.values, head, 0, hd);
    GrownWrite(links0, values0, Write(links1, head, 0, hd), arena.values, tail, 0, td);
    UpdatePair(arena, head, hd, tail, td, 0);
    var counter := new ModificationCount(0);
    var nodes := new PersistentContent(Sentinels(Some(head), Some(tail)), counter);
    a := Initial(nodes);
  }
}
