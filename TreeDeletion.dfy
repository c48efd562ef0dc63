/**
 * DeleteTree of Timeline/HamTimeline.cs as functions over the id-keyed node map, and the
 * proof that it deletes exactly the nodes a deleted node leaves without a surviving parent.
 *
 * The queue holds node values: a node leaves the map when it is queued, and nothing changes
 * a node that is no longer in the map, so the value queued is the one later dequeued.
 */
module TreeDeletion {
  import opened Wrappers
  import opened Serializer
  import opened Values
  import opened Lists
  import opened Nodes
  import opened Graphs

  /** The first inner loop: each parent of `del` still in the map has the first slot holding `del` emptied. */
  function UnlinkParents(m: NodeMap, del: int32, ps: seq<int32>): (r: Outcome<NodeMap>)
    ensures SameIds(m, r.state) && r.state.Keys == m.Keys
    decreases |ps|
  {
    if |ps| == 0 then Done(m)
    else if ps[0] !in m then UnlinkParents(m, del, ps[1..])
    else
      var p := m[ps[0]];
      match SetDescendant(p, InvalidID, IndexOfDescendant(p, del))
      case None => Threw(m)
      case Some(p') => UnlinkParents(Put(m, ps[0], p'), del, ps[1..])
  }

  /** validParents: the entries of `prev` naming a node still in the map, other than `del`. */
  function LiveParents(m: NodeMap, prev: seq<int32>, del: int32): (r: nat)
    ensures r == 0 <==> forall q :: q in prev ==> q !in m || q == del
    decreases |prev|
  {
    if |prev| == 0 then 0
    else
      assert forall q :: q in prev <==> q == prev[0] || q in prev[1..] by { InConsAll(prev); }
      (if prev[0] in m && prev[0] != del then 1 else 0) + LiveParents(m, prev[1..], del)
  }

  /**
   * The second inner loop: each descendant of `del` still in the map drops `del` from its
   * parents, and one that had no live parent leaves the map and joins the queue.
   */
  function Orphan(m: NodeMap, q: seq<TimelineNode>, del: int32, ds: seq<int32>): (r: (NodeMap, seq<TimelineNode>))
    ensures r.0.Keys <= m.Keys && SameIds(m, r.0)
    ensures |r.0.Keys| + |r.1| == |m.Keys| + |q|
    decreases |ds|
  {
    if |ds| == 0 then (m, q)
    else if ds[0] !in m then Orphan(m, q, del, ds[1..])
    else
      var d := m[ds[0]];
      if LiveParents(m, d.previousNodeIDs, del) == 0 then
        var m' := m - {ds[0]};
        assert m.Keys == m'.Keys + {ds[0]};
        Orphan(m', q + [DropParent(d, del)], del, ds[1..])
      else Orphan(Put(m, ds[0], DropParent(d, del)), q, del, ds[1..])
  }

  /** The outer loop: dequeue a node, unlink it from its parents, then release its descendants. */
  function Cascade(m: NodeMap, q: seq<TimelineNode>): (r: Outcome<NodeMap>)
    ensures r.state.Keys <= m.Keys && SameIds(m, r.state)
    decreases |m.Keys| + |q|
  {
    if |q| == 0 then Done(m)
    else
      match UnlinkParents(m, q[0].id, q[0].previousNodeIDs)
      case Threw(m1) => Threw(m1)
      case Done(m1) =>
        var (m2, q2) := Orphan(m1, q[1..], q[0].id, DescendantIDs(q[0]));
        Cascade(m2, q2)
  }

  /** DeleteTree(node): the node leaves the map and is the first one queued. */
  function DeleteTree(ns: NodeMap, id: int32): (r: Outcome<NodeMap>)
    requires id in ns
    ensures r.state.Keys <= ns.Keys - {id} && SameIds(ns, r.state)
  {
    Cascade(ns - {id}, [ns[id]])
  }

  // ---------------------------------------------------------------------------
  // The loops, one step at a time

  /** A parent of `del` with the first slot holding del emptied; no other descendant goes. */
  function Unlinked(n: TimelineNode, del: int32): (r: TimelineNode)
    requires del in DescendantIDs(n)
    ensures SetDescendant(n, InvalidID, IndexOfDescendant(n, del)) == Some(r)
    ensures r.id == n.id && r.previousNodeIDs == n.previousNodeIDs && r.Type() == n.Type()
    ensures forall y :: y in DescendantIDs(r) ==> y in DescendantIDs(n)
    ensures forall y :: y in DescendantIDs(n) && y != del ==> y in DescendantIDs(r)
  {
    DescendantsAreSlots(n, del, 0);
    IndexOfDescendantFirst(n, del);
    SetThenGet(n, InvalidID, IndexOfDescendant(n, del), 0);
    ClearShrinks(n, IndexOfDescendant(n, del));
    ClearKeepsOthers(n, IndexOfDescendant(n, del), del);
    SetDescendant(n, InvalidID, IndexOfDescendant(n, del)).value
  }

  /**
   * With no parent repeated and every one still in the map holding `del`, the first inner
   * loop completes and empties one slot in each of them.
   */
  lemma {:induction false} UnlinkEffects(m: NodeMap, del: int32, ps: seq<int32>)
    requires NoDup(ps) && forall j :: 0 <= j < |ps| && ps[j] in m ==> del in DescendantIDs(m[ps[j]])
    ensures UnlinkParents(m, del, ps).Done?
    ensures UnlinkedFrom(m, UnlinkParents(m, del, ps).state, del, ps)
    decreases |ps|
  {
    if |ps| > 0 {
      NoDupCons(ps);
      assert forall j :: 0 <= j < |ps[1..]| ==> ps[1..][j] == ps[j + 1] && ps[1..][j] != ps[0];
      var m' := if ps[0] in m then Put(m, ps[0], Unlinked(m[ps[0]], del)) else m;
      UnlinkEffects(m', del, ps[1..]);
      assert UnlinkParents(m, del, ps) == UnlinkParents(m', del, ps[1..]);
      var r := UnlinkParents(m', del, ps[1..]).state;
      forall k | k in m
        ensures (k in ps && del in DescendantIDs(m[k]) && r[k] == Unlinked(m[k], del)) || (k !in ps && r[k] == m[k])
      {
        InCons(ps, k);
      }
    }
  }

  /** `m1` is `m` with the slot holding `del` emptied in exactly the nodes of `ps`. */
  predicate UnlinkedFrom(m: NodeMap, m1: NodeMap, del: int32, ps: seq<int32>)
  {
    m1.Keys == m.Keys
    && forall k :: k in m ==>
      (k in ps && del in DescendantIDs(m[k]) && m1[k] == Unlinked(m[k], del)) || (k !in ps && m1[k] == m[k])
  }

  function Ids(q: seq<TimelineNode>): (r: seq<int32>)
    ensures |r| == |q| && forall i :: 0 <= i < |q| ==> r[i] == q[i].id
  {
    seq(|q|, i requires 0 <= i < |q| => q[i].id)
  }

  /**
   * The links DeleteTree relies on: every node is stored under its ID, lists no parent
   * twice, and is among the descendants of each parent it lists.
   */
  ghost predicate Consistent(ns: NodeMap)
  {
    KeysMatch(ns)
    && (forall x :: x in ns ==> NoDup(ns[x].previousNodeIDs))
    && forall x, y :: x in ns && y in ns && y in ns[x].previousNodeIDs ==> x in DescendantIDs(ns[y])
  }

  /**
   * `o` lists the nodes taken out of the map, in order: those processed (`p`) and those
   * still queued.
   */
  ghost predicate Removed(ns: NodeMap, m: NodeMap, q: seq<TimelineNode>, o: seq<int32>, p: set<int32>)
  {
    SameIds(ns, m)
    && (forall k :: k in m <==> k in ns && k !in o)
    && NoDup(o) && (forall j :: 0 <= j < |o| ==> o[j] in ns)
    && (forall k :: k in o <==> k in p || k in Ids(q))
    && (forall k :: k in p ==> k !in Ids(q))
    && NoDup(Ids(q))
  }

  /**
   * A node in the map lists a subset of its original parents, without repeats: only the
   * processed ones are dropped, and only `del` survives among them, on a descendant of del
   * not yet released.
   */
  ghost predicate ParentsKept(ns: NodeMap, m: NodeMap, p: set<int32>, del: int32, ds: seq<int32>)
    requires SameIds(ns, m)
  {
    forall x :: x in m ==>
      NoDup(m[x].previousNodeIDs)
      && (forall y :: y in m[x].previousNodeIDs ==> y in ns[x].previousNodeIDs && (y in p ==> y == del && x in ds))
      && (forall y :: y in ns[x].previousNodeIDs ==> y in m[x].previousNodeIDs || y in p)
  }

  /** A node in the map has lost only descendants that were processed. */
  ghost predicate SlotsKept(ns: NodeMap, m: NodeMap, p: set<int32>)
    requires SameIds(ns, m)
  {
    forall x :: x in m ==>
      (forall y :: y in DescendantIDs(m[x]) ==> y in DescendantIDs(ns[x]))
      && (forall y :: y in DescendantIDs(ns[x]) && y !in p ==> y in DescendantIDs(m[x]))
  }

  /** A queued node lists a subset of its original parents and has lost only processed descendants. */
  ghost predicate Queued(ns: NodeMap, q: seq<TimelineNode>, p: set<int32>)
  {
    forall i :: 0 <= i < |q| ==> QueuedNode(ns, q[i], p)
  }

  ghost predicate QueuedNode(ns: NodeMap, n: TimelineNode, p: set<int32>)
  {
    n.id in ns && NoDup(n.previousNodeIDs)
    && (forall y :: y in n.previousNodeIDs ==> y in ns[n.id].previousNodeIDs)
    && (forall y :: y in DescendantIDs(n) ==> y in DescendantIDs(ns[n.id]))
    && (forall y :: y in DescendantIDs(ns[n.id]) && y !in p ==> y in DescendantIDs(n))
  }

  /**
   * Each node taken out after the first is a descendant of one taken out before it, and
   * every parent it had in the map was taken out before it.
   */
  ghost predicate Derivable(ns: NodeMap, o: seq<int32>, id: int32)
  {
    |o| > 0 && o[0] == id && forall k :: 0 < k < |o| ==> DerivedAfter(ns, o[..k], o[k])
  }

  /** `x` is a descendant of a node in `before`, and every parent it had in the map is in `before`. */
  ghost predicate DerivedAfter(ns: NodeMap, before: seq<int32>, x: int32)
  {
    x in ns
    && (forall y :: y in ns[x].previousNodeIDs && y in ns ==> y in before)
    && exists j :: 0 <= j < |before| && before[j] in ns && x in DescendantIDs(ns[before[j]])
  }

  /**
   * A node in the map that descends from a processed node still has an unprocessed
   * parent, unless it is among the descendants of `del` not yet released.
   */
  ghost predicate Survives(ns: NodeMap, m: NodeMap, p: set<int32>, ds: seq<int32>)
  {
    forall x, d :: x in m && x in ns && d in p && d in ns && x in DescendantIDs(ns[d]) ==>
      x in ds || exists y :: y in ns[x].previousNodeIDs && y in ns && y !in p
  }

  /** The descendants being released are those of the processed node `del`. */
  ghost predicate Releasing(ns: NodeMap, p: set<int32>, del: int32, ds: seq<int32>)
  {
    forall y :: y in ds ==> del in ns && del in p && y in DescendantIDs(ns[del])
  }

  /** The state of DeleteTree(id) between two steps of either inner loop. */
  ghost predicate Stage(ns: NodeMap, id: int32, m: NodeMap, q: seq<TimelineNode>, o: seq<int32>,
                        p: set<int32>, del: int32, ds: seq<int32>)
  {
    Consistent(ns) && Removed(ns, m, q, o, p) && ParentsKept(ns, m, p, del, ds) && SlotsKept(ns, m, p)
    && Queued(ns, q, p) && Derivable(ns, o, id) && Survives(ns, m, p, ds) && Releasing(ns, p, del, ds)
  }

  /** DeleteTree starts with the node itself out of the map and queued. */
  lemma StageStart(ns: NodeMap, id: int32)
    requires Consistent(ns) && id in ns
    ensures Stage(ns, id, ns - {id}, [ns[id]], [id], {}, id, [])
  {
    assert Ids([ns[id]]) == [id];
  }

  /**
   * Dequeuing a node: with the links consistent, unlinking it from its parents completes,
   * and the node counts as processed while its descendants are released.
   */
  lemma Dequeue(ns: NodeMap, id: int32, m: NodeMap, q: seq<TimelineNode>, o: seq<int32>, p: set<int32>, d0: int32)
    requires Stage(ns, id, m, q, o, p, d0, []) && |q| > 0
    ensures UnlinkParents(m, q[0].id, q[0].previousNodeIDs).Done?
    ensures Stage(ns, id, UnlinkParents(m, q[0].id, q[0].previousNodeIDs).state, q[1..], o,
                  p + {q[0].id}, q[0].id, DescendantIDs(q[0]))
  {
    var del, ps, ds := q[0].id, q[0].previousNodeIDs, DescendantIDs(q[0]);
    DequeueUnlinks(ns, id, m, q, o, p, d0);
    var m1 := UnlinkParents(m, del, ps).state;
    DequeueRemoved(ns, m, m1, q, o, p);
    DequeueKept(ns, id, m, m1, q, o, p, d0);
    DequeueSurvives(ns, m, m1, q, o, p);
    assert Releasing(ns, p + {del}, del, ds);
    assert Queued(ns, q[1..], p + {del}) by {
      forall i | 0 <= i < |q[1..]| ensures q[1..][i] == q[i + 1] { }
    }
  }

  lemma DequeueUnlinks(ns: NodeMap, id: int32, m: NodeMap, q: seq<TimelineNode>, o: seq<int32>, p: set<int32>, d0: int32)
    requires Stage(ns, id, m, q, o, p, d0, []) && |q| > 0
    ensures UnlinkParents(m, q[0].id, q[0].previousNodeIDs).Done?
    ensures UnlinkedFrom(m, UnlinkParents(m, q[0].id, q[0].previousNodeIDs).state, q[0].id, q[0].previousNodeIDs)
  {
    var del, ps := q[0].id, q[0].previousNodeIDs;
    assert Ids(q)[0] == del;
    assert del in ns && del !in p;
    forall j | 0 <= j < |ps| && ps[j] in m ensures del in DescendantIDs(m[ps[j]]) {
      assert ps[j] in ns[del].previousNodeIDs;
      assert del in DescendantIDs(ns[ps[j]]);
    }
    UnlinkEffects(m, del, ps);
  }

  lemma DequeueRemoved(ns: NodeMap, m: NodeMap, m1: NodeMap, q: seq<TimelineNode>, o: seq<int32>, p: set<int32>)
    requires Removed(ns, m, q, o, p) && |q| > 0 && SameIds(m, m1) && m1.Keys == m.Keys
    ensures Removed(ns, m1, q[1..], o, p + {q[0].id})
  {
    assert Ids(q[1..]) == Ids(q)[1..];
    NoDupCons(Ids(q));
    InConsAll(Ids(q));
  }

  lemma DequeueKept(ns: NodeMap, id: int32, m: NodeMap, m1: NodeMap, q: seq<TimelineNode>, o: seq<int32>, p: set<int32>, d0: int32)
    requires Stage(ns, id, m, q, o, p, d0, []) && |q| > 0
    requires SameIds(m, m1) && UnlinkedFrom(m, m1, q[0].id, q[0].previousNodeIDs)
    ensures SameIds(ns, m1)
    ensures ParentsKept(ns, m1, p + {q[0].id}, q[0].id, DescendantIDs(q[0]))
    ensures SlotsKept(ns, m1, p + {q[0].id})
  {
    var del := q[0].id;
    assert Ids(q)[0] == del;
    assert del in ns && del !in p;
    forall x | x in m1
      ensures NoDup(m1[x].previousNodeIDs)
      ensures forall y :: y in m1[x].previousNodeIDs ==> y in ns[x].previousNodeIDs && (y in p + {del} ==> y == del && x in DescendantIDs(q[0]))
      ensures forall y :: y in ns[x].previousNodeIDs ==> y in m1[x].previousNodeIDs || y in p + {del}
      ensures forall y :: y in DescendantIDs(m1[x]) ==> y in DescendantIDs(ns[x])
      ensures forall y :: y in DescendantIDs(ns[x]) && y !in p + {del} ==> y in DescendantIDs(m1[x])
    {
      DequeueNode(ns, m, m1[x], q[0], p, x);
    }
  }

  /** One node through the unlinking: its parents stay, and it loses at most the slot of `del`. */
  lemma DequeueNode(ns: NodeMap, m: NodeMap, n: TimelineNode, dq: TimelineNode, p: set<int32>, x: int32)
    requires Consistent(ns) && SameIds(ns, m) && x in m && dq.id in ns && dq.id !in p
    requires NoDup(m[x].previousNodeIDs)
    requires forall y :: y in m[x].previousNodeIDs ==> y in ns[x].previousNodeIDs && y !in p
    requires forall y :: y in ns[x].previousNodeIDs ==> y in m[x].previousNodeIDs || y in p
    requires forall y :: y in DescendantIDs(m[x]) ==> y in DescendantIDs(ns[x])
    requires forall y :: y in DescendantIDs(ns[x]) && y !in p ==> y in DescendantIDs(m[x])
    requires x !in p
    requires forall y :: y in DescendantIDs(ns[dq.id]) && y !in p ==> y in DescendantIDs(dq)
    requires (x in dq.previousNodeIDs && dq.id in DescendantIDs(m[x]) && n == Unlinked(m[x], dq.id))
          || (x !in dq.previousNodeIDs && n == m[x])
    ensures NoDup(n.previousNodeIDs)
    ensures forall y :: y in n.previousNodeIDs ==> y in ns[x].previousNodeIDs && (y in p + {dq.id} ==> y == dq.id && x in DescendantIDs(dq))
    ensures forall y :: y in ns[x].previousNodeIDs ==> y in n.previousNodeIDs || y in p + {dq.id}
    ensures forall y :: y in DescendantIDs(n) ==> y in DescendantIDs(ns[x])
    ensures forall y :: y in DescendantIDs(ns[x]) && y !in p + {dq.id} ==> y in DescendantIDs(n)
  {
    if dq.id in m[x].previousNodeIDs {
      assert x in DescendantIDs(ns[dq.id]);
    }
  }

  lemma DequeueSurvives(ns: NodeMap, m: NodeMap, m1: NodeMap, q: seq<TimelineNode>, o: seq<int32>, p: set<int32>)
    requires Consistent(ns) && Removed(ns, m, q, o, p) && Queued(ns, q, p) && Survives(ns, m, p, [])
    requires |q| > 0 && m1.Keys == m.Keys
    ensures Survives(ns, m1, p + {q[0].id}, DescendantIDs(q[0]))
  {
    forall x, d | x in m1 && x in ns && d in p + {q[0].id} && d in ns && x in DescendantIDs(ns[d])
      ensures x in DescendantIDs(q[0]) || exists y :: y in ns[x].previousNodeIDs && y in ns && y !in p + {q[0].id}
    {
      PairFacts(ns, m, q, o, p, x, d);
      SurvivesPair(ns, p, q[0], x, d);
    }
  }

  lemma PairFacts(ns: NodeMap, m: NodeMap, q: seq<TimelineNode>, o: seq<int32>, p: set<int32>, x: int32, d: int32)
    requires Removed(ns, m, q, o, p) && Queued(ns, q, p) && Survives(ns, m, p, [])
    requires |q| > 0 && x in m && d in ns && x in DescendantIDs(ns[d])
    ensures x in ns && x !in p && q[0].id in ns && q[0].id !in p
    ensures d in p ==> exists y :: y in ns[x].previousNodeIDs && y in ns && y !in p
    ensures forall y :: y in DescendantIDs(ns[q[0].id]) && y !in p ==> y in DescendantIDs(q[0])
  {
    assert Ids(q)[0] == q[0].id;
  }

  /** A node under a processed node, or under the one dequeued, is released now or keeps a parent. */
  lemma SurvivesPair(ns: NodeMap, p: set<int32>, dq: TimelineNode, x: int32, d: int32)
    requires Consistent(ns) && x in ns && x !in p && dq.id in ns && dq.id !in p && d in ns
    requires d in p + {dq.id} && x in DescendantIDs(ns[d])
    requires d in p ==> exists y :: y in ns[x].previousNodeIDs && y in ns && y !in p
    requires forall y :: y in DescendantIDs(ns[dq.id]) && y !in p ==> y in DescendantIDs(dq)
    ensures x in DescendantIDs(dq) || exists y :: y in ns[x].previousNodeIDs && y in ns && y !in p + {dq.id}
  {
    if d == dq.id || dq.id in ns[x].previousNodeIDs {
      assert x in DescendantIDs(ns[dq.id]);
    } else {
      var y :| y in ns[x].previousNodeIDs && y in ns && y !in p;
      assert y != dq.id;
    }
  }

  /** A released id that is not in the map is skipped. */
  lemma ReleaseSkip(ns: NodeMap, id: int32, m: NodeMap, q: seq<TimelineNode>, o: seq<int32>, p: set<int32>, del: int32, ds: seq<int32>)
    requires Stage(ns, id, m, q, o, p, del, ds) && |ds| > 0 && ds[0] !in m
    ensures Stage(ns, id, m, q, o, p, del, ds[1..])
  {
    InConsAll(ds);
  }

  /** A released node with a live parent stays, without `del` among its parents. */
  lemma ReleaseKeep(ns: NodeMap, id: int32, m: NodeMap, q: seq<TimelineNode>, o: seq<int32>, p: set<int32>, del: int32, ds: seq<int32>)
    requires Stage(ns, id, m, q, o, p, del, ds) && |ds| > 0 && ds[0] in m
    requires LiveParents(m, m[ds[0]].previousNodeIDs, del) != 0
    ensures Stage(ns, id, Put(m, ds[0], DropParent(m[ds[0]], del)), q, o, p, del, ds[1..])
  {
    var m' := Put(m, ds[0], DropParent(m[ds[0]], del));
    assert del in p by { assert ds[0] in ds; }
    ReleaseKeepParents(ns, m, p, del, ds);
    ReleaseKeepSurvives(ns, m, q, o, p, del, ds);
    assert Removed(ns, m', q, o, p);
    SlotsKeptPut(ns, m, p, ds[0], DropParent(m[ds[0]], del));
    assert Releasing(ns, p, del, ds[1..]);
  }

  /** Storing back a node with the same descendants keeps SlotsKept. */
  lemma SlotsKeptPut(ns: NodeMap, m: NodeMap, p: set<int32>, k: int32, n: TimelineNode)
    requires SameIds(ns, m) && SlotsKept(ns, m, p) && k in m && n.id == m[k].id && DescendantIDs(n) == DescendantIDs(m[k])
    ensures SameIds(ns, Put(m, k, n)) && SlotsKept(ns, Put(m, k, n), p)
  {
    var m' := Put(m, k, n);
    forall x | x in m'
      ensures (forall y :: y in DescendantIDs(m'[x]) ==> y in DescendantIDs(ns[x]))
      ensures (forall y :: y in DescendantIDs(ns[x]) && y !in p ==> y in DescendantIDs(m'[x]))
    {
      assert DescendantIDs(m'[x]) == DescendantIDs(m[x]);
    }
  }

  lemma ReleaseKeepParents(ns: NodeMap, m: NodeMap, p: set<int32>, del: int32, ds: seq<int32>)
    requires SameIds(ns, m) && ParentsKept(ns, m, p, del, ds) && del in p && |ds| > 0 && ds[0] in m
    ensures SameIds(ns, Put(m, ds[0], DropParent(m[ds[0]], del)))
    ensures ParentsKept(ns, Put(m, ds[0], DropParent(m[ds[0]], del)), p, del, ds[1..])
  {
    var y := ds[0];
    var m' := Put(m, y, DropParent(m[y], del));
    forall x | x in m'
      ensures NoDup(m'[x].previousNodeIDs)
      ensures forall z :: z in m'[x].previousNodeIDs ==> z in ns[x].previousNodeIDs && (z in p ==> z == del && x in ds[1..])
      ensures forall z :: z in ns[x].previousNodeIDs ==> z in m'[x].previousNodeIDs || z in p
    {
      if x == y {
        DropDel(ns[y].previousNodeIDs, m[y].previousNodeIDs, p, del);
      } else {
        assert m'[x] == m[x];
        InCons(ds, x);
      }
    }
  }

  /** Dropping `del` from a parent list in which del is the only processed entry leaves none. */
  lemma DropDel(orig: seq<int32>, cur: seq<int32>, p: set<int32>, del: int32)
    requires NoDup(cur) && del in p
    requires forall z :: z in cur ==> z in orig && (z in p ==> z == del)
    requires forall z :: z in orig ==> z in cur || z in p
    ensures NoDup(RemoveFirst(cur, del))
    ensures forall z :: z in RemoveFirst(cur, del) ==> z in orig && z !in p
    ensures forall z :: z in orig ==> z in RemoveFirst(cur, del) || z in p
  {
    RemoveFirstNoDup(cur, del);
  }

  lemma ReleaseKeepSurvives(ns: NodeMap, m: NodeMap, q: seq<TimelineNode>, o: seq<int32>, p: set<int32>, del: int32, ds: seq<int32>)
    requires Removed(ns, m, q, o, p) && ParentsKept(ns, m, p, del, ds) && Survives(ns, m, p, ds)
    requires |ds| > 0 && ds[0] in m && LiveParents(m, m[ds[0]].previousNodeIDs, del) != 0
    ensures Survives(ns, Put(m, ds[0], DropParent(m[ds[0]], del)), p, ds[1..])
  {
    var y := ds[0];
    var m' := Put(m, y, DropParent(m[y], del));
    var z :| z in m[y].previousNodeIDs && z in m && z != del;
    assert z in ns[y].previousNodeIDs && z in ns && z !in p;
    forall x, d | x in m' && x in ns && d in p && d in ns && x in DescendantIDs(ns[d])
      ensures x in ds[1..] || exists y :: y in ns[x].previousNodeIDs && y in ns && y !in p
    {
      if x != y {
        InCons(ds, x);
      }
    }
  }

  /** A released node with no live parent leaves the map and joins the queue. */
  lemma ReleaseOrphan(ns: NodeMap, id: int32, m: NodeMap, q: seq<TimelineNode>, o: seq<int32>, p: set<int32>, del: int32, ds: seq<int32>)
    requires Stage(ns, id, m, q, o, p, del, ds) && |ds| > 0 && ds[0] in m
    requires LiveParents(m, m[ds[0]].previousNodeIDs, del) == 0
    ensures Stage(ns, id, m - {ds[0]}, q + [DropParent(m[ds[0]], del)], o + [ds[0]], p, del, ds[1..])
  {
    var y := ds[0];
    var n := DropParent(m[y], del);
    assert del in p && y in ns by { assert ds[0] in ds; }
    ReleaseOrphanRemoved(ns, m, q, o, p, y, n);
    ReleaseOrphanKept(ns, m, p, del, ds);
    ReleaseOrphanQueued(ns, m, q, p, del, ds, y);
    ReleaseOrphanParents(ns, m, q, o, p, del, ds, y);
    var j :| 0 <= j < |o| && o[j] == del;
    DerivableGrow(ns, o, id, y, j);
  }

  lemma ReleaseOrphanKept(ns: NodeMap, m: NodeMap, p: set<int32>, del: int32, ds: seq<int32>)
    requires SameIds(ns, m) && ParentsKept(ns, m, p, del, ds) && SlotsKept(ns, m, p) && Survives(ns, m, p, ds)
    requires Releasing(ns, p, del, ds) && |ds| > 0 && ds[0] in m
    ensures SameIds(ns, m - {ds[0]})
    ensures ParentsKept(ns, m - {ds[0]}, p, del, ds[1..]) && SlotsKept(ns, m - {ds[0]}, p)
    ensures Survives(ns, m - {ds[0]}, p, ds[1..]) && Releasing(ns, p, del, ds[1..])
  {
    InConsAll(ds);
  }

  lemma ReleaseOrphanQueued(ns: NodeMap, m: NodeMap, q: seq<TimelineNode>, p: set<int32>, del: int32, ds: seq<int32>, y: int32)
    requires Consistent(ns) && SameIds(ns, m) && ParentsKept(ns, m, p, del, ds) && SlotsKept(ns, m, p)
    requires Queued(ns, q, p) && y in m && del in p
    ensures Queued(ns, q + [DropParent(m[y], del)], p)
  {
    var n := DropParent(m[y], del);
    DropDel(ns[y].previousNodeIDs, m[y].previousNodeIDs, p, del);
    assert QueuedNode(ns, n, p);
    forall i | 0 <= i < |q| + 1 ensures QueuedNode(ns, (q + [n])[i], p) {
      if i < |q| {
        assert (q + [n])[i] == q[i];
      }
    }
  }

  /** Every parent a node with no live parent had in the map has been taken out. */
  lemma ReleaseOrphanParents(ns: NodeMap, m: NodeMap, q: seq<TimelineNode>, o: seq<int32>, p: set<int32>, del: int32, ds: seq<int32>, y: int32)
    requires Removed(ns, m, q, o, p) && ParentsKept(ns, m, p, del, ds) && y in m && del in p
    requires LiveParents(m, m[y].previousNodeIDs, del) == 0
    ensures forall z :: z in ns[y].previousNodeIDs && z in ns ==> z in o
  {
  }

  lemma ReleaseOrphanRemoved(ns: NodeMap, m: NodeMap, q: seq<TimelineNode>, o: seq<int32>, p: set<int32>, y: int32, n: TimelineNode)
    requires Removed(ns, m, q, o, p) && y in m && n.id == y
    ensures Removed(ns, m - {y}, q + [n], o + [y], p)
  {
    assert Ids(q + [n]) == Ids(q) + [y];
    assert y !in o && y !in Ids(q);
    NoDupSnoc(o, y);
    NoDupSnoc(Ids(q), y);
  }

  /** A node whose parents in the map were all taken out, under one taken out, can follow them. */
  lemma DerivableGrow(ns: NodeMap, o: seq<int32>, id: int32, y: int32, j: int)
    requires Derivable(ns, o, id) && y in ns
    requires forall z :: z in ns[y].previousNodeIDs && z in ns ==> z in o
    requires 0 <= j < |o| && o[j] in ns && y in DescendantIDs(ns[o[j]])
    ensures Derivable(ns, o + [y], id)
  {
    var o' := o + [y];
    assert DerivedAfter(ns, o, y);
    forall k | 0 < k < |o'|
      ensures DerivedAfter(ns, o'[..k], o'[k])
    {
      if k < |o| {
        assert o'[..k] == o[..k] && o'[k] == o[k];
      } else {
        assert o'[..k] == o;
      }
    }
  }

  /** The second inner loop keeps the invariant through to its end. */
  lemma {:induction false} ReleaseAll(ns: NodeMap, id: int32, m: NodeMap, q: seq<TimelineNode>, o: seq<int32>,
                                      p: set<int32>, del: int32, ds: seq<int32>) returns (o': seq<int32>)
    requires Stage(ns, id, m, q, o, p, del, ds)
    ensures Stage(ns, id, Orphan(m, q, del, ds).0, Orphan(m, q, del, ds).1, o', p, del, [])
    decreases |ds|
  {
    if |ds| == 0 {
      o' := o;
    } else if ds[0] !in m {
      ReleaseSkip(ns, id, m, q, o, p, del, ds);
      o' := ReleaseAll(ns, id, m, q, o, p, del, ds[1..]);
    } else if LiveParents(m, m[ds[0]].previousNodeIDs, del) == 0 {
      ReleaseOrphan(ns, id, m, q, o, p, del, ds);
      o' := ReleaseAll(ns, id, m - {ds[0]}, q + [DropParent(m[ds[0]], del)], o + [ds[0]], p, del, ds[1..]);
    } else {
      ReleaseKeep(ns, id, m, q, o, p, del, ds);
      o' := ReleaseAll(ns, id, Put(m, ds[0], DropParent(m[ds[0]], del)), q, o, p, del, ds[1..]);
    }
  }

  /** The outer loop keeps the invariant, never throws, and ends with the queue empty. */
  lemma {:induction false} CascadeRun(ns: NodeMap, id: int32, m: NodeMap, q: seq<TimelineNode>, o: seq<int32>,
                                      p: set<int32>, d0: int32)
    returns (mf: NodeMap, o': seq<int32>, p': set<int32>, d': int32)
    requires Stage(ns, id, m, q, o, p, d0, [])
    ensures Cascade(m, q) == Done(mf) && Stage(ns, id, mf, [], o', p', d', [])
    decreases |m.Keys| + |q|
  {
    if |q| == 0 {
      return m, o, p, d0;
    }
    var del, ds := q[0].id, DescendantIDs(q[0]);
    Dequeue(ns, id, m, q, o, p, d0);
    var m1 := UnlinkParents(m, del, q[0].previousNodeIDs).state;
    var o2 := ReleaseAll(ns, id, m1, q[1..], o, p + {del}, del, ds);
    var r := Orphan(m1, q[1..], del, ds);
    assert Cascade(m, q) == Cascade(r.0, r.1);
    mf, o', p', d' := CascadeRun(ns, id, r.0, r.1, o2, p + {del}, del);
  }

  // ---------------------------------------------------------------------------
  // What DeleteTree deletes

  /**
   * `s` is closed under losing the last parent: a node under a member of `s` whose parents
   * (those that are nodes) are all in `s` is in `s` too.
   */
  ghost predicate Forced(ns: NodeMap, s: set<int32>)
  {
    forall x, d ::
      (d in s && d in ns && x in ns && x in DescendantIDs(ns[d])
       && forall y :: y in ns[x].previousNodeIDs && y in ns ==> y in s) ==> x in s
  }

  /**
   * With consistent links, DeleteTree(id) completes, and the nodes it deletes are the node
   * itself and a set closed under losing the last parent (the least one: DeleteTreeLeast).
   * Each survivor has lost exactly the deleted nodes from its parents, and may have lost
   * descendants only among the deleted nodes.
   */
  lemma DeleteTreeDeletes(ns: NodeMap, id: int32)
    requires Consistent(ns) && id in ns
    ensures DeleteTree(ns, id).Done?
    ensures var r := DeleteTree(ns, id).state;
      id !in r && Forced(ns, ns.Keys - r.Keys)
    ensures var r := DeleteTree(ns, id).state;
      forall x, y :: x in r ==>
        (y in r[x].previousNodeIDs <==> y in ns[x].previousNodeIDs && (y in r || y !in ns))
    ensures var r := DeleteTree(ns, id).state;
      forall x, y :: x in r && y in DescendantIDs(r[x]) ==> y in DescendantIDs(ns[x])
    ensures var r := DeleteTree(ns, id).state;
      forall x, y :: x in r && y in DescendantIDs(ns[x]) && (y in r || y !in ns) ==> y in DescendantIDs(r[x])
  {
    StageStart(ns, id);
    var r, o, p, d := CascadeRun(ns, id, ns - {id}, [ns[id]], [id], {}, id);
    assert forall k :: k in o <==> k in p;
    forall x, d | x in r && x in ns && d in p && d in ns && x in DescendantIDs(ns[d])
      ensures exists y :: y in ns[x].previousNodeIDs && y in r
    {
      var y :| y in ns[x].previousNodeIDs && y in ns && y !in p;
      assert y in r;
    }
  }

  /** Every node DeleteTree(id) deletes belongs to any set that holds id and is closed under losing the last parent. */
  lemma DeleteTreeLeast(ns: NodeMap, id: int32, s: set<int32>)
    requires Consistent(ns) && id in ns && id in s && Forced(ns, s)
    ensures DeleteTree(ns, id).Done?
    ensures forall k :: k in ns && k !in DeleteTree(ns, id).state ==> k in s
  {
    StageStart(ns, id);
    var r, o, p, d := CascadeRun(ns, id, ns - {id}, [ns[id]], [id], {}, id);
    DerivedIn(ns, o, id, s, |o|);
  }

  /** Each node taken out, in order, joins any such set once all before it have. */
  lemma {:induction false} DerivedIn(ns: NodeMap, o: seq<int32>, id: int32, s: set<int32>, n: int)
    requires Derivable(ns, o, id) && id in s && Forced(ns, s) && 0 <= n <= |o|
    ensures forall i :: 0 <= i < n ==> o[i] in s
    decreases n
  {
    if n > 1 {
      DerivedIn(ns, o, id, s, n - 1);
      var k := n - 1;
      assert DerivedAfter(ns, o[..k], o[k]);
      var j :| 0 <= j < k && o[..k][j] in ns && o[k] in DescendantIDs(ns[o[..k][j]]);
      assert o[..k][j] == o[j];
      PrefixIn(o, s, k);
      ForcedStep(ns, s, o[k], o[j], o[..k]);
    }
  }

  lemma PrefixIn(o: seq<int32>, s: set<int32>, k: int)
    requires 0 <= k <= |o| && forall i :: 0 <= i < k ==> o[i] in s
    ensures forall y :: y in o[..k] ==> y in s
  {
    forall y | y in o[..k] ensures y in s {
      var i :| 0 <= i < k && o[..k][i] == y;
      assert o[i] == y;
    }
  }

  lemma ForcedStep(ns: NodeMap, s: set<int32>, x: int32, d: int32, before: seq<int32>)
    requires Forced(ns, s) && d in s && d in ns && x in ns && x in DescendantIDs(ns[d])
    requires forall y :: y in ns[x].previousNodeIDs && y in ns ==> y in before
    requires forall y :: y in before ==> y in s
    ensures x in s
  {
  }
}
