/**
 * The graph edits of Timeline/HamTimeline.cs as functions over the id-keyed node map.
 *
 * A timeline reaches every node object through Nodes[id], and HamTimeline stores each
 * node under its own ID (the `Add*` methods and Unpack insert `Nodes[node.ID] = node`), so
 * a node object is modelled as the map entry under its id, and every in-place change to
 * a node is a new value stored back under the same key. Each step of an edit reads the
 * map as the previous step left it, which is how the object aliasing of the source (a
 * parent that is also a child, a node that is its own former child) is modelled.
 *
 * An edit that throws half-way leaves behind what its earlier steps did: the `Outcome`
 * of an edit holds the state it finished in, or the state at the step that threw.
 */
module Graphs {
  import opened Wrappers
  import opened Serializer
  import opened Values
  import opened Lists
  import opened Nodes

  type NodeMap = map<int32, TimelineNode>

  datatype Outcome<S> = Done(state: S) | Threw(state: S)

  /** Every node is stored under its own ID. */
  predicate KeysMatch(ns: NodeMap)
  {
    forall k :: k in ns ==> ns[k].id == k
  }

  /** `ns'` keeps some of the keys of `ns`, and every node it keeps has its ID. */
  predicate SameIds(ns: NodeMap, ns': NodeMap)
  {
    ns'.Keys <= ns.Keys && forall k :: k in ns' ==> ns'[k].id == ns[k].id
  }

  lemma SameIdsKeepKeysMatch(ns: NodeMap, ns': NodeMap)
    requires KeysMatch(ns) && SameIds(ns, ns')
    ensures KeysMatch(ns')
  {
  }

  /** Stores a changed node back under its key. */
  function Put(ns: NodeMap, k: int32, n: TimelineNode): (r: NodeMap)
    requires k in ns && n.id == ns[k].id
    ensures SameIds(ns, r) && r.Keys == ns.Keys && r[k] == n
    ensures forall j :: j in ns && j != k ==> r[j] == ns[j]
  {
    ns[k := n]
  }

  /** `n` with the parent list `prev`. */
  function WithParents(n: TimelineNode, prev: Many<int32>): (r: TimelineNode)
    ensures r.id == n.id && r.Type() == n.Type() && r.previousNodeIDs == prev
    ensures forall j :: GetDescendant(r, j) == GetDescendant(n, j)
    ensures DescendantIDs(r) == DescendantIDs(n) && FreeDescendantSlot(r) == FreeDescendantSlot(n)
  {
    n.(previousNodeIDs := prev)
  }

  /** PreviousNodeIDs.Remove(id). */
  function DropParent(n: TimelineNode, id: int32): (r: TimelineNode)
    ensures r.id == n.id && r.Type() == n.Type() && r.previousNodeIDs == RemoveFirst(n.previousNodeIDs, id)
    ensures forall j :: GetDescendant(r, j) == GetDescendant(n, j)
    ensures DescendantIDs(r) == DescendantIDs(n) && FreeDescendantSlot(r) == FreeDescendantSlot(n)
    ensures forall d :: IndexOfDescendant(r, d) == IndexOfDescendant(n, d)
  {
    n.(previousNodeIDs := RemoveFirst(n.previousNodeIDs, id))
  }

  // ---------------------------------------------------------------------------
  // LinkNodes

  /**
   * LinkNodes(parent, child, i): a child already in slot i is moved under the new child
   * (into the new child's free slot), then slot i gets the new child and the new child
   * gets the parent.
   */
  function Link(ns: NodeMap, p: int32, c: int32, i: int): (r: Outcome<NodeMap>)
    requires p in ns && c in ns
    ensures SameIds(ns, r.state) && r.state.Keys == ns.Keys
  {
    match GetDescendant(ns[p], i)
    case None => Threw(ns)
    case Some(former) =>
      if former == InvalidID then Attach(ns, p, c, i)
      else if former !in ns then Threw(ns)
      else
        match Rehome(ns, p, c, former)
        case Threw(ns1) => Threw(ns1)
        case Done(ns1) => Attach(ns1, p, c, i)
  }

  /** The former child leaves the parent and moves into the new child's free slot. */
  function Rehome(ns: NodeMap, p: int32, c: int32, former: int32): (r: Outcome<NodeMap>)
    requires c in ns && former in ns
    ensures SameIds(ns, r.state) && r.state.Keys == ns.Keys
  {
    var ns1 := Put(ns, former, DropParent(ns[former], p));
    match SetDescendant(ns1[c], former, FreeDescendantSlot(ns1[c]))
    case None => Threw(ns1)
    case Some(child) =>
      var ns2 := Put(ns1, c, child);
      match Push(ns2[former].previousNodeIDs, c)
      case None => Threw(ns2)
      case Some(prev) => Done(Put(ns2, former, WithParents(ns2[former], prev)))
  }

  /** The last two steps of LinkNodes: slot i of the parent gets the child, and the child gets the parent. */
  function Attach(ns: NodeMap, p: int32, c: int32, i: int): (r: Outcome<NodeMap>)
    requires p in ns && c in ns
    ensures SameIds(ns, r.state) && r.state.Keys == ns.Keys
  {
    match SetDescendant(ns[p], c, i)
    case None => Threw(ns)
    case Some(parent) =>
      var ns1 := Put(ns, p, parent);
      match Push(ns1[c].previousNodeIDs, p)
      case None => Threw(ns1)
      case Some(prev) => Done(Put(ns1, c, WithParents(ns1[c], prev)))
  }

  /** CanLinkCleanly(parent, child, i); reading a slot the parent does not have throws. */
  function CanLinkCleanly(parent: TimelineNode, child: TimelineNode, i: int): Option<bool>
  {
    match GetDescendant(parent, i)
    case None => None
    case Some(former) => Some(former == InvalidID || FreeDescendantSlot(child) != -1)
  }

  /** The last two steps succeed exactly when the child's parent list can grow. */
  lemma AttachSucceeds(ns: NodeMap, p: int32, c: int32, i: int)
    requires p in ns && c in ns && InRange(ns[p], i)
    ensures Attach(ns, p, c, i).Done? <==> |ns[c].previousNodeIDs| < MaxInt32
  {
    SetThenGet(ns[p], c, i, i);
  }

  /**
   * After the last two steps slot i of the parent holds the child and the child has the
   * parent appended to its parents; the parent keeps its other slots, and no other node changes.
   */
  lemma AttachEffects(ns: NodeMap, p: int32, c: int32, i: int, r: NodeMap)
    requires p in ns && c in ns && InRange(ns[p], i) && Attach(ns, p, c, i) == Done(r)
    ensures GetDescendant(r[p], i) == Some(c)
    ensures r[c].previousNodeIDs == ns[c].previousNodeIDs + [p]
    ensures p != c ==> r[p].previousNodeIDs == ns[p].previousNodeIDs
    ensures p != c ==> DescendantIDs(r[c]) == DescendantIDs(ns[c])
    ensures p != c ==> forall j :: GetDescendant(r[c], j) == GetDescendant(ns[c], j)
    ensures p != c && !ns[p].SingleSlot() ==>
      forall j :: j != i ==> GetDescendant(r[p], j) == GetDescendant(ns[p], j)
    ensures forall k :: k in ns && k != p && k != c ==> r[k] == ns[k]
  {
    forall j {
      SetThenGet(ns[p], c, i, j);
    }
  }

  /** Moving the former child succeeds whenever the child's and the former child's lists can grow. */
  lemma RehomeSucceeds(ns: NodeMap, p: int32, c: int32, former: int32)
    requires c in ns && former in ns && c != former
    requires Roomy(ns[c]) && Roomy(ns[former])
    ensures Rehome(ns, p, c, former).Done?
  {
    assert SetDescendant(ns[c], former, FreeDescendantSlot(ns[c])).Some? by {
      FreeSlotIsFree(ns[c]);
      SetSucceeds(ns[c], former, FreeDescendantSlot(ns[c]));
    }
    RehomeSteps(ns, p, c, former);
  }

  /** Rehome completes when the child takes the former child and the former child's list can grow. */
  lemma RehomeSteps(ns: NodeMap, p: int32, c: int32, former: int32)
    requires c in ns && former in ns && c != former
    requires SetDescendant(ns[c], former, FreeDescendantSlot(ns[c])).Some?
    requires |ns[former].previousNodeIDs| < MaxInt32
    ensures Rehome(ns, p, c, former).Done?
  {
    var ns1 := Put(ns, former, DropParent(ns[former], p));
    assert ns1[c] == ns[c];
    var child := SetDescendant(ns[c], former, FreeDescendantSlot(ns[c])).value;
    var ns2 := Put(ns1, c, child);
    assert ns2[former] == DropParent(ns[former], p);
    assert Push(ns2[former].previousNodeIDs, c).Some?;
  }

  /**
   * Moving the former child, with parent, child and former child distinct: the former
   * child trades the parent for the child among its parents, and becomes a descendant of
   * the child, in the child's free slot when that is one of its slots. The child keeps
   * every descendant when it has a free slot, and is left with the former child alone
   * when it has none. The parent and all other nodes are untouched.
   */
  lemma RehomeEffects(ns: NodeMap, p: int32, c: int32, former: int32, r: NodeMap)
    requires c in ns && former in ns && p != c && p != former && c != former && former != InvalidID
    requires Rehome(ns, p, c, former) == Done(r)
    ensures r[former].previousNodeIDs == RemoveFirst(ns[former].previousNodeIDs, p) + [c]
    ensures r[former].Type() == ns[former].Type()
    ensures (forall j :: GetDescendant(r[former], j) == GetDescendant(ns[former], j))
    ensures r[c].previousNodeIDs == ns[c].previousNodeIDs
    ensures former in DescendantIDs(r[c])
    ensures (InRange(ns[c], FreeDescendantSlot(ns[c])) ==> GetDescendant(r[c], FreeDescendantSlot(ns[c])) == Some(former))
    ensures (FreeDescendantSlot(ns[c]) != -1 ==> forall x :: x in DescendantIDs(ns[c]) ==> x in DescendantIDs(r[c]))
    ensures (FreeDescendantSlot(ns[c]) == -1 ==> DescendantIDs(r[c]) == [former])
    ensures forall k :: k in ns && k != c && k != former ==> r[k] == ns[k]
  {
    var n := ns[c];
    var s := FreeDescendantSlot(n);
    SetLinks(n, former, s);
    FreeSlotIsFree(n);
    if InRange(n, s) {
      SetThenGet(n, former, s, s);
    }
    if s != -1 {
      SetFreeKeeps(n, former);
    } else {
      SingleSlotNodes(SetDescendant(n, former, s).value, former, 0, 0);
    }
  }

  /**
   * LinkNodes succeeds exactly when slot i of the parent exists and holds InvalidID or
   * a node of the map, provided the lists involved can grow and the three nodes are distinct.
   */
  lemma LinkSucceeds(ns: NodeMap, p: int32, c: int32, i: int)
    requires p in ns && c in ns && p != c && Roomy(ns[p]) && Roomy(ns[c])
    requires InRange(ns[p], i) ==> var f := GetDescendant(ns[p], i).value;
      f != p && f != c && (f in ns ==> Roomy(ns[f]))
    ensures Link(ns, p, c, i).Done? <==>
      InRange(ns[p], i) && (GetDescendant(ns[p], i).value == InvalidID || GetDescendant(ns[p], i).value in ns)
  {
    if InRange(ns[p], i) {
      var f := GetDescendant(ns[p], i).value;
      if f == InvalidID {
        AttachSucceeds(ns, p, c, i);
      } else if f in ns {
        RehomeSucceeds(ns, p, c, f);
        var ns1 := Rehome(ns, p, c, f).state;
        assert ns1[p] == ns[p] && ns1[c].previousNodeIDs == ns[c].previousNodeIDs;
        AttachSucceeds(ns1, p, c, i);
      }
    }
  }

  /**
   * LinkNodes(parent, child, i) when it completes: slot i existed and now holds the child,
   * and the child's last parent is the parent, whatever the nodes are.
   */
  lemma LinkLinks(ns: NodeMap, p: int32, c: int32, i: int, r: NodeMap)
    requires p in ns && c in ns && Link(ns, p, c, i) == Done(r)
    ensures InRange(ns[p], i)
    ensures GetDescendant(r[p], i) == Some(c)
    ensures |r[c].previousNodeIDs| > 0 && r[c].previousNodeIDs[|r[c].previousNodeIDs| - 1] == p
  {
    LinkSteps(ns, p, c, i);
    var f := GetDescendant(ns[p], i).value;
    var ns1 := if f == InvalidID then ns else Rehome(ns, p, c, f).state;
    if f != InvalidID {
      RehomeKeepsRange(ns, p, c, f, i, ns1);
    }
    AttachEffects(ns1, p, c, i, r);
    var q := ns1[c].previousNodeIDs;
    assert (q + [p])[|q|] == p;
  }

  /** A LinkNodes that completes read an existing slot and ran Rehome (when the slot was taken) and then Attach. */
  lemma LinkSteps(ns: NodeMap, p: int32, c: int32, i: int)
    requires p in ns && c in ns && Link(ns, p, c, i).Done?
    ensures InRange(ns[p], i)
    ensures GetDescendant(ns[p], i) == Some(InvalidID) ==> Link(ns, p, c, i) == Attach(ns, p, c, i)
    ensures GetDescendant(ns[p], i) != Some(InvalidID) ==>
      var f := GetDescendant(ns[p], i).value;
      f in ns && Rehome(ns, p, c, f).Done? && Link(ns, p, c, i) == Attach(Rehome(ns, p, c, f).state, p, c, i)
  {
  }

  /** Moving the former child takes no slot away from the parent, whichever nodes coincide. */
  lemma RehomeKeepsRange(ns: NodeMap, p: int32, c: int32, f: int32, i: int, r: NodeMap)
    requires p in ns && c in ns && f in ns && InRange(ns[p], i) && Rehome(ns, p, c, f) == Done(r)
    ensures InRange(r[p], i)
  {
    var ns1 := Put(ns, f, DropParent(ns[f], p));
    assert InRange(ns1[p], i);
    var child := SetDescendant(ns1[c], f, FreeDescendantSlot(ns1[c])).value;
    var ns2 := Put(ns1, c, child);
    if p == c {
      SetKeepsRange(ns1[c], f, FreeDescendantSlot(ns1[c]), i);
    }
    assert InRange(ns2[p], i);
    var prev := Push(ns2[f].previousNodeIDs, c).value;
    assert r == Put(ns2, f, WithParents(ns2[f], prev));
  }

  /**
   * LinkNodes into an empty slot, parent and child distinct: slot i gets the child, the
   * child gains the parent and keeps its descendants, the parent keeps its other slots,
   * and no other node changes.
   */
  lemma LinkIntoEmpty(ns: NodeMap, p: int32, c: int32, i: int, r: NodeMap)
    requires p in ns && c in ns && p != c && Link(ns, p, c, i) == Done(r)
    requires GetDescendant(ns[p], i) == Some(InvalidID)
    ensures GetDescendant(r[p], i) == Some(c)
    ensures r[c].previousNodeIDs == ns[c].previousNodeIDs + [p]
    ensures DescendantIDs(r[c]) == DescendantIDs(ns[c])
    ensures r[p].previousNodeIDs == ns[p].previousNodeIDs
    ensures !ns[p].SingleSlot() ==> forall j :: j != i ==> GetDescendant(r[p], j) == GetDescendant(ns[p], j)
    ensures forall k :: k in ns && k != p && k != c ==> r[k] == ns[k]
  {
    LinkSteps(ns, p, c, i);
    AttachEffects(ns, p, c, i, r);
  }

  /**
   * LinkNodes over a former child f, with parent, child and f distinct: f trades the
   * parent for the child among its parents and becomes a descendant of the child (in the
   * child's free slot when that is one of its slots); the child keeps every descendant
   * when it has a free slot and is left with f alone when it has none; slot i holds the
   * child, the child gains the parent, and no other node or slot of the parent changes.
   */
  lemma LinkOverFormer(ns: NodeMap, p: int32, c: int32, i: int, f: int32, r: NodeMap)
    requires p in ns && c in ns && p != c && Link(ns, p, c, i) == Done(r)
    requires GetDescendant(ns[p], i) == Some(f) && f != InvalidID && f != p && f != c
    ensures f in ns && f in r
    ensures GetDescendant(r[p], i) == Some(c)
    ensures r[c].previousNodeIDs == ns[c].previousNodeIDs + [p]
    ensures r[f].previousNodeIDs == RemoveFirst(ns[f].previousNodeIDs, p) + [c]
    ensures f in DescendantIDs(r[c])
    ensures InRange(ns[c], FreeDescendantSlot(ns[c])) ==> GetDescendant(r[c], FreeDescendantSlot(ns[c])) == Some(f)
    ensures FreeDescendantSlot(ns[c]) != -1 ==> forall x :: x in DescendantIDs(ns[c]) ==> x in DescendantIDs(r[c])
    ensures FreeDescendantSlot(ns[c]) == -1 ==> DescendantIDs(r[c]) == [f]
    ensures r[p].previousNodeIDs == ns[p].previousNodeIDs
    ensures !ns[p].SingleSlot() ==> forall j :: j != i ==> GetDescendant(r[p], j) == GetDescendant(ns[p], j)
    ensures forall k :: k in ns && k != p && k != c && k != f ==> r[k] == ns[k]
  {
    LinkSteps(ns, p, c, i);
    var ns1 := Rehome(ns, p, c, f).state;
    RehomeEffects(ns, p, c, f, ns1);
    AttachEffects(ns1, p, c, i, r);
  }

  /**
   * CanLinkCleanly says whether linking loses an edge: when it is true the child keeps
   * every descendant it had, and when it is false the child is a Dialog or Consequence
   * whose edge is overwritten by the former child.
   */
  lemma CanLinkCleanlyMeans(ns: NodeMap, p: int32, c: int32, i: int, r: NodeMap)
    requires p in ns && c in ns && p != c && Link(ns, p, c, i) == Done(r)
    requires var f := GetDescendant(ns[p], i); f.Some? && f.value != p && f.value != c
    ensures CanLinkCleanly(ns[p], ns[c], i).Some?
    ensures CanLinkCleanly(ns[p], ns[c], i) == Some(true) ==>
      forall x :: x in DescendantIDs(ns[c]) ==> x in DescendantIDs(r[c])
    ensures CanLinkCleanly(ns[p], ns[c], i) == Some(false) ==>
      ns[c].SingleSlot() && ns[c].nextNodeID != InvalidID
      && DescendantIDs(r[c]) == [GetDescendant(ns[p], i).value]
  {
    var f := GetDescendant(ns[p], i).value;
    assert CanLinkCleanly(ns[p], ns[c], i) == Some(f == InvalidID || FreeDescendantSlot(ns[c]) != -1);
    if f == InvalidID {
      LinkIntoEmpty(ns, p, c, i, r);
    } else {
      LinkOverFormer(ns, p, c, i, f, r);
      FreeSlotIsFree(ns[c]);
      if ns[c].SingleSlot() {
        SingleSlotNodes(ns[c], c, 0, 0);
      }
    }
  }

  // ---------------------------------------------------------------------------
  // DeleteNode

  /** The state DeleteNode changes: the nodes and the origin. */
  datatype Graph = Graph(nodes: NodeMap, origin: int32)

  /**
   * The first loop of DeleteNode: each child loses `id` from its parents, and the last
   * child found uniquely parented (before losing `id`) becomes the dependant.
   */
  function ReleaseChildren(ns: NodeMap, id: int32, ds: seq<int32>, dep: Option<int32>): (r: Outcome<(NodeMap, Option<int32>)>)
    ensures SameIds(ns, r.state.0) && r.state.0.Keys == ns.Keys
    decreases |ds|
  {
    if |ds| == 0 then Done((ns, dep))
    else if ds[0] !in ns then Threw((ns, dep))
    else
      var d := ns[ds[0]];
      ReleaseChildren(Put(ns, ds[0], DropParent(d, id)), id, ds[1..], if UniquelyParented(d) then Some(ds[0]) else dep)
  }

  /** The second loop: the first slot of each parent that holds `id` gets `target`. */
  function RelinkParents(ns: NodeMap, id: int32, ps: seq<int32>, target: int32): (r: Outcome<NodeMap>)
    ensures SameIds(ns, r.state) && r.state.Keys == ns.Keys
    decreases |ps|
  {
    if |ps| == 0 then Done(ns)
    else if ps[0] !in ns then Threw(ns)
    else
      var p := ns[ps[0]];
      match SetDescendant(p, target, IndexOfDescendant(p, id))
      case None => Threw(ns)
      case Some(p') => RelinkParents(Put(ns, ps[0], p'), id, ps[1..], target)
  }

  /**
   * DeleteNode(node): the children let go of the node, its parents are relinked to the
   * dependant (or emptied), a deleted origin is replaced by the dependant or else the first
   * descendant, and the node leaves the map.
   */
  function DeleteNode(g: Graph, id: int32): (r: Outcome<Graph>)
    requires id in g.nodes
    ensures SameIds(g.nodes, r.state.nodes)
  {
    var ds := DescendantIDs(g.nodes[id]);
    match ReleaseChildren(g.nodes, id, ds, None)
    case Threw((ns, _)) => Threw(Graph(ns, g.origin))
    case Done((ns1, dep)) =>
      match RelinkParents(ns1, id, ns1[id].previousNodeIDs, if dep.Some? then dep.value else InvalidID)
      case Threw(ns2) => Threw(Graph(ns2, g.origin))
      case Done(ns2) =>
        if id != g.origin then Done(Graph(ns2 - {id}, g.origin))
        else if dep.Some? then Done(Graph(ns2 - {id}, dep.value))
        else if |ds| == 0 then Threw(Graph(ns2, g.origin))
        else Done(Graph(ns2 - {id}, ds[0]))
  }

  /**
   * The links around `id` that DeleteNode relies on: its descendants and its parents are
   * nodes listed once each, neither includes `id` itself, each descendant lists no parent
   * twice, each parent has `id` in one of its slots, and only its descendants list it as a parent.
   */
  predicate Detachable(ns: NodeMap, id: int32)
    requires id in ns
  {
    var ds, ps := DescendantIDs(ns[id]), ns[id].previousNodeIDs;
    NoDup(ds) && id !in ds && (forall j :: 0 <= j < |ds| ==> ds[j] in ns && NoDup(ns[ds[j]].previousNodeIDs))
    && NoDup(ps) && id !in ps && (forall j :: 0 <= j < |ps| ==> ps[j] in ns && IndexOfDescendant(ns[ps[j]], id) != -1)
    && forall k :: k in ns && id in ns[k].previousNodeIDs ==> k in ds
  }

  /** The edge the parents of a deleted node are re-pointed at: the dependant, or InvalidID. */
  function TargetOf(dep: Option<int32>): (t: int32)
    ensures dep.Some? ==> t == dep.value
    ensures dep.None? ==> t == InvalidID
  {
    if dep.Some? then dep.value else InvalidID
  }

  /**
   * Both loops of DeleteNode complete: the first finds the dependant, and every node then
   * has the parents and the slots DeleteNodeEffects describes.
   */
  lemma DeleteNodeLoops(ns: NodeMap, id: int32)
    requires id in ns && Detachable(ns, id)
    ensures var ds := DescendantIDs(ns[id]);
      && ReleaseChildren(ns, id, ds, None).Done?
      && ReleaseChildren(ns, id, ds, None).state.1 == Dependant(ns, ds)
      && ReleaseChildren(ns, id, ds, None).state.0[id] == ns[id]
    ensures var ds, ps := DescendantIDs(ns[id]), ns[id].previousNodeIDs;
      var ns1 := ReleaseChildren(ns, id, ds, None).state.0;
      var target := TargetOf(Dependant(ns, ds));
      && RelinkParents(ns1, id, ps, target).Done?
      && forall k :: k in ns ==>
        RelinkParents(ns1, id, ps, target).state[k] ==
          var n := if k in ds then DropParent(ns[k], id) else ns[k];
          if k in ps then Relink(n, id, target) else n
  {
    var ds, ps := DescendantIDs(ns[id]), ns[id].previousNodeIDs;
    ReleaseChildrenEffects(ns, id, ds, None);
    var ns1 := ReleaseChildren(ns, id, ds, None).state.0;
    RelinkParentsEffects(ns1, id, ps, TargetOf(Dependant(ns, ds)));
  }

  /** DeleteNode after both loops complete: what it leaves in the map and as the origin. */
  lemma DeleteNodeResult(g: Graph, id: int32)
    requires id in g.nodes && Detachable(g.nodes, id)
    ensures var ns := g.nodes; var ds := DescendantIDs(ns[id]); var dep := Dependant(ns, ds);
      var ns2 := RelinkParents(ReleaseChildren(ns, id, ds, None).state.0, id, ns[id].previousNodeIDs, TargetOf(dep)).state;
      DeleteNode(g, id) ==
        if id != g.origin then Done(Graph(ns2 - {id}, g.origin))
        else if dep.Some? then Done(Graph(ns2 - {id}, dep.value))
        else if |ds| == 0 then Threw(Graph(ns2, g.origin))
        else Done(Graph(ns2 - {id}, ds[0]))
  {
    DeleteNodeLoops(g.nodes, id);
  }

  /** DeleteNode(node), on a node linked as Detachable says, completes unless the node is a childless origin. */
  lemma DeleteNodeSucceeds(g: Graph, id: int32)
    requires id in g.nodes && Detachable(g.nodes, id)
    ensures DeleteNode(g, id).Done? <==> !(id == g.origin && |DescendantIDs(g.nodes[id])| == 0)
  {
    var ns := g.nodes;
    var ds := DescendantIDs(ns[id]);
    DeleteNodeResult(g, id);
    var dep := Dependant(ns, ds);
    if dep.Some? {
      var j :| 0 <= j < |ds| && ds[j] == dep.value && UniquelyParented(ns[ds[j]])
                && forall k :: j < k < |ds| ==> !UniquelyParented(ns[ds[k]]);
    }
  }

  /**
   * DeleteNode(node) on a node linked as Detachable says, when it completes: the node is
   * gone and nothing else is; its id has left the parent lists of its descendants (and so
   * of every node), each of which lost exactly that entry; in each parent the slot that
   * held the node holds the dependant, or InvalidID when there is none, and the other
   * slots are unchanged; every other node keeps its slots; and a deleted origin is
   * replaced by the dependant, else by the first descendant.
   */
  lemma DeleteNodeEffects(g: Graph, id: int32, r: Graph)
    requires id in g.nodes && Detachable(g.nodes, id) && DeleteNode(g, id) == Done(r)
    ensures r.nodes.Keys == g.nodes.Keys - {id}
    ensures forall k :: k in r.nodes ==> id !in r.nodes[k].previousNodeIDs
    ensures forall k :: k in r.nodes ==>
      r.nodes[k].previousNodeIDs ==
        if k in DescendantIDs(g.nodes[id]) then RemoveFirst(g.nodes[k].previousNodeIDs, id)
        else g.nodes[k].previousNodeIDs
    ensures forall k :: k in r.nodes && k in g.nodes[id].previousNodeIDs ==>
      GetDescendant(r.nodes[k], IndexOfDescendant(g.nodes[k], id))
        == Some(TargetOf(Dependant(g.nodes, DescendantIDs(g.nodes[id]))))
    ensures forall k, j ::
      (k in r.nodes && k in g.nodes[id].previousNodeIDs && !g.nodes[k].SingleSlot()
       && j != IndexOfDescendant(g.nodes[k], id)) ==>
        GetDescendant(r.nodes[k], j) == GetDescendant(g.nodes[k], j)
    ensures forall k, j :: k in r.nodes && k !in g.nodes[id].previousNodeIDs ==>
      GetDescendant(r.nodes[k], j) == GetDescendant(g.nodes[k], j)
    ensures id != g.origin ==> r.origin == g.origin
    ensures id == g.origin ==>
      var dep := Dependant(g.nodes, DescendantIDs(g.nodes[id]));
      r.origin == if dep.Some? then dep.value else DescendantIDs(g.nodes[id])[0]
  {
    var ns := g.nodes;
    var ds, ps := DescendantIDs(ns[id]), ns[id].previousNodeIDs;
    DeleteNodeResult(g, id);
    var dep := Dependant(ns, ds);
    var ns2 := RelinkParents(ReleaseChildren(ns, id, ds, None).state.0, id, ps, TargetOf(dep)).state;
    assert r.nodes == ns2 - {id};
    forall k | k in r.nodes
      ensures id !in r.nodes[k].previousNodeIDs
      ensures r.nodes[k].previousNodeIDs == if k in ds then RemoveFirst(ns[k].previousNodeIDs, id) else ns[k].previousNodeIDs
      ensures k in ps ==> GetDescendant(r.nodes[k], IndexOfDescendant(ns[k], id)) == Some(TargetOf(dep))
      ensures k in ps && !ns[k].SingleSlot() ==>
        forall j :: j != IndexOfDescendant(ns[k], id) ==> GetDescendant(r.nodes[k], j) == GetDescendant(ns[k], j)
      ensures k !in ps ==> forall j :: GetDescendant(r.nodes[k], j) == GetDescendant(ns[k], j)
    {
      DeleteNodeNode(ns, id, k);
    }
  }

  /** What the two loops of DeleteNode leave in node `k`, for every node other than the deleted one. */
  lemma DeleteNodeNode(ns: NodeMap, id: int32, k: int32)
    requires id in ns && Detachable(ns, id) && k in ns && k != id
    ensures var ds, ps := DescendantIDs(ns[id]), ns[id].previousNodeIDs;
      var dep := Dependant(ns, ds);
      var n := RelinkParents(ReleaseChildren(ns, id, ds, None).state.0, id, ps, TargetOf(dep)).state[k];
      && id !in n.previousNodeIDs
      && n.previousNodeIDs == (if k in ds then RemoveFirst(ns[k].previousNodeIDs, id) else ns[k].previousNodeIDs)
      && (k in ps ==> GetDescendant(n, IndexOfDescendant(ns[k], id)) == Some(TargetOf(dep)))
      && (k in ps && !ns[k].SingleSlot() ==>
           forall j :: j != IndexOfDescendant(ns[k], id) ==> GetDescendant(n, j) == GetDescendant(ns[k], j))
      && (k !in ps ==> forall j :: GetDescendant(n, j) == GetDescendant(ns[k], j))
  {
    var ds, ps := DescendantIDs(ns[id]), ns[id].previousNodeIDs;
    DeleteNodeLoops(ns, id);
    var dep := Dependant(ns, ds);
    if k in ds {
      var j :| 0 <= j < |ds| && ds[j] == k;
      RemoveFirstNoDup(ns[k].previousNodeIDs, id);
    }
    var n := if k in ds then DropParent(ns[k], id) else ns[k];
    if k in ps {
      var j :| 0 <= j < |ps| && ps[j] == k;
      if !n.SingleSlot() {
        RelinkSlots(n, id, TargetOf(dep));
      }
    }
  }

  /** The number of entries of `ds` naming a uniquely parented node; a missing node throws. */
  function CountUniquelyParented(ns: NodeMap, ds: seq<int32>): (r: Option<nat>)
    ensures r.Some? <==> forall j :: 0 <= j < |ds| ==> ds[j] in ns
    ensures r.Some? ==> r.value <= |ds|
    decreases |ds|
  {
    if |ds| == 0 then Some(0)
    else if ds[0] !in ns then None
    else
      var k :- CountUniquelyParented(ns, ds[1..]);
      Some(k + if UniquelyParented(ns[ds[0]]) then 1 else 0)
  }

  /** CanRemoveCleanly(node): not a childless origin, and fewer than two uniquely parented children. */
  function CanRemoveCleanly(ns: NodeMap, origin: int32, id: int32): Option<bool>
    requires id in ns
  {
    var ds := DescendantIDs(ns[id]);
    if |ds| == 0 && id == origin then Some(false)
    else
      var k :- CountUniquelyParented(ns, ds);
      Some(k < 2)
  }

  /** Fewer than two uniquely parented entries: no two positions of `ds` both name one. */
  lemma {:induction false} CountBelowTwo(ns: NodeMap, ds: seq<int32>)
    requires forall j :: 0 <= j < |ds| ==> ds[j] in ns
    ensures CountUniquelyParented(ns, ds).Some?
    ensures CountUniquelyParented(ns, ds).value == 0 <==> forall j :: 0 <= j < |ds| ==> !UniquelyParented(ns[ds[j]])
    ensures CountUniquelyParented(ns, ds).value < 2 <==>
      forall i, j :: 0 <= i < j < |ds| ==> !(UniquelyParented(ns[ds[i]]) && UniquelyParented(ns[ds[j]]))
    decreases |ds|
  {
    if |ds| > 0 {
      var t := ds[1..];
      assert forall j :: 0 <= j < |t| ==> t[j] == ds[j + 1];
      CountBelowTwo(ns, t);
      if UniquelyParented(ns[ds[0]]) && CountUniquelyParented(ns, t).value > 0 {
        var j :| 0 <= j < |t| && UniquelyParented(ns[t[j]]);
        assert UniquelyParented(ns[ds[j + 1]]);
      }
      if CountUniquelyParented(ns, t).value >= 2 {
        var i, j :| 0 <= i < j < |t| && UniquelyParented(ns[t[i]]) && UniquelyParented(ns[t[j]]);
        assert UniquelyParented(ns[ds[i + 1]]) && UniquelyParented(ns[ds[j + 1]]);
      }
    }
  }

  /**
   * CanRemoveCleanly(node) on a node linked as Detachable says: false for a childless
   * origin; otherwise true exactly when every uniquely parented descendant is the dependant.
   */
  lemma CanRemoveCleanlyMeans(ns: NodeMap, origin: int32, id: int32)
    requires id in ns && Detachable(ns, id)
    ensures var ds := DescendantIDs(ns[id]);
      CanRemoveCleanly(ns, origin, id) ==
        Some(!(|ds| == 0 && id == origin)
             && forall j :: 0 <= j < |ds| && UniquelyParented(ns[ds[j]]) ==> Dependant(ns, ds) == Some(ds[j]))
  {
    var ds := DescendantIDs(ns[id]);
    CountBelowTwo(ns, ds);
    OnlyTheDependant(ns, ds);
  }

  /** Among distinct entries, no two are uniquely parented exactly when each one that is, is the dependant. */
  lemma OnlyTheDependant(ns: NodeMap, ds: seq<int32>)
    requires NoDup(ds) && forall j :: 0 <= j < |ds| ==> ds[j] in ns
    ensures (forall i, j :: 0 <= i < j < |ds| ==> !(UniquelyParented(ns[ds[i]]) && UniquelyParented(ns[ds[j]])))
        <==> forall j :: 0 <= j < |ds| && UniquelyParented(ns[ds[j]]) ==> Dependant(ns, ds) == Some(ds[j])
  {
    var dep := Dependant(ns, ds);
    if dep.Some? {
      var j0 :| 0 <= j0 < |ds| && ds[j0] == dep.value && UniquelyParented(ns[ds[j0]])
                 && forall k :: j0 < k < |ds| ==> !UniquelyParented(ns[ds[k]]);
      if forall j :: 0 <= j < |ds| && UniquelyParented(ns[ds[j]]) ==> dep == Some(ds[j]) {
        forall i, j | 0 <= i < j < |ds| ensures !(UniquelyParented(ns[ds[i]]) && UniquelyParented(ns[ds[j]])) {
          var x, y := ds[i], ds[j];
          assert UniquelyParented(ns[x]) && UniquelyParented(ns[y]) ==> x == y;
        }
      }
    }
  }

  /**
   * The partner of CanRemoveCleanly: when every descendant lists the node as a parent, a
   * completed DeleteNode leaves a descendant with no parent exactly when it was uniquely
   * parented, so CanRemoveCleanly holds exactly when no descendant but the dependant is orphaned.
   */
  lemma CanRemoveCleanlyOrphans(g: Graph, id: int32, r: Graph)
    requires id in g.nodes && Detachable(g.nodes, id) && DeleteNode(g, id) == Done(r)
    requires forall k :: k in DescendantIDs(g.nodes[id]) ==> id in g.nodes[k].previousNodeIDs
    ensures var ds := DescendantIDs(g.nodes[id]);
      forall k :: k in ds ==> k in r.nodes && (|r.nodes[k].previousNodeIDs| == 0 <==> UniquelyParented(g.nodes[k]))
    ensures var ds := DescendantIDs(g.nodes[id]);
      CanRemoveCleanly(g.nodes, g.origin, id) == Some(true) <==>
        forall k :: k in ds && |r.nodes[k].previousNodeIDs| == 0 ==> Dependant(g.nodes, ds) == Some(k)
  {
    var ns := g.nodes;
    var ds := DescendantIDs(ns[id]);
    DeleteNodeEffects(g, id, r);
    DeleteNodeSucceeds(g, id);
    CanRemoveCleanlyMeans(ns, g.origin, id);
    forall k | k in ds ensures k in r.nodes && (|r.nodes[k].previousNodeIDs| == 0 <==> UniquelyParented(ns[k])) {
      var j :| 0 <= j < |ds| && ds[j] == k;
      assert k in r.nodes;
    }
    forall j | 0 <= j < |ds| ensures ds[j] in ds {
    }
  }

  /** CanDeleteTree(node). */
  function CanDeleteTree(origin: int32, id: int32): bool
  {
    id != origin
  }

  /**
   * The dependant DeleteNode looks for: the last of `ds` that is uniquely parented, found
   * here by searching from the end, or none when no entry is.
   */
  function Dependant(ns: NodeMap, ds: seq<int32>): (r: Option<int32>)
    requires forall j :: 0 <= j < |ds| ==> ds[j] in ns
    ensures r.None? <==> forall j :: 0 <= j < |ds| ==> !UniquelyParented(ns[ds[j]])
    ensures r.Some? ==>
      exists j :: 0 <= j < |ds| && ds[j] == r.value && UniquelyParented(ns[ds[j]])
                  && forall k :: j < k < |ds| ==> !UniquelyParented(ns[ds[k]])
    decreases |ds|
  {
    if |ds| == 0 then None
    else if UniquelyParented(ns[ds[|ds| - 1]]) then Some(ds[|ds| - 1])
    else
      var r := Dependant(ns, ds[..|ds| - 1]);
      DependantSkip(ns, ds, r);
      r
  }

  /** The search past a last entry that is not uniquely parented finds what the search before it does. */
  lemma DependantSkip(ns: NodeMap, ds: seq<int32>, r: Option<int32>)
    requires |ds| > 0 && (forall j :: 0 <= j < |ds| ==> ds[j] in ns) && !UniquelyParented(ns[ds[|ds| - 1]])
    requires var p := ds[..|ds| - 1];
      (r.None? <==> forall j :: 0 <= j < |p| ==> !UniquelyParented(ns[p[j]]))
      && (r.Some? ==>
            exists j :: 0 <= j < |p| && p[j] == r.value && UniquelyParented(ns[p[j]])
                        && forall k :: j < k < |p| ==> !UniquelyParented(ns[p[k]]))
    ensures r.None? <==> forall j :: 0 <= j < |ds| ==> !UniquelyParented(ns[ds[j]])
    ensures r.Some? ==>
      exists j :: 0 <= j < |ds| && ds[j] == r.value && UniquelyParented(ns[ds[j]])
                  && forall k :: j < k < |ds| ==> !UniquelyParented(ns[ds[k]])
  {
    var p := ds[..|ds| - 1];
    assert forall j :: 0 <= j < |p| ==> p[j] == ds[j];
    if r.Some? {
      var j :| 0 <= j < |p| && p[j] == r.value && UniquelyParented(ns[p[j]])
               && forall k :: j < k < |p| ==> !UniquelyParented(ns[p[k]]);
      assert ds[j] == r.value && UniquelyParented(ns[ds[j]]);
      assert forall k :: j < k < |ds| ==> !UniquelyParented(ns[ds[k]]);
    }
  }

  /** Searching from the end agrees with the forward loop: the first entry counts only when no later one does. */
  lemma DependantCons(ns: NodeMap, ds: seq<int32>)
    requires |ds| > 0 && forall j :: 0 <= j < |ds| ==> ds[j] in ns
    ensures Dependant(ns, ds) ==
      if Dependant(ns, ds[1..]).Some? then Dependant(ns, ds[1..])
      else if UniquelyParented(ns[ds[0]]) then Some(ds[0]) else None
  {
    var r, t := Dependant(ns, ds), Dependant(ns, ds[1..]);
    if t.Some? {
      var j :| 0 <= j < |ds[1..]| && ds[1..][j] == t.value && UniquelyParented(ns[ds[1..][j]])
        && forall k :: j < k < |ds[1..]| ==> !UniquelyParented(ns[ds[1..][k]]);
      assert forall k :: j + 1 < k < |ds| ==> ds[k] == ds[1..][k - 1];
      var j' :| 0 <= j' < |ds| && ds[j'] == r.value && UniquelyParented(ns[ds[j']])
        && forall k :: j' < k < |ds| ==> !UniquelyParented(ns[ds[k]]);
      assert ds[j + 1] == ds[1..][j];
      assert j' == j + 1;
    } else {
      assert forall k :: 1 <= k < |ds| ==> ds[k] == ds[1..][k - 1];
      if r.Some? {
        var j' :| 0 <= j' < |ds| && ds[j'] == r.value && UniquelyParented(ns[ds[j']])
          && forall k :: j' < k < |ds| ==> !UniquelyParented(ns[ds[k]]);
        assert j' == 0;
      }
    }
  }

  /** Slot GetIndexOfDescendant(id) of a parent of `id`, re-pointed at `target`. */
  function Relink(n: TimelineNode, id: int32, target: int32): (r: TimelineNode)
    requires IndexOfDescendant(n, id) != -1
    ensures r.id == n.id && r.previousNodeIDs == n.previousNodeIDs && r.Type() == n.Type()
    ensures GetDescendant(r, IndexOfDescendant(n, id)) == Some(target)
  {
    IndexOfDescendantFirst(n, id);
    SetThenGet(n, target, IndexOfDescendant(n, id), 0);
    SetDescendant(n, target, IndexOfDescendant(n, id)).value
  }

  /** Re-pointing one slot of a Branch or Decision leaves its other slots as they were. */
  lemma RelinkSlots(n: TimelineNode, id: int32, target: int32)
    requires IndexOfDescendant(n, id) != -1 && !n.SingleSlot()
    ensures forall j :: j != IndexOfDescendant(n, id) ==> GetDescendant(Relink(n, id, target), j) == GetDescendant(n, j)
  {
    IndexOfDescendantFirst(n, id);
    forall j {
      SetThenGet(n, target, IndexOfDescendant(n, id), j);
    }
  }

  /**
   * With no parent repeated and each listing `id` among its descendants, the second loop
   * of DeleteNode completes and re-points exactly the parents, once each.
   */
  lemma {:induction false} RelinkParentsEffects(ns: NodeMap, id: int32, ps: seq<int32>, target: int32)
    requires NoDup(ps) && forall j :: 0 <= j < |ps| ==> ps[j] in ns && IndexOfDescendant(ns[ps[j]], id) != -1
    ensures RelinkParents(ns, id, ps, target).Done?
    ensures forall k :: k in ns ==>
      RelinkParents(ns, id, ps, target).state[k] == if k in ps then Relink(ns[k], id, target) else ns[k]
    decreases |ps|
  {
    if |ps| > 0 {
      var p := ns[ps[0]];
      IndexOfDescendantFirst(p, id);
      SetThenGet(p, target, IndexOfDescendant(p, id), 0);
      var ns' := Put(ns, ps[0], Relink(p, id, target));
      NoDupCons(ps);
      forall j | 0 <= j < |ps[1..]| ensures ps[1..][j] in ns' && IndexOfDescendant(ns'[ps[1..][j]], id) != -1 {
        assert ps[1..][j] == ps[j + 1] && ps[1..][j] != ps[0];
      }
      RelinkParentsEffects(ns', id, ps[1..], target);
      assert RelinkParents(ns, id, ps, target) == RelinkParents(ns', id, ps[1..], target);
      var r := RelinkParents(ns', id, ps[1..], target).state;
      forall k | k in ns ensures r[k] == if k in ps then Relink(ns[k], id, target) else ns[k] {
        InCons(ps, k);
      }
    }
  }

  /**
   * With no entry of `ds` repeated, the first loop of DeleteNode completes, drops `id` from
   * the parents of exactly the nodes of `ds`, and ends with the dependant: the last uniquely
   * parented entry, or `dep` when there is none.
   */
  lemma {:induction false} ReleaseChildrenEffects(ns: NodeMap, id: int32, ds: seq<int32>, dep: Option<int32>)
    requires NoDup(ds) && forall j :: 0 <= j < |ds| ==> ds[j] in ns
    ensures ReleaseChildren(ns, id, ds, dep).Done?
    ensures forall k :: k in ns ==>
      ReleaseChildren(ns, id, ds, dep).state.0[k] == if k in ds then DropParent(ns[k], id) else ns[k]
    ensures ReleaseChildren(ns, id, ds, dep).state.1 == if Dependant(ns, ds).Some? then Dependant(ns, ds) else dep
    decreases |ds|
  {
    if |ds| > 0 {
      var d := ns[ds[0]];
      var ns' := Put(ns, ds[0], DropParent(d, id));
      var dep' := if UniquelyParented(d) then Some(ds[0]) else dep;
      NoDupCons(ds);
      assert forall j :: 0 <= j < |ds[1..]| ==> ds[1..][j] == ds[j + 1];
      ReleaseChildrenEffects(ns', id, ds[1..], dep');
      assert ReleaseChildren(ns, id, ds, dep) == ReleaseChildren(ns', id, ds[1..], dep');
      var r := ReleaseChildren(ns', id, ds[1..], dep').state.0;
      forall k | k in ns ensures r[k] == if k in ds then DropParent(ns[k], id) else ns[k] {
        InCons(ds, k);
      }
      forall j | 0 <= j < |ds[1..]| ensures ds[1..][j] in ns' && ns'[ds[1..][j]] == ns[ds[1..][j]] {
        assert ds[1..][j] != ds[0];
      }
      DependantFrame(ns, ns', ds[1..]);
      DependantCons(ns, ds);
    }
  }

  /** The dependant of `ds` reads only the nodes of `ds`. */
  lemma DependantFrame(ns: NodeMap, ns': NodeMap, ds: seq<int32>)
    requires forall j :: 0 <= j < |ds| ==> ds[j] in ns && ds[j] in ns' && ns'[ds[j]] == ns[ds[j]]
    ensures Dependant(ns', ds) == Dependant(ns, ds)
  {
    var r, r' := Dependant(ns, ds), Dependant(ns', ds);
    if r.Some? && r'.Some? {
      var j :| 0 <= j < |ds| && ds[j] == r.value && UniquelyParented(ns[ds[j]])
        && forall k :: j < k < |ds| ==> !UniquelyParented(ns[ds[k]]);
      var j' :| 0 <= j' < |ds| && ds[j'] == r'.value && UniquelyParented(ns'[ds[j']])
        && forall k :: j' < k < |ds| ==> !UniquelyParented(ns'[ds[k]]);
      assert UniquelyParented(ns[ds[j']]) && UniquelyParented(ns'[ds[j]]);
    }
  }

  // ---------------------------------------------------------------------------
  // GetLastDialogNode

  /** What the search finds: a Dialog node, null, or nothing because it threw or recursed past `fuel`. */
  datatype Search = Found(node: TimelineNode) | NoDialog | Stuck

  /**
   * GetLastDialogNode(node): the node itself when it is a Dialog, else the first Dialog
   * found depth-first through the parents in list order. A missing parent throws; `fuel`
   * bounds the recursion depth, which the source does not bound.
   */
  function LastDialog(ns: NodeMap, n: TimelineNode, fuel: nat): Search
    decreases fuel, 0
  {
    if n.DialogNode? then Found(n)
    else if fuel == 0 then Stuck
    else LastDialogAmong(ns, n.previousNodeIDs, fuel - 1)
  }

  /** The loop over the parents: the first search that does not come back null decides. */
  function LastDialogAmong(ns: NodeMap, ps: seq<int32>, fuel: nat): Search
    decreases fuel, 1, |ps|
  {
    if |ps| == 0 then NoDialog
    else if ps[0] !in ns then Stuck
    else
      match LastDialog(ns, ns[ps[0]], fuel)
      case NoDialog => LastDialogAmong(ns, ps[1..], fuel)
      case r => r
  }

  /** A walk up the parent lists: path[0] is one of `ps`, and each next entry is a parent of the one before. */
  ghost predicate WalkFrom(ns: NodeMap, ps: seq<int32>, path: seq<int32>)
  {
    |path| >= 1 && path[0] in ps
    && (forall k :: 0 <= k < |path| ==> path[k] in ns)
    && (forall k :: 0 <= k < |path| - 1 ==> path[k + 1] in ns[path[k]].previousNodeIDs)
  }

  /** A walk that passes only non-Dialog nodes before its last one. */
  ghost predicate ThroughNonDialog(ns: NodeMap, path: seq<int32>)
    requires forall k :: 0 <= k < |path| ==> path[k] in ns
  {
    forall k :: 0 <= k < |path| - 1 ==> !ns[path[k]].DialogNode?
  }

  /** A walk from the parents `ps` that meets its first Dialog node at its end, which is `d`. */
  ghost predicate DialogWalk(ns: NodeMap, ps: seq<int32>, path: seq<int32>, d: TimelineNode)
  {
    WalkFrom(ns, ps, path) && ThroughNonDialog(ns, path) && ns[path[|path| - 1]] == d && d.DialogNode?
  }

  /** Every walk from the parents `ps` passes only non-Dialog nodes. */
  ghost predicate NoDialogAbove(ns: NodeMap, ps: seq<int32>)
  {
    forall path :: WalkFrom(ns, ps, path) ==> forall k :: 0 <= k < |path| ==> !ns[path[k]].DialogNode?
  }

  lemma WalkStep(ns: NodeMap, q: int32, path: seq<int32>)
    requires q in ns && WalkFrom(ns, ns[q].previousNodeIDs, path)
    ensures forall ps :: q in ps ==> WalkFrom(ns, ps, [q] + path)
  {
    var w := [q] + path;
    assert forall k :: 1 <= k < |w| ==> w[k] == path[k - 1];
  }

  /**
   * What GetLastDialogNode(node) finds: the node itself when it is a Dialog; otherwise a
   * Dialog reached by a walk up the parents that passes no other Dialog; and it comes
   * back null only when no walk up the parents meets a Dialog at all.
   */
  lemma {:induction false} LastDialogSound(ns: NodeMap, n: TimelineNode, fuel: nat)
    ensures n.DialogNode? ==> LastDialog(ns, n, fuel) == Found(n)
    ensures !n.DialogNode? && LastDialog(ns, n, fuel).Found? ==>
      exists path :: DialogWalk(ns, n.previousNodeIDs, path, LastDialog(ns, n, fuel).node)
    ensures LastDialog(ns, n, fuel) == NoDialog ==> !n.DialogNode? && NoDialogAbove(ns, n.previousNodeIDs)
    decreases fuel, 0
  {
    if !n.DialogNode? && fuel > 0 {
      LastDialogAmongSound(ns, n.previousNodeIDs, fuel - 1);
    }
  }

  /** The loop over the parents `ps`: what it finds is at the end of a walk from one of them. */
  lemma {:induction false} LastDialogAmongSound(ns: NodeMap, ps: seq<int32>, fuel: nat)
    ensures LastDialogAmong(ns, ps, fuel).Found? ==> exists path :: DialogWalk(ns, ps, path, LastDialogAmong(ns, ps, fuel).node)
    ensures LastDialogAmong(ns, ps, fuel) == NoDialog ==> NoDialogAbove(ns, ps)
    decreases fuel, 1, |ps|
  {
    if |ps| > 0 && ps[0] in ns {
      var q := ps[0];
      var rest := ps[1..];
      var first := LastDialog(ns, ns[q], fuel);
      LastDialogSound(ns, ns[q], fuel);
      InCons(ps, q);
      if first.Found? {
        if ns[q].DialogNode? {
          assert DialogWalk(ns, ps, [q], first.node);
        } else {
          var path :| DialogWalk(ns, ns[q].previousNodeIDs, path, first.node);
          WalkStep(ns, q, path);
          var w := [q] + path;
          assert forall k :: 1 <= k < |w| ==> w[k] == path[k - 1];
          assert DialogWalk(ns, ps, w, first.node);
        }
      } else if first == NoDialog {
        LastDialogAmongSound(ns, rest, fuel);
        var r := LastDialogAmong(ns, rest, fuel);
        if r.Found? {
          var path :| DialogWalk(ns, rest, path, r.node);
          InCons(ps, path[0]);
          assert DialogWalk(ns, ps, path, r.node);
        } else if r == NoDialog {
          forall path | WalkFrom(ns, ps, path) ensures forall k :: 0 <= k < |path| ==> !ns[path[k]].DialogNode? {
            InCons(ps, path[0]);
            if path[0] == q {
              if |path| > 1 {
                var t := path[1..];
                assert forall k :: 0 <= k < |t| ==> t[k] == path[k + 1];
                assert WalkFrom(ns, ns[q].previousNodeIDs, t);
              }
            } else {
              assert WalkFrom(ns, rest, path);
            }
          }
        }
      }
    }
  }

  /**
   * The loop over the parents `ps` keeps list order: what it finds is what the search above
   * some parent ps[i] finds, and every parent before ps[i] is a non-Dialog node with no Dialog
   * on any walk above it.
   */
  lemma {:induction false} LastDialogAmongFirst(ns: NodeMap, ps: seq<int32>, fuel: nat)
    requires LastDialogAmong(ns, ps, fuel).Found?
    ensures exists i :: (0 <= i < |ps| && ps[i] in ns && LastDialog(ns, ns[ps[i]], fuel) == LastDialogAmong(ns, ps, fuel)
      && forall j :: 0 <= j < i ==> ps[j] in ns && !ns[ps[j]].DialogNode? && NoDialogAbove(ns, ns[ps[j]].previousNodeIDs))
    decreases |ps|
  {
    var q := ps[0];
    if LastDialog(ns, ns[q], fuel) == NoDialog {
      LastDialogSound(ns, ns[q], fuel);
      var rest := ps[1..];
      LastDialogAmongFirst(ns, rest, fuel);
      var i :| 0 <= i < |rest| && rest[i] in ns && LastDialog(ns, ns[rest[i]], fuel) == LastDialogAmong(ns, rest, fuel)
        && forall j :: 0 <= j < i ==> rest[j] in ns && !ns[rest[j]].DialogNode? && NoDialogAbove(ns, ns[rest[j]].previousNodeIDs);
      assert ps[i + 1] == rest[i];
      assert forall j :: 1 <= j < i + 1 ==> ps[j] == rest[j - 1];
    } else {
      assert LastDialog(ns, ns[ps[0]], fuel) == LastDialogAmong(ns, ps, fuel);
    }
  }

  /**
   * The search above the parents `ps` cannot throw or run out of `fuel`: each parent is a
   * node, and above each non-Dialog parent there is fuel left and the bound holds again.
   */
  ghost predicate ParentsWithin(ns: NodeMap, ps: seq<int32>, fuel: nat)
    decreases fuel
  {
    forall p :: p in ps ==> p in ns && (!ns[p].DialogNode? ==> fuel > 0 && ParentsWithin(ns, ns[p].previousNodeIDs, fuel - 1))
  }

  /** Within the bound the loop over the parents neither throws nor runs out of fuel. */
  lemma {:induction false} LastDialogAmongFinishes(ns: NodeMap, ps: seq<int32>, fuel: nat)
    requires ParentsWithin(ns, ps, fuel)
    ensures LastDialogAmong(ns, ps, fuel) != Stuck
    decreases fuel, |ps|
  {
    if |ps| > 0 {
      var q := ps[0];
      assert q in ns;
      var first := LastDialog(ns, ns[q], fuel);
      if !ns[q].DialogNode? {
        LastDialogAmongFinishes(ns, ns[q].previousNodeIDs, fuel - 1);
      }
      if first == NoDialog {
        assert forall p :: p in ps[1..] ==> p in ps;
        LastDialogAmongFinishes(ns, ps[1..], fuel);
      }
    }
  }

  /**
   * Within the bound the loop over the parents misses a Dialog only when no walk up the
   * parents meets one.
   */
  lemma LastDialogAmongComplete(ns: NodeMap, ps: seq<int32>, fuel: nat)
    requires ParentsWithin(ns, ps, fuel)
    ensures LastDialogAmong(ns, ps, fuel) != Stuck
    ensures (exists path :: WalkFrom(ns, ps, path) && ns[path[|path| - 1]].DialogNode?) ==> LastDialogAmong(ns, ps, fuel).Found?
  {
    LastDialogAmongFinishes(ns, ps, fuel);
    LastDialogAmongSound(ns, ps, fuel);
  }

  /**
   * GetLastDialogNode(node) within the bound: it neither throws nor runs out of fuel, and it
   * finds a Dialog whenever the node is one or some walk up its parents meets one.
   */
  lemma LastDialogComplete(ns: NodeMap, n: TimelineNode, fuel: nat)
    requires n.DialogNode? || (fuel > 0 && ParentsWithin(ns, n.previousNodeIDs, fuel - 1))
    ensures LastDialog(ns, n, fuel) != Stuck
    ensures (n.DialogNode? || exists path :: WalkFrom(ns, n.previousNodeIDs, path) && ns[path[|path| - 1]].DialogNode?) ==>
      LastDialog(ns, n, fuel).Found?
  {
    if !n.DialogNode? {
      LastDialogAmongComplete(ns, n.previousNodeIDs, fuel - 1);
    }
  }

  // ---------------------------------------------------------------------------
  // SanityCheck

  /** A walk along descendant edges, from path[0] to its last entry. */
  ghost predicate DescendantWalk(ns: NodeMap, path: seq<int32>)
  {
    |path| >= 1 && forall k :: 0 <= k < |path| - 1 ==> path[k] in ns && path[k + 1] in DescendantIDs(ns[path[k]])
  }

  ghost predicate Reaches(ns: NodeMap, from: int32, to: int32)
  {
    exists path :: DescendantWalk(ns, path) && path[0] == from && path[|path| - 1] == to
  }

  /**
   * SanityCheck passes: no node lists a parent twice, lists itself as a parent or lists a
   * missing parent; every id reachable from the origin is a node that is not its own
   * descendant; and every node is reachable from the origin.
   */
  ghost predicate Sane(ns: NodeMap, origin: int32)
  {
    (forall k :: k in ns ==>
       NoDup(ns[k].previousNodeIDs) && ns[k].id !in ns[k].previousNodeIDs
       && forall p :: p in ns[k].previousNodeIDs ==> p in ns)
    && (forall x :: Reaches(ns, origin, x) ==> x in ns && ns[x].id !in DescendantIDs(ns[x]))
    && (forall k :: k in ns ==> Reaches(ns, origin, k))
  }
}
