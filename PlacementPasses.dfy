/**
 * The states of the placer's breadth-first passes (Editor/HamNodePlacer.cs), stated over the
 * parent-of-record tree as a value: the discovery walk over the timeline that builds the tree,
 * and the top-down pass that lays every node's children across the node's span.
 */
module PlacementPasses {
  import opened Serializer
  import opened Lists
  import opened Nodes
  import opened Graphs
  import opened PlacementTrees

  // ---------------------------------------------------------------------------
  // The top-down pass
  //
  // Its queue `qs` and the set `done` of nodes already dequeued are described by the
  // predicates below; `off` holds the WidthOffsets.

  /** Every queued node is a stored node, not yet dequeued, whose parent has been dequeued. */
  ghost predicate Waiting(s: Shape, root: int32, qs: seq<int32>, done: set<int32>)
  {
    forall i :: 0 <= i < |qs| ==>
      qs[i] in s.children && qs[i] !in done && (qs[i] == root || (qs[i] in s.parent && s.parent[qs[i]] in done))
  }

  /** Every dequeued node is a stored node whose parent was dequeued before it. */
  ghost predicate Descended(s: Shape, root: int32, done: set<int32>)
  {
    forall k :: k in done ==> k in s.children && (k == root || (k in s.parent && s.parent[k] in done))
  }

  /** Every child of a dequeued node has been dequeued or is queued. */
  ghost predicate Covered(s: Shape, qs: seq<int32>, done: set<int32>)
  {
    forall y, i :: y in done && y in s.children && 0 <= i < |s.children[y]| ==>
      s.children[y][i] in done || s.children[y][i] in qs
  }

  /** The children of every dequeued node tile its span. */
  ghost predicate Tiled(s: Shape, w: map<int32, int>, off: map<int32, real>, done: set<int32>)
    requires Linked(s) && s.children.Keys <= w.Keys && s.children.Keys <= off.Keys
  {
    forall p :: p in done && p in s.children ==> Tiles(w, off, p, s.children[p])
  }

  /** A node that is not `x`'s child by Parent is not among `x`'s Children. */
  lemma NotAChild(s: Shape, x: int32, k: int32)
    requires Linked(s) && x in s.children && (k !in s.parent || s.parent[k] != x)
    ensures k !in s.children[x]
  {
  }

  /** A list without duplicates followed by another, with no element in both, has none. */
  lemma NoDupAppend<T>(a: seq<T>, b: seq<T>)
    requires NoDup(a) && NoDup(b) && forall i, j :: 0 <= i < |a| && 0 <= j < |b| ==> a[i] != b[j]
    ensures NoDup(a + b)
  {
    forall i, j | 0 <= i < j < |a + b|
      ensures (a + b)[i] != (a + b)[j]
    {
      if j < |a| {
        assert (a + b)[i] == a[i] && (a + b)[j] == a[j];
      } else if i < |a| {
        assert (a + b)[i] == a[i] && (a + b)[j] == b[j - |a|];
      } else {
        assert (a + b)[i] == b[i - |a|] && (a + b)[j] == b[j - |a|];
      }
    }
  }

  /** Tiles only looks at the offsets of the parent and its children. */
  lemma TilesFrame(w: map<int32, int>, off: map<int32, real>, off': map<int32, real>, p: int32, cs: seq<int32>)
    requires p in w && p in off && p in off' && off'[p] == off[p]
    requires forall c :: c in cs ==> c in w && c in off && c in off' && off'[c] == off[c]
    requires Tiles(w, off, p, cs)
    ensures Tiles(w, off', p, cs)
  {
  }

  /** The queue and the dequeued nodes before the pass: only the root is queued. */
  lemma SpreadStart(s: Shape, root: int32)
    requires Tree(s, root)
    ensures Waiting(s, root, [root], {}) && Descended(s, root, {}) && Covered(s, [root], {}) && NoDup([root])
  {
  }

  /**
   * Dequeuing `qs[0]` and queuing its children keeps the queue a list, without duplicates,
   * of nodes whose parents are dequeued and which are not dequeued themselves.
   */
  lemma SpreadQueueStep(s: Shape, root: int32, qs: seq<int32>, done: set<int32>)
    requires Tree(s, root) && Distinct(s) && qs != []
    requires Waiting(s, root, qs, done) && Descended(s, root, done) && Covered(s, qs, done) && NoDup(qs)
    ensures Waiting(s, root, qs[1..] + s.children[qs[0]], done + {qs[0]})
    ensures Descended(s, root, done + {qs[0]})
    ensures Covered(s, qs[1..] + s.children[qs[0]], done + {qs[0]})
    ensures NoDup(qs[1..] + s.children[qs[0]])
  {
    var cur, rest, cs := qs[0], qs[1..], s.children[qs[0]];
    var qs', done' := rest + cs, done + {cur};
    NoDupCons(qs);
    assert forall j :: 0 <= j < |cs| ==> cs[j] in s.parent && s.parent[cs[j]] == cur && cs[j] != root;
    forall j | 0 <= j < |cs|
      ensures cs[j] !in done && cs[j] != cur
    {
      assert s.rank[cur] < s.rank[cs[j]];
    }
    forall i | 0 <= i < |qs'|
      ensures qs'[i] in s.children && qs'[i] !in done'
        && (qs'[i] == root || (qs'[i] in s.parent && s.parent[qs'[i]] in done'))
    {
      if i < |rest| {
        assert qs'[i] == qs[i + 1];
      } else {
        assert qs'[i] == cs[i - |rest|];
      }
    }
    forall y, i | y in done' && y in s.children && 0 <= i < |s.children[y]|
      ensures s.children[y][i] in done' || s.children[y][i] in qs'
    {
      if y == cur {
        assert s.children[y][i] == qs'[|rest| + i];
      } else {
        InCons(qs, s.children[y][i]);
      }
    }
    forall i, j | 0 <= i < |rest| && 0 <= j < |cs|
      ensures rest[i] != cs[j]
    {
      assert rest[i] == qs[i + 1];
    }
    NoDupAppend(rest, cs);
  }

  /**
   * Laying the children of the dequeued node `qs[0]`, which changes the offsets of those
   * children only, keeps the children of every dequeued node tiled.
   */
  lemma SpreadTileStep(s: Shape, root: int32, qs: seq<int32>, done: set<int32>,
                       w: map<int32, int>, off: map<int32, real>, off': map<int32, real>)
    requires Tree(s, root) && qs != [] && Waiting(s, root, qs, done) && Descended(s, root, done)
    requires s.children.Keys <= w.Keys && s.children.Keys <= off.Keys && off'.Keys == off.Keys
    requires forall k :: k in off && k !in s.children[qs[0]] ==> off'[k] == off[k]
    requires Tiled(s, w, off, done) && Tiles(w, off', qs[0], s.children[qs[0]])
    ensures Tiled(s, w, off', done + {qs[0]})
    ensures forall k :: k in done + {qs[0]} ==> off'[k] == off[k]
  {
    var cur := qs[0];
    forall k | k in done + {cur}
      ensures off'[k] == off[k]
    {
      NotAChild(s, cur, k);
    }
    forall p | p in done && p in s.children
      ensures Tiles(w, off', p, s.children[p])
    {
      forall c | c in s.children[p]
        ensures off'[c] == off[c]
      {
        assert s.parent[c] == p;
        NotAChild(s, cur, c);
      }
      TilesFrame(w, off, off', p, s.children[p]);
    }
  }

  /** When the queue runs out, every node below the root has been dequeued. */
  lemma SpreadDone(s: Shape, root: int32, done: set<int32>)
    requires Tree(s, root) && root in done && Descended(s, root, done) && Covered(s, [], done)
    ensures done == s.children.Keys
  {
    forall y | y in s.children
      ensures y in done
    {
      UnderRoot(s, root, y);
      ClosedHoldsSubtree(s, root, done, y);
    }
  }

  // ---------------------------------------------------------------------------
  // The discovery walk
  //
  // The walk dequeues PlacementNodes and pushes them on the stack `reverse`; the nodes created
  // but not dequeued yet are `qs`. A node is explored once all of its descendant ids have
  // been looked at; in the predicates below, the nodes explored are those created before
  // position `n`.

  /** `reverse` followed by `qs` lists the nodes in the order they were created. */
  ghost predicate Order(rank: map<int32, nat>, count: nat, reverse: seq<int32>, qs: seq<int32>)
  {
    |reverse| + |qs| == count
    && (forall i :: 0 <= i < |reverse| ==> reverse[i] in rank && rank[reverse[i]] == i)
    && (forall i :: 0 <= i < |qs| ==> qs[i] in rank && rank[qs[i]] == |reverse| + i)
    && forall k :: k in rank ==>
      rank[k] < count
      && (rank[k] < |reverse| ==> reverse[rank[k]] == k)
      && (rank[k] >= |reverse| ==> qs[rank[k] - |reverse|] == k)
  }

  /** Every Parent link follows a descendant edge of the timeline. */
  ghost predicate Edges(ns: NodeMap, parent: map<int32, int32>)
  {
    forall k :: k in parent ==> parent[k] in ns && k in DescendantIDs(ns[parent[k]])
  }

  /**
   * Every descendant id of an explored node has a PlacementNode; when `tight`, it also lies at
   * most one row below the explored node.
   */
  ghost predicate Explored(ns: NodeMap, rank: map<int32, nat>, d: map<int32, int>, n: nat, tight: bool)
  {
    forall x, i :: x in rank && x in ns && rank[x] < n && 0 <= i < |DescendantIDs(ns[x])| ==>
      DescendantIDs(ns[x])[i] in rank
      && (tight ==> x in d && DescendantIDs(ns[x])[i] in d && d[DescendantIDs(ns[x])[i]] <= d[x] + 1)
  }

  /** The nodes not dequeued yet have no children. */
  ghost predicate Childless(rank: map<int32, nat>, children: map<int32, seq<int32>>, m: nat)
  {
    forall k :: k in rank && rank[k] >= m ==> k in children && children[k] == []
  }

  /** An explored node that found no new child is 1 wide; every other node is still 0 wide. */
  ghost predicate LeafWidths(rank: map<int32, nat>, children: map<int32, seq<int32>>, w: map<int32, int>, n: nat)
  {
    forall k :: k in rank ==> k in children && k in w && w[k] == if rank[k] < n && children[k] == [] then 1 else 0
  }

  /** The origin is on row 0 and every other node exactly one row below its parent. */
  ghost predicate Exact(parent: map<int32, int32>, d: map<int32, int>, o: int32)
  {
    o in d && d[o] == 0 && forall k :: k in parent ==> k in d && parent[k] in d && d[k] == d[parent[k]] + 1
  }

  /**
   * The queue is ordered by row, and its head is no shallower than the last node pushed on
   * the stack.
   */
  ghost predicate Ascending(d: map<int32, int>, reverse: seq<int32>, qs: seq<int32>)
  {
    (forall i :: 0 <= i < |qs| ==> qs[i] in d)
    && (reverse != [] && qs != [] ==> reverse[|reverse| - 1] in d && d[reverse[|reverse| - 1]] <= d[qs[0]])
    && forall i :: 0 < i < |qs| ==> d[qs[i - 1]] <= d[qs[i]]
  }

  /** No node is deeper than row `bound`. */
  ghost predicate Bounded(rank: map<int32, nat>, d: map<int32, int>, bound: int)
  {
    forall k :: k in rank ==> k in d && d[k] <= bound
  }

  /** At the start only the origin exists, and it is queued. */
  lemma DiscoverStart(ns: NodeMap, o: int32)
    ensures Order(map[o := 0], 1, [], [o]) && Edges(ns, map[]) && Explored(ns, map[o := 0], map[o := 0], 0, true)
    ensures Childless(map[o := 0], map[o := []], 0) && LeafWidths(map[o := 0], map[o := []], map[o := 0], 0)
    ensures Exact(map[], map[o := 0], o) && Ascending(map[o := 0], [], [o]) && Bounded(map[o := 0], map[o := 0], 1)
  {
  }

  /** Dequeuing the head of the queue pushes it on the stack. */
  lemma OrderDequeue(rank: map<int32, nat>, count: nat, reverse: seq<int32>, qs: seq<int32>)
    requires Order(rank, count, reverse, qs) && qs != []
    ensures Order(rank, count, reverse + [qs[0]], qs[1..])
  {
    var reverse', qs' := reverse + [qs[0]], qs[1..];
    forall k | k in rank
      ensures rank[k] < |reverse'| ==> reverse'[rank[k]] == k
      ensures rank[k] >= |reverse'| ==> qs'[rank[k] - |reverse'|] == k
    {
      if rank[k] == |reverse| {
        assert qs[0] == k;
      }
    }
  }

  /** A new node is created last and queued last. */
  lemma OrderGrow(rank: map<int32, nat>, count: nat, reverse: seq<int32>, qs: seq<int32>, id: int32)
    requires Order(rank, count, reverse, qs) && id !in rank
    ensures Order(rank[id := count], count + 1, reverse, qs + [id])
  {
  }

  /** Once the queue is empty, the stack lists the nodes in the order they were created. */
  lemma OrderDone(s: Shape, reverse: seq<int32>)
    requires Order(s.rank, s.count, reverse, [])
    ensures Listing(s, reverse)
  {
  }

  /** Linking a new node below `cur` along one of `cur`'s descendant edges keeps every link an edge. */
  lemma EdgesGrow(ns: NodeMap, parent: map<int32, int32>, cur: int32, id: int32)
    requires Edges(ns, parent) && cur in ns && id in DescendantIDs(ns[cur])
    ensures Edges(ns, parent[id := cur])
  {
  }

  /** A new node, created after every explored one and not yet explored, changes nothing explored. */
  lemma ExploredGrow(ns: NodeMap, rank: map<int32, nat>, d: map<int32, int>, n: nat, tight: bool, id: int32, count: nat, v: int)
    requires Explored(ns, rank, d, n, tight) && id !in rank && count >= n
    ensures Explored(ns, rank[id := count], d[id := v], n, tight)
  {
    forall x, i | x in rank[id := count] && x in ns && rank[id := count][x] < n && 0 <= i < |DescendantIDs(ns[x])|
      ensures DescendantIDs(ns[x])[i] in rank[id := count]
        && (tight ==>
              x in d[id := v] && DescendantIDs(ns[x])[i] in d[id := v]
              && d[id := v][DescendantIDs(ns[x])[i]] <= d[id := v][x] + 1)
    {
      assert x != id && x in rank && rank[x] < n;
      assert DescendantIDs(ns[x])[i] in rank;
    }
  }

  /** Without the row bound, rows do not matter to exploration. */
  lemma ExploredLoose(ns: NodeMap, rank: map<int32, nat>, d: map<int32, int>, d': map<int32, int>, n: nat)
    requires Explored(ns, rank, d, n, false)
    ensures Explored(ns, rank, d', n, false)
  {
  }

  /**
   * Once every descendant id of `cur`, the node created at position `n`, has a PlacementNode
   * on a row no deeper than one below `cur`'s when `tight`, `cur` is explored too.
   */
  lemma ExploredClose(ns: NodeMap, rank: map<int32, nat>, d: map<int32, int>, n: nat, tight: bool, cur: int32)
    requires Explored(ns, rank, d, n, tight) && cur in rank && rank[cur] == n && cur in ns
    requires forall x :: x in rank && rank[x] == n ==> x == cur
    requires forall i :: 0 <= i < |DescendantIDs(ns[cur])| ==> DescendantIDs(ns[cur])[i] in rank
    requires tight ==> cur in d && Bounded(rank, d, d[cur] + 1)
    ensures Explored(ns, rank, d, n + 1, tight)
  {
  }

  /** A new childless node created after position `m - 1`, below a node created before `m`. */
  lemma ChildlessGrow(rank: map<int32, nat>, children: map<int32, seq<int32>>, m: nat, cur: int32, id: int32, count: nat)
    requires Childless(rank, children, m) && cur in rank && cur in children && rank[cur] < m && id !in rank && count >= m
    ensures Childless(rank[id := count], children[cur := children[cur] + [id]][id := []], m)
  {
  }

  /** A new node is 0 wide, and `cur`, created at position `n`, is still counted as unexplored. */
  lemma LeafWidthsGrow(rank: map<int32, nat>, children: map<int32, seq<int32>>, w: map<int32, int>, n: nat,
                       cur: int32, id: int32, count: nat)
    requires LeafWidths(rank, children, w, n) && cur in rank && rank[cur] == n && id !in rank && count >= n
    ensures LeafWidths(rank[id := count], children[cur := children[cur] + [id]][id := []], w[id := 0], n)
  {
  }

  /** `cur`, created at position `n`, becomes 1 wide if it found no new child. */
  lemma LeafWidthsClose(rank: map<int32, nat>, children: map<int32, seq<int32>>, w: map<int32, int>, n: nat, cur: int32)
    requires LeafWidths(rank, children, w, n) && cur in rank && rank[cur] == n
    requires forall x :: x in rank && rank[x] == n ==> x == cur
    ensures LeafWidths(rank, children, if children[cur] == [] then w[cur := 1] else w, n + 1)
  {
  }

  /** A new node one row below its parent `cur`, which is as deep as any node, keeps the rows laid out breadth-first. */
  lemma LayeredGrow(parent: map<int32, int32>, rank: map<int32, nat>, d: map<int32, int>, o: int32,
                    reverse: seq<int32>, qs: seq<int32>, cur: int32, id: int32, count: nat)
    requires Exact(parent, d, o) && Ascending(d, reverse, qs) && reverse != [] && reverse[|reverse| - 1] == cur
    requires cur in d && Bounded(rank, d, d[cur] + 1) && id !in rank && id !in d
    requires forall i :: 0 <= i < |qs| ==> qs[i] in rank
    ensures Exact(parent[id := cur], d[id := d[cur] + 1], o) && Ascending(d[id := d[cur] + 1], reverse, qs + [id])
    ensures Bounded(rank[id := count], d[id := d[cur] + 1], d[cur] + 1)
  {
  }

  /** Dequeuing keeps the queue ordered by row. */
  lemma AscendingDequeue(d: map<int32, int>, reverse: seq<int32>, qs: seq<int32>)
    requires Ascending(d, reverse, qs) && qs != []
    ensures Ascending(d, reverse + [qs[0]], qs[1..])
  {
  }

  /** The next node dequeued is no shallower than the last one expanded, so every node lies at most a row below it. */
  lemma BoundedNext(rank: map<int32, nat>, d: map<int32, int>, reverse: seq<int32>, qs: seq<int32>)
    requires Ascending(d, reverse, qs) && reverse != [] && qs != [] && reverse[|reverse| - 1] in d
    requires Bounded(rank, d, d[reverse[|reverse| - 1]] + 1)
    ensures Bounded(rank, d, d[qs[0]] + 1)
  {
  }

  /** A new node one row below `cur` keeps every node at least a row below its parent. */
  lemma RowsDescendGrow(s: Shape, s': Shape, d: map<int32, int>, cur: int32, id: int32)
    requires RowsDescend(s, d) && cur in d && id !in s.parent && id !in d
    requires s'.parent == s.parent[id := cur]
    ensures RowsDescend(s', d[id := d[cur] + 1])
  {
  }

  /** The origin is below no node but itself. */
  lemma RootUnderNothing(s: Shape, root: int32, x: int32)
    requires Tree(s, root)
    ensures Under(s, root, x) <==> x == root
  {
  }

  // ---------------------------------------------------------------------------
  // What the discovery walk establishes once the queue is empty

  /** Some path from `o` to `y` takes at most `n` edges: `y` is no farther than `n` from `o`. */
  ghost predicate ReachableWithin(ns: NodeMap, o: int32, y: int32, n: int)
  {
    exists p :: IsPath(ns, p) && p[0] == o && p[|p| - 1] == y && |p| <= n + 1
  }

  /** The breadth-first distance from `o` to `y` is `n`: some path takes `n` edges and none fewer. */
  ghost predicate Distance(ns: NodeMap, o: int32, y: int32, n: int)
  {
    (exists p :: IsPath(ns, p) && p[0] == o && p[|p| - 1] == y && |p| == n + 1)
    && forall p :: IsPath(ns, p) && p[0] == o && p[|p| - 1] == y ==> |p| >= n + 1
  }

  /** The descendant edges out of every node of `keys` lead into `keys`. */
  lemma ExploredCloses(ns: NodeMap, rank: map<int32, nat>, d: map<int32, int>, count: nat, tight: bool)
    requires Explored(ns, rank, d, count, tight) && rank.Keys <= ns.Keys && forall k :: k in rank ==> rank[k] < count
    ensures forall x, c :: x in rank && x in ns && c in DescendantIDs(ns[x]) ==> c in rank
    ensures tight ==> forall x, c :: x in d && x in ns && c in DescendantIDs(ns[x]) && x in rank ==> c in d && d[c] <= d[x] + 1
  {
    forall x, c | x in rank && x in ns && c in DescendantIDs(ns[x])
      ensures c in rank && (tight ==> c in d && d[c] <= d[x] + 1)
    {
      var i :| 0 <= i < |DescendantIDs(ns[x])| && DescendantIDs(ns[x])[i] == c;
    }
  }

  /** A node whose PlacementNode is missing a descendant id reached along Parent links is reachable too. */
  lemma MissingReachable(ns: NodeMap, s: Shape, o: int32, d: map<int32, int>, cur: int32, m: int32)
    requires Tree(s, o) && Edges(ns, s.parent) && s.children.Keys <= d.Keys
    requires cur in s.children && cur in ns && m in DescendantIDs(ns[cur])
    ensures Reachable(ns, o, m)
  {
    LineageIsPath(s, o, ns, d, cur);
    var p := Lineage(s, cur);
    PathSnoc(ns, p, m);
    assert IsPath(ns, p + [m]) && (p + [m])[0] == o && (p + [m])[|p + [m]| - 1] == m;
  }

  /** A node at least a row below its parent is at least as deep as its lineage is long. */
  lemma {:induction false} LineageDepth(s: Shape, root: int32, d: map<int32, int>, y: int32)
    requires Tree(s, root) && RowsDescend(s, d) && y in s.children && root in d && y in d
    ensures |Lineage(s, y)| <= d[y] - d[root] + 1
    decreases s.rank[y]
  {
    if y in s.parent {
      LineageDepth(s, root, d, s.parent[y]);
    } else {
      assert !HasParent(s, y);
    }
  }

  /**
   * Once every node is explored, the PlacementNodes are exactly the nodes reachable from the
   * origin, each no farther from it than its row; in the walk without reparenting, each node's
   * row is its breadth-first distance.
   */
  lemma DiscoveryMeans(ns: NodeMap, s: Shape, o: int32, d: map<int32, int>, tight: bool)
    requires Tree(s, o) && Edges(ns, s.parent) && s.children.Keys <= ns.Keys && d.Keys == s.children.Keys
    requires Explored(ns, s.rank, d, s.count, tight) && RowsDescend(s, d) && d[o] >= 0
    requires tight ==> Exact(s.parent, d, o)
    ensures forall y :: y in s.children <==> Reachable(ns, o, y)
    ensures forall y :: y in s.children ==> ReachableWithin(ns, o, y, d[y])
    ensures tight ==> forall y :: y in s.children ==> Distance(ns, o, y, d[y])
  {
    ExploredCloses(ns, s.rank, d, s.count, tight);
    forall y | Reachable(ns, o, y)
      ensures y in s.children
    {
      var p :| IsPath(ns, p) && p[0] == o && p[|p| - 1] == y;
      ClosedHoldsPath(ns, s.rank.Keys, p);
    }
    forall y | y in s.children
      ensures Reachable(ns, o, y) && ReachableWithin(ns, o, y, d[y])
    {
      LineageIsPath(s, o, ns, d, y);
      LineageDepth(s, o, d, y);
    }
    if tight {
      forall y | y in s.children
        ensures Distance(ns, o, y, d[y])
      {
        LineageIsPath(s, o, ns, d, y);
        forall p | IsPath(ns, p) && p[0] == o && p[|p| - 1] == y
          ensures |p| >= d[y] + 1
        {
          DepthAlongPath(ns, d, p);
        }
      }
    }
  }

  /**
   * The state of the discovery walk over the timeline nodes `ns` from the origin `o`, on the
   * values of the tree `s` with depths `d` and widths `w`: the first `n` nodes of `reverse`
   * are explored and `queue` holds those still to dequeue.
   */
  ghost predicate Walked(ns: NodeMap, s: Shape, d: map<int32, int>, w: map<int32, int>, o: int32, tight: bool,
                         reverse: seq<int32>, queue: seq<int32>, n: nat)
  {
    Traced(ns, s, d, tight, reverse, queue, n) && Rowed(s, d, w, o, tight, reverse, queue, n)
  }

  /** The nodes of the tree, their order of creation and their links to the timeline nodes. */
  ghost predicate Traced(ns: NodeMap, s: Shape, d: map<int32, int>, tight: bool, reverse: seq<int32>, queue: seq<int32>, n: nat)
  {
    (forall k :: k in s.rank ==> k in ns)
    && Order(s.rank, s.count, reverse, queue)
    && Edges(ns, s.parent)
    && Explored(ns, s.rank, d, n, tight)
  }

  /** The Children, Width and depth values of the tree. */
  ghost predicate Rowed(s: Shape, d: map<int32, int>, w: map<int32, int>, o: int32, tight: bool,
                        reverse: seq<int32>, queue: seq<int32>, n: nat)
  {
    Childless(s.rank, s.children, |reverse|)
    && LeafWidths(s.rank, s.children, w, n)
    && RowsDescend(s, d) && o in d && d[o] >= 0
    && (tight ==> Exact(s.parent, d, o) && Ascending(d, reverse, queue))
  }

  /** The nodes of the tree after `id` is adopted by `cur`, from the values `s, d` before and `s', d'` after. */
  lemma TracedGrow(ns: NodeMap, tight: bool, reverse: seq<int32>, queue: seq<int32>, cur: int32, id: int32,
                   s: Shape, d: map<int32, int>, s': Shape)
    requires |reverse| > 0 && reverse[|reverse| - 1] == cur && Linked(s) && d.Keys == s.rank.Keys
    requires Traced(ns, s, d, tight, reverse, queue, |reverse| - 1)
    requires cur in ns && id in DescendantIDs(ns[cur]) && id in ns && id !in s.children
    requires s' == Grow(s, id, cur)
    ensures Traced(ns, s', Deepen(d, id, cur), tight, reverse, queue + [id], |reverse| - 1)
  {
    assert s'.rank == s.rank[id := s.count] && s'.count == s.count + 1 && s'.parent == s.parent[id := cur];
    OrderGrow(s.rank, s.count, reverse, queue, id);
    EdgesGrow(ns, s.parent, cur, id);
    ExploredGrow(ns, s.rank, d, |reverse| - 1, tight, id, s.count, d[cur] + 1);
  }

  /** The values of the tree after `id` is adopted by `cur`, from the values `s, d, w` before and `s', d', w'` after. */
  lemma RowedGrow(o: int32, tight: bool, reverse: seq<int32>, queue: seq<int32>, cur: int32, id: int32,
                  s: Shape, d: map<int32, int>, w: map<int32, int>, s': Shape)
    requires |reverse| > 0 && reverse[|reverse| - 1] == cur && Linked(s) && d.Keys == s.rank.Keys
    requires Rowed(s, d, w, o, tight, reverse, queue, |reverse| - 1) && Order(s.rank, s.count, reverse, queue)
    requires id !in s.children && (tight ==> Bounded(s.rank, d, d[cur] + 1))
    requires s' == Grow(s, id, cur)
    ensures Rowed(s', Deepen(d, id, cur), w[id := 0], o, tight, reverse, queue + [id], |reverse| - 1)
    ensures tight ==> Bounded(s'.rank, Deepen(d, id, cur), d[cur] + 1)
  {
    assert s'.rank == s.rank[id := s.count] && s'.children == s.children[cur := s.children[cur] + [id]][id := []];
    ChildlessGrow(s.rank, s.children, |reverse|, cur, id, s.count);
    LeafWidthsGrow(s.rank, s.children, w, |reverse| - 1, cur, id, s.count);
    RowsDescendGrow(s, s', d, cur, id);
    if tight {
      LayeredGrow(s.parent, s.rank, d, o, reverse, queue, cur, id, s.count);
    }
  }

  /** Dequeuing the head of the queue and pushing it on the stack: it has no children yet. */
  lemma DequeueStep(ns: NodeMap, s: Shape, d: map<int32, int>, w: map<int32, int>, o: int32, tight: bool,
                    reverse: seq<int32>, queue: seq<int32>)
    requires Linked(s) && queue != [] && Walked(ns, s, d, w, o, tight, reverse, queue, |reverse|)
    ensures Walked(ns, s, d, w, o, tight, reverse + [queue[0]], queue[1..], |reverse|)
    ensures queue[0] in ns && queue[0] in s.children && s.children[queue[0]] == []
  {
    OrderDequeue(s.rank, s.count, reverse, queue);
    if tight {
      AscendingDequeue(d, reverse, queue);
    }
  }

  /** The first `j` of the ids `dids` are among `keys`. */
  ghost predicate Offered(dids: seq<int32>, keys: set<int32>, j: nat)
  {
    j <= |dids| && forall i :: 0 <= i < j ==> dids[i] in keys
  }

  /** One more id offered, when no key is lost. */
  lemma OfferedStep(dids: seq<int32>, keys: set<int32>, keys': set<int32>, j: nat)
    requires Offered(dids, keys, j) && j < |dids| && keys <= keys' && dids[j] in keys'
    ensures Offered(dids, keys', j + 1)
  {
  }

  /**
   * Once every descendant id of `cur`, the node on top of the stack, has a PlacementNode (no
   * deeper than a row below `cur` when `tight`), `cur` is explored; it is 1 wide if it has no
   * children.
   */
  lemma ExpandDone(ns: NodeMap, s: Shape, d: map<int32, int>, w: map<int32, int>, had: bool,
                   o: int32, tight: bool, reverse: seq<int32>, queue: seq<int32>, cur: int32)
    requires Linked(s) && |reverse| > 0 && reverse[|reverse| - 1] == cur && cur in ns
    requires Walked(ns, s, d, w, o, tight, reverse, queue, |reverse| - 1)
    requires Offered(DescendantIDs(ns[cur]), s.children.Keys, |DescendantIDs(ns[cur])|)
    requires tight ==> cur in d && Bounded(s.rank, d, d[cur] + 1)
    requires cur in s.children && (had <==> s.children[cur] != [])
    ensures Walked(ns, s, d, if had then w else w[cur := 1], o, tight, reverse, queue, |reverse|)
  {
    assert s.rank[cur] == |reverse| - 1;
    ExploredClose(ns, s.rank, d, |reverse| - 1, tight, cur);
    LeafWidthsClose(s.rank, s.children, w, |reverse| - 1, cur);
  }
}
