/**
 * The editor's automatic layout of a timeline graph (Editor/HamNodePlacer.cs).
 *
 * The placer walks the graph breadth-first from the origin and gives every node it reaches
 * one PlacementNode. The node that first reaches it becomes its parent of record, which
 * yields a tree. A reverse pass then makes every node as wide as its children together
 * (a leaf is 1 wide). A top-down pass then lays each node's children side by side across the
 * node's own span. A node is placed at (offset, depth).
 */
module NodePlacement {
  import opened Wrappers
  import opened Serializer
  import opened Lists
  import opened Nodes
  import opened Graphs
  import opened TimelineFormat
  import opened PlacementTrees
  import opened PlacementPasses

  /** UnityEngine.Vector2, with exact reals for the source's floats. */
  datatype Vector2 = Vector2(x: real, y: real)

  /**
   * The PlacementNodes of one placement, kept as the `allNodes` dictionary keeps them: by
   * node id. The PlacementNode stored under id k has Parent parent[k] (absent for the root),
   * Depth depth[k], Width width[k], Children children[k] and WidthOffset widthOffset[k]; its
   * Node is the timeline's node k.
   */
  class PlacementTree {
    var parent: map<int32, int32>
    var depth: map<int32, int>
    var width: map<int32, int>
    var children: map<int32, seq<int32>>
    var widthOffset: map<int32, real>
    /** The tree of parents of record, with the order in which the nodes were created. */
    ghost var shape: Shape
    const root: int32

    /** The stored Parent and Children links form a tree below the root. */
    ghost predicate Linked()
      reads this`shape, this`parent, this`children
    {
      Tree(shape, root) && Distinct(shape) && parent == shape.parent && children == shape.children
    }

    /** Every stored PlacementNode has a Depth, a Width and a WidthOffset. */
    ghost predicate Measured()
      reads this`children, this`depth, this`width, this`widthOffset
    {
      forall k :: k in children ==> k in depth && k in width && k in widthOffset
    }

    ghost predicate Valid()
      reads this
    {
      Linked() && Measured()
    }

    /**
     * The PlacementNodes made by the discovery loop of GetNodePlacement, held in `g` as the tree
     * `s` below `root`; every WidthOffset is still 0.
     */
    constructor (root: int32, g: Grove, ghost s: Shape)
      requires Formed(g, s, root)
      ensures Valid() && this.root == root && shape == s
      ensures parent == g.parent && children == g.children && depth == g.depth && width == g.width
      ensures widthOffset.Keys == g.children.Keys && forall k :: k in widthOffset ==> widthOffset[k] == 0.0
    {
      parent, children, depth, width := g.parent, g.children, g.depth, g.width;
      widthOffset := map k | k in g.children :: 0.0;
      shape := s;
      this.root := root;
    }

    /**
     * The reverse pass of GetNodePlacement over the stack `reverse`, which holds the
     * PlacementNodes in the order they were created: each popped node's Width is added to its
     * parent's, so that every node ends up its own width wider than its children together.
     */
    method Widen(reverse: seq<int32>)
      requires Valid() && Listing(shape, reverse)
      modifies this`width
      ensures Valid() && width.Keys == old(width.Keys)
      ensures forall k :: k in children ==> width[k] == old(width[k]) + WidthSum(width, children[k])
      ensures children == old(children) && depth == old(depth) && shape == old(shape) && widthOffset == old(widthOffset)
    {
      width := Widths(parent, shape, reverse, width);
    }

    /**
     * The top-down pass of GetNodePlacement: from the root down, breadth-first, each node's
     * children are laid side by side across its span, and each node is placed at its
     * WidthOffset on the row of its Depth.
     */
    method Spread() returns (places: map<int32, Vector2>)
      requires Valid()
      modifies this`widthOffset
      ensures Valid() && widthOffset.Keys == old(widthOffset.Keys) && widthOffset[root] == old(widthOffset[root])
      ensures places.Keys == children.Keys
      ensures forall k :: k in children ==> places[k] == Vector2(widthOffset[k], depth[k] as real)
      ensures forall k :: k in children ==> Tiles(width, widthOffset, k, children[k])
      ensures children == old(children) && depth == old(depth) && shape == old(shape) && width == old(width)
    {
      widthOffset, places := Offsets(children, width, depth, shape, root, widthOffset);
    }

  }

  /**
   * The PlacementNodes made so far by the discovery loop, by node id: the Parent, Children,
   * Depth and Width of each, as the PlacementTree fields hold them.
   */
  datatype Grove = Grove(parent: map<int32, int32>, children: map<int32, seq<int32>>, depth: map<int32, int>,
                         width: map<int32, int>)

  /** `g` holds the tree `s` below `root`, and every node of it has a Depth and a Width. */
  ghost predicate Formed(g: Grove, s: Shape, root: int32)
  {
    Tree(s, root) && Distinct(s) && g.parent == s.parent && g.children == s.children
    && g.depth.Keys == s.rank.Keys && g.width.Keys == s.rank.Keys
  }

  /** new PlacementNode(OriginNode, null): the root, on row 0, with no children and width 0. */
  function Seed(o: int32): (g: Grove)
    ensures Formed(g, Shape(map[], map[o := []], map[o := 0], 1), o)
    ensures g.children.Keys == {o} && g.depth[o] == 0
  {
    Grove(map[], map[o := []], map[o := 0], map[o := 0])
  }

  /**
   * new PlacementNode(Nodes[id], p): the new node is appended to the Children of `p` and sits
   * one row below it, with no children and width 0.
   */
  function Adopted(g: Grove, id: int32, p: int32): (g': Grove)
    requires p in g.children && p in g.depth && id !in g.children
    ensures g'.children.Keys == g.children.Keys + {id} && g'.children[p] == g.children[p] + [id]
    ensures g'.parent == g.parent[id := p] && g'.depth == Deepen(g.depth, id, p) && g'.depth[id] == g.depth[p] + 1
    ensures g'.width == g.width[id := 0]
  {
    Grove(g.parent[id := p], g.children[p := g.children[p] + [id]][id := []], Deepen(g.depth, id, p), g.width[id := 0])
  }

  /** Adopting a node not in the tree `s` below `root` grows the tree by it. */
  lemma AdoptedFormed(g: Grove, s: Shape, root: int32, id: int32, p: int32)
    requires Formed(g, s, root) && p in g.children && id !in g.children
    ensures Formed(Adopted(g, id, p), Grow(s, id, p), root)
  {
    GrowKeepsTree(s, root, id, p);
    GrowDistinct(s, root, id, p);
  }

  /**
   * ReParent, on the Depths `g.depth` of the tree `s`: when `p` offers node `x` a deeper row
   * than it has, `x` moves down to the row below `p` and the subtree below `x` follows;
   * otherwise nothing changes. Every node stays at least one row below its parent of record.
   */
  method ReParent(g: Grove, ghost s: Shape, ghost root: int32, x: int32, p: int32) returns (depth: map<int32, int>)
    requires Formed(g, s, root) && x in g.children && p in g.children
    ensures depth.Keys == g.depth.Keys
    ensures depth[x] == if g.depth[x] < g.depth[p] + 1 then g.depth[p] + 1 else g.depth[x]
    ensures g.depth[x] < g.depth[p] + 1 ==> RowedBelow(s, x, depth)
    ensures forall y :: y in g.children && !Under(s, y, x) ==> depth[y] == g.depth[y]
    ensures g.depth[x] >= g.depth[p] + 1 ==> depth == g.depth
    ensures RowsDescend(s, g.depth) ==> RowsDescend(s, depth)
  {
    var newDepth := g.depth[p] + 1;
    depth := g.depth;
    if depth[x] < newDepth {
      depth := RefreshDepth(g.parent, g.children, s, x, depth[x := newDepth], newDepth);
      if RowsDescend(s, g.depth) {
        SubtreeMoveDescends(s, x, g.depth, depth);
      }
    }
  }

  /**
   * The state of the discovery walk over the timeline nodes `ns` from the origin `o`: the
   * PlacementNodes `g` form the tree `s` of nodes of `ns` linked along descendant edges,
   * `reverse` and `queue` list them in creation order, the first `n` of them are explored, and
   * nodes sit at least a row below their parents. In the walk without reparenting (`tight`),
   * the rows are laid out breadth-first.
   */
  ghost predicate Walking(ns: NodeMap, o: int32, tight: bool, g: Grove, s: Shape, reverse: seq<int32>,
                          queue: seq<int32>, n: nat)
  {
    Formed(g, s, o) && Walked(ns, s, g.depth, g.width, o, tight, reverse, queue, n)
  }

  /**
   * The walk after `id`, a descendant of `cur` with no PlacementNode yet, gets one below
   * `cur` and is queued.
   */
  lemma AdoptStep(ns: NodeMap, o: int32, tight: bool, reverse: seq<int32>, queue: seq<int32>, g: Grove, s: Shape,
                  cur: int32, id: int32)
    requires |reverse| > 0 && reverse[|reverse| - 1] == cur && Walking(ns, o, tight, g, s, reverse, queue, |reverse| - 1)
    requires cur in ns && id in DescendantIDs(ns[cur]) && id in ns && id !in g.children && cur in g.children
    requires tight ==> Bounded(s.rank, g.depth, g.depth[cur] + 1)
    ensures Walking(ns, o, tight, Adopted(g, id, cur), Grow(s, id, cur), reverse, queue + [id], |reverse| - 1)
    ensures Adopted(g, id, cur).depth[cur] == g.depth[cur]
    ensures tight ==> Bounded(Grow(s, id, cur).rank, Adopted(g, id, cur).depth, Adopted(g, id, cur).depth[cur] + 1)
  {
    AdoptedFormed(g, s, o, id, cur);
    TracedGrow(ns, tight, reverse, queue, cur, id, s, g.depth, Grow(s, id, cur));
    RowedGrow(o, tight, reverse, queue, cur, id, s, g.depth, g.width, Grow(s, id, cur));
  }

  /** The walk after a visited descendant `id` of `cur` is offered the row below `cur`, with reparenting. */
  lemma RevisitStep(ns: NodeMap, o: int32, reverse: seq<int32>, queue: seq<int32>, g: Grove, s: Shape,
                    id: int32, depth: map<int32, int>)
    requires |reverse| > 0 && Walking(ns, o, false, g, s, reverse, queue, |reverse| - 1) && id in g.children
    requires depth.Keys == g.depth.Keys && RowsDescend(s, depth) && depth[o] >= 0
    ensures Walking(ns, o, false, g.(depth := depth), s, reverse, queue, |reverse| - 1)
  {
    ExploredLoose(ns, s.rank, g.depth, depth, |reverse| - 1);
  }

  /**
   * One id `id` among the descendant ids of the node `cur` on top of the stack: when not
   * visited yet it gets a new PlacementNode below `cur` and is queued; otherwise, with
   * reparenting, it is offered the row below `cur`.
   */
  method Offer(ns: NodeMap, ghost o: int32, tight: bool, ghost reverse: seq<int32>, queue: seq<int32>,
               g: Grove, ghost s: Shape, cur: int32, id: int32)
    returns (queue': seq<int32>, g': Grove, ghost s': Shape)
    requires |reverse| > 0 && reverse[|reverse| - 1] == cur && Walking(ns, o, tight, g, s, reverse, queue, |reverse| - 1)
    requires cur in ns && cur in g.children && id in DescendantIDs(ns[cur]) && (id in g.children || id in ns)
    requires tight ==> Bounded(s.rank, g.depth, g.depth[cur] + 1)
    ensures Walking(ns, o, tight, g', s', reverse, queue', |reverse| - 1)
    ensures id in g.children ==> g'.children == g.children && queue' == queue
    ensures id !in g.children ==> g'.children.Keys == g.children.Keys + {id} && g'.children[cur] == g.children[cur] + [id]
    ensures tight ==> g'.depth[cur] == g.depth[cur] && Bounded(s'.rank, g'.depth, g'.depth[cur] + 1)
  {
    if id !in g.children {
      AdoptStep(ns, o, tight, reverse, queue, g, s, cur, id);
      queue', g', s' := queue + [id], Adopted(g, id, cur), Grow(s, id, cur);
    } else if !tight {
      var depth := ReParent(g, s, o, id, cur);
      RootUnderNothing(s, o, id);
      RevisitStep(ns, o, reverse, queue, g, s, id, depth);
      queue', g', s' := queue, g.(depth := depth), s;
    } else {
      queue', g', s' := queue, g, s;
    }
  }

  /**
   * The loop over the descendant ids of the node `cur` just pushed on the stack: every one
   * not visited yet gets a new PlacementNode below `cur` and is queued; with reparenting,
   * every visited one is offered the row below `cur`. `had` tells whether a new child was
   * found. Fails, as `Nodes[dids[j]]` throws, on an unvisited descendant id with no node.
   */
  method OfferAll(ns: NodeMap, ghost o: int32, tight: bool, ghost reverse: seq<int32>, queue: seq<int32>,
                  g0: Grove, ghost s0: Shape, cur: int32)
    returns (queue': seq<int32>, g: Grove, ghost s: Shape, had: bool, ok: bool)
    requires |reverse| > 0 && reverse[|reverse| - 1] == cur && Walking(ns, o, tight, g0, s0, reverse, queue, |reverse| - 1)
    requires cur in ns && cur in g0.children && g0.children[cur] == []
    requires tight ==> Bounded(s0.rank, g0.depth, g0.depth[cur] + 1)
    ensures Walking(ns, o, tight, g, s, reverse, queue', |reverse| - 1) && cur in g.children
    ensures g0.children.Keys <= g.children.Keys && (had <==> g.children[cur] != [])
    ensures !had ==> g.children.Keys == g0.children.Keys && queue' == queue
    ensures had ==> g.children.Keys != g0.children.Keys
    ensures ok ==> Offered(DescendantIDs(ns[cur]), g.children.Keys, |DescendantIDs(ns[cur])|)
    ensures ok && tight ==> Bounded(s.rank, g.depth, g.depth[cur] + 1)
    ensures !ok ==> exists m :: m in DescendantIDs(ns[cur]) && m !in ns
  {
    var dids := DescendantIDs(ns[cur]);
    had := false;
    queue', g, s := queue, g0, s0;
    var j := 0;
    while j < |dids|
      invariant 0 <= j <= |dids| && Walking(ns, o, tight, g, s, reverse, queue', |reverse| - 1)
      invariant g0.children.Keys <= g.children.Keys && (had <==> g.children[cur] != [])
      invariant !had ==> g.children.Keys == g0.children.Keys && queue' == queue
      invariant had ==> g.children.Keys != g0.children.Keys
      invariant Offered(dids, g.children.Keys, j)
      invariant tight ==> g.depth[cur] == g0.depth[cur] && Bounded(s.rank, g.depth, g.depth[cur] + 1)
    {
      var id := dids[j];
      if id !in g.children && id !in ns {
        ok := false;
        return;
      }
      var unseen := id !in g.children;
      ghost var k := g.children.Keys;
      queue', g, s := Offer(ns, o, tight, reverse, queue', g, s, cur, id);
      had := had || unseen;
      OfferedStep(dids, k, g.children.Keys, j);
      j := j + 1;
    }
    ok := true;
  }

  /** Once every descendant id of `cur` is offered, `cur` is explored, 1 wide if childless. */
  lemma CloseStep(ns: NodeMap, o: int32, tight: bool, reverse: seq<int32>, queue: seq<int32>,
                  g: Grove, s: Shape, had: bool, cur: int32, g': Grove)
    requires |reverse| > 0 && reverse[|reverse| - 1] == cur && cur in ns
    requires Walking(ns, o, tight, g, s, reverse, queue, |reverse| - 1) && cur in g.children
    requires Offered(DescendantIDs(ns[cur]), g.children.Keys, |DescendantIDs(ns[cur])|)
    requires tight ==> Bounded(s.rank, g.depth, g.depth[cur] + 1)
    requires (had <==> g.children[cur] != []) && g' == if had then g else g.(width := g.width[cur := 1])
    ensures Walking(ns, o, tight, g', s, reverse, queue, |reverse|)
  {
    ExpandDone(ns, s, g.depth, g.width, had, o, tight, reverse, queue, cur);
  }

  /**
   * One pass of GetNodePlacement's discovery loop, for the node `cur` just pushed on the
   * stack: its descendant ids are offered, and it is 1 wide when none of them became its
   * child. Fails when the offering does.
   */
  method Expand(ns: NodeMap, ghost o: int32, tight: bool, ghost reverse: seq<int32>, queue: seq<int32>,
                g0: Grove, ghost s0: Shape, cur: int32)
    returns (queue': seq<int32>, g: Grove, ghost s: Shape, ok: bool)
    requires |reverse| > 0 && reverse[|reverse| - 1] == cur && Walking(ns, o, tight, g0, s0, reverse, queue, |reverse| - 1)
    requires cur in ns && cur in g0.children && g0.children[cur] == []
    requires tight ==> Bounded(s0.rank, g0.depth, g0.depth[cur] + 1)
    ensures ok ==> Walking(ns, o, tight, g, s, reverse, queue', |reverse|)
    ensures ok && tight ==> Bounded(s.rank, g.depth, g.depth[cur] + 1)
    ensures !ok ==> Walking(ns, o, tight, g, s, reverse, queue', |reverse| - 1) && cur in g.children
    ensures !ok ==> exists m :: m in DescendantIDs(ns[cur]) && m !in ns
    ensures g0.children.Keys <= g.children.Keys
    ensures g.children.Keys == g0.children.Keys ==> queue' == queue
  {
    var hadChildren;
    queue', g, s, hadChildren, ok := OfferAll(ns, o, tight, reverse, queue, g0, s0, cur);
    if !ok {
      return;
    }
    var g1 := g;
    if !hadChildren {
      g := g.(width := g.width[cur := 1]);
    }
    CloseStep(ns, o, tight, reverse, queue', g1, s, hadChildren, cur, g);
  }

  /** What holds between two passes of the discovery loop. */
  ghost predicate Discovering(ns: NodeMap, o: int32, tight: bool, g: Grove, s: Shape, reverse: seq<int32>, queue: seq<int32>)
  {
    Walking(ns, o, tight, g, s, reverse, queue, |reverse|)
    && (tight && queue != [] ==> Bounded(s.rank, g.depth, g.depth[queue[0]] + 1))
  }

  /**
   * One pass of the discovery loop: the node at the head of `queue` is dequeued and its
   * children are explored. It fails when one of them is not in `ns`.
   */
  method Visit(ns: NodeMap, o: int32, tight: bool, g0: Grove, ghost s0: Shape, reverse0: seq<int32>, queue0: seq<int32>)
    returns (g: Grove, ghost s: Shape, reverse: seq<int32>, queue: seq<int32>, ok: bool)
    requires queue0 != [] && Discovering(ns, o, tight, g0, s0, reverse0, queue0)
    ensures ok ==> Discovering(ns, o, tight, g, s, reverse, queue)
    ensures ok ==> (Outside(ns.Keys, g.children.Keys) < Outside(ns.Keys, g0.children.Keys)
                    || (g.children.Keys == g0.children.Keys && |queue| < |queue0|))
    ensures !ok ==> exists y :: Reachable(ns, o, y) && y !in ns
  {
    DequeueStep(ns, s0, g0.depth, g0.width, o, tight, reverse0, queue0);
    var cur := queue0[0];
    reverse := reverse0 + [cur];
    queue, g, s, ok := Expand(ns, o, tight, reverse, queue0[1..], g0, s0, cur);
    if !ok {
      var m :| m in DescendantIDs(ns[cur]) && m !in ns;
      MissingReachable(ns, s, o, g.depth, cur, m);
      return;
    }
    if tight && queue != [] {
      BoundedNext(s.rank, g.depth, reverse, queue);
    }
    OutsideShrinks(ns.Keys, g0.children.Keys, g.children.Keys);
  }

  /**
   * The discovery loop of GetNodePlacement, from the origin `o` alone, queued: nodes are
   * dequeued in turn, pushed on the stack and expanded. Fails when an expansion does.
   */
  method Discover(ns: NodeMap, o: int32, tight: bool) returns (g: Grove, ghost s: Shape, reverse: seq<int32>, ok: bool)
    requires o in ns
    ensures ok ==> Walking(ns, o, tight, g, s, reverse, [], |reverse|)
    ensures !ok ==> exists y :: Reachable(ns, o, y) && y !in ns
  {
    g, s, reverse := Seed(o), Shape(map[], map[o := []], map[o := 0], 1), [];
    var queue := [o];
    DiscoverStart(ns, o);
    while queue != []
      invariant Discovering(ns, o, tight, g, s, reverse, queue)
      decreases Outside(ns.Keys, g.children.Keys), |queue|
    {
      g, s, reverse, queue, ok := Visit(ns, o, tight, g, s, reverse, queue);
      if !ok {
        return;
      }
    }
    ok := true;
  }

  /**
   * The loop of the reverse pass over the Parent links `parent` of the tree `s`: the nodes
   * `reverse`, listed in creation order, are popped last to first and each one's width is
   * added to its parent's.
   */
  method Widths(parent: map<int32, int32>, ghost s: Shape, reverse: seq<int32>, w0: map<int32, int>)
    returns (w: map<int32, int>)
    requires Linked(s) && Distinct(s) && parent == s.parent && s.children.Keys <= w0.Keys
    requires Listing(s, reverse)
    ensures w.Keys == w0.Keys
    ensures forall k :: k in s.children ==> w[k] == w0[k] + WidthSum(w, s.children[k])
  {
    w := w0;
    var n := |reverse|;
    WidenStart(s, w0);
    while n > 0
      invariant 0 <= n <= |reverse| && w.Keys == w0.Keys && Widened(s, w, w0, n)
    {
      var cur := reverse[n - 1];
      WidenStep(s, w, w0, n, cur);
      w, n := Popped(parent, w, cur), n - 1;
    }
    WidenDone(s, w, w0);
  }

  /** Every dequeued node is placed at its offset on the row of its depth. */
  ghost predicate Placed(places: map<int32, Vector2>, off: map<int32, real>, depth: map<int32, int>, done: set<int32>)
  {
    places.Keys == done && forall k :: k in done ==> k in off && k in depth && places[k] == Vector2(off[k], depth[k] as real)
  }

  /** Placing one more node, when no placed node's offset changed, keeps every node placed. */
  lemma PlacedStep(places: map<int32, Vector2>, off: map<int32, real>, off': map<int32, real>,
                   depth: map<int32, int>, done: set<int32>, cur: int32)
    requires Placed(places, off, depth, done) && cur in off' && cur in depth
    requires forall k :: k in done ==> k in off' && off'[k] == off[k]
    ensures Placed(places[cur := Vector2(off'[cur], depth[cur] as real)], off', depth, done + {cur})
  {
  }

  /**
   * The loop of the top-down pass over the Children links `children` of the tree `s` below
   * `root`, with widths `w` and depths `depth`, starting from the offsets `off0`: the root
   * keeps its offset, every node's children tile its span, and every node is placed.
   */
  method Offsets(children: map<int32, seq<int32>>, w: map<int32, int>, depth: map<int32, int>, ghost s: Shape,
                 root: int32, off0: map<int32, real>)
    returns (off: map<int32, real>, places: map<int32, Vector2>)
    requires Tree(s, root) && Distinct(s) && children == s.children
    requires children.Keys <= w.Keys && children.Keys <= off0.Keys && children.Keys <= depth.Keys
    ensures off.Keys == off0.Keys && off[root] == off0[root]
    ensures places.Keys == children.Keys
    ensures forall k :: k in children ==> places[k] == Vector2(off[k], depth[k] as real)
    ensures forall k :: k in children ==> Tiles(w, off, k, children[k])
  {
    off, places := off0, map[];
    ghost var done: set<int32> := {};
    var queue := [root];
    SpreadStart(s, root);
    while queue != []
      invariant Waiting(s, root, queue, done) && Descended(s, root, done) && Covered(s, queue, done) && NoDup(queue)
      invariant off.Keys == off0.Keys && off[root] == off0[root] && (root in done || (queue != [] && queue[0] == root))
      invariant Tiled(s, w, off, done) && Placed(places, off, depth, done)
      decreases Backlog(s, queue)
    {
      queue, off, places, done := SpreadStep(children, w, depth, s, root, queue, off, places, done);
    }
    SpreadDone(s, root, done);
  }

  /**
   * One pass of the top-down loop: the head of the queue lays its children across its span,
   * queues them and is placed.
   */
  method SpreadStep(children: map<int32, seq<int32>>, w: map<int32, int>, depth: map<int32, int>, ghost s: Shape,
                    root: int32, queue: seq<int32>, off: map<int32, real>, places: map<int32, Vector2>,
                    ghost done: set<int32>)
    returns (queue': seq<int32>, off': map<int32, real>, places': map<int32, Vector2>, ghost done': set<int32>)
    requires Tree(s, root) && Distinct(s) && children == s.children && queue != []
    requires children.Keys <= w.Keys && children.Keys <= off.Keys && children.Keys <= depth.Keys
    requires Waiting(s, root, queue, done) && Descended(s, root, done) && Covered(s, queue, done) && NoDup(queue)
    requires root in done || queue[0] == root
    requires Tiled(s, w, off, done) && Placed(places, off, depth, done)
    ensures Waiting(s, root, queue', done') && Descended(s, root, done') && Covered(s, queue', done') && NoDup(queue')
    ensures off'.Keys == off.Keys && off'[root] == off[root] && root in done'
    ensures Tiled(s, w, off', done') && Placed(places', off', depth, done')
    ensures Backlog(s, queue') < Backlog(s, queue)
  {
    var cur := queue[0];
    BacklogStep(s, queue);
    SpreadQueueStep(s, root, queue, done);
    off' := LayChildren(w, children[cur], off[cur] - w[cur] as real / 2.0, off);
    NotAChild(s, cur, cur);
    SpreadTileStep(s, root, queue, done, w, off, off');
    queue' := queue[1..] + children[cur];
    places' := places[cur := Vector2(off'[cur], depth[cur] as real)];
    done' := done + {cur};
    PlacedStep(places, off, off', depth, done, cur);
  }

  /**
   * The inner loop of the top-down pass: the children `cs` of a node whose span starts at
   * `r` are laid side by side in order, each centred on its own share of the span. No other
   * offset changes.
   */
  method LayChildren(w: map<int32, int>, cs: seq<int32>, r: real, off0: map<int32, real>)
    returns (off: map<int32, real>)
    requires NoDup(cs) && forall c :: c in cs ==> c in w && c in off0
    ensures off.Keys == off0.Keys
    ensures forall i :: 0 <= i < |cs| ==> off[cs[i]] - w[cs[i]] as real / 2.0 == r + WidthSum(w, cs[..i]) as real
    ensures forall k :: k in off0 && k !in cs ==> off[k] == off0[k]
  {
    off := off0;
    var cumulative := 0.0;
    var j := 0;
    while j < |cs|
      invariant 0 <= j <= |cs| && off.Keys == off0.Keys
      invariant cumulative == WidthSum(w, cs[..j]) as real
      invariant forall i :: 0 <= i < j ==> off[cs[i]] - w[cs[i]] as real / 2.0 == r + WidthSum(w, cs[..i]) as real
      invariant forall k :: k in off0 && k !in cs ==> off[k] == off0[k]
    {
      var child := cs[j];
      assert cs[..j + 1][..j] == cs[..j] && child in cs;
      assert WidthSum(w, cs[..j + 1]) == WidthSum(w, cs[..j]) + w[child];
      assert forall i :: 0 <= i < j ==> cs[i] != child;
      off := off[child := w[child] as real / 2.0 + cumulative + r];
      cumulative := cumulative + w[child] as real;
      j := j + 1;
    }
    assert cs[..j] == cs;
  }

  /**
   * RefreshDepth, over the Parent and Children links `parent` and `children` of the tree `s`:
   * starting from the children of `x`, each node dequeued is put one row below its parent and
   * its children are enqueued. The result has the rows `d` had, except that every node
   * strictly below `x` sits one row below its parent of record. The source's `newDepth`
   * argument is unused.
   */
  method RefreshDepth(parent: map<int32, int32>, children: map<int32, seq<int32>>, ghost s: Shape, x: int32,
                      d: map<int32, int>, newDepth: int)
    returns (rows: map<int32, int>)
    requires Linked(s) && parent == s.parent && children == s.children && x in children
    requires forall k :: k in children ==> k in d
    ensures rows.Keys == d.Keys && RowedBelow(s, x, rows) && SameOutside(s, x, rows, d)
  {
    rows := d;
    ghost var done: set<int32> := {};
    RowWalkStart(s, x, rows);
    var queue := children[x];
    while queue != []
      invariant Queued(s, x, queue, done) && Refreshed(s, x, done, rows)
      invariant Reached(s, x, queue, done) && Kept(s, done, rows, d)
      decreases Backlog(s, queue)
    {
      queue, rows, done := RerowStep(parent, children, s, x, queue, rows, done, d);
    }
    RowWalkDone(s, x, done, rows, d);
  }

  /** One pass of RefreshDepth's loop: the head of the queue moves one row below its parent. */
  method RerowStep(parent: map<int32, int32>, children: map<int32, seq<int32>>, ghost s: Shape, x: int32,
                   queue: seq<int32>, rows: map<int32, int>, ghost done: set<int32>, ghost d: map<int32, int>)
    returns (queue': seq<int32>, rows': map<int32, int>, ghost done': set<int32>)
    requires Linked(s) && parent == s.parent && children == s.children && x in children && queue != []
    requires Queued(s, x, queue, done) && Refreshed(s, x, done, rows)
    requires Reached(s, x, queue, done) && Kept(s, done, rows, d)
    ensures Queued(s, x, queue', done') && Refreshed(s, x, done', rows')
    ensures Reached(s, x, queue', done') && Kept(s, done', rows', d)
    ensures forall q :: q in queue' ==> q in s.children
    ensures Backlog(s, queue') < Backlog(s, queue)
  {
    var sub := queue[0];
    BacklogStep(s, queue);
    QueuedStep(s, x, queue, done);
    RefreshedStep(s, x, queue, done, rows);
    ReachedStep(s, x, queue, done);
    KeptStep(s, queue, done, rows, d, rows[parent[sub]] + 1);
    queue' := queue[1..] + children[sub];
    rows' := rows[sub := rows[parent[sub]] + 1];
    done' := done + {sub};
  }

  /**
   * The rows of the PlacementNodes `s` over the timeline nodes `ns` from the origin `o`: one
   * PlacementNode for each node the origin reaches, linked along descendant edges into a tree
   * below `o`; every node is at least a row below its parent, and its row is at least its
   * breadth-first distance from the origin (some path reaches it in no more edges than its
   * row). Without reparenting the origin is on row 0 and every node on the row
   * of its breadth-first distance from the origin.
   */
  ghost predicate Rooted(ns: NodeMap, o: int32, reparenting: bool, s: Shape, depth: map<int32, int>)
  {
    Tree(s, o) && Distinct(s)
    && (forall k :: k in s.children ==> k in depth)
    && (forall y :: y in s.children <==> Reachable(ns, o, y))
    && Edges(ns, s.parent)
    && RowsDescend(s, depth)
    && (forall y :: y in s.children ==> ReachableWithin(ns, o, y, depth[y]))
    && (!reparenting ==> depth[o] == 0 && forall y :: y in s.children ==> Distance(ns, o, y, depth[y]))
  }

  /**
   * The spans of the PlacementNodes `s` below the origin `o`, with Depths `depth`, Widths
   * `width` and WidthOffsets `off`: a leaf is 1 wide and any other node exactly as wide as its
   * children together; each node's children tile its span in child order, the origin's
   * centred on 0; every node is placed at (WidthOffset, Depth).
   */
  ghost predicate Spanned(s: Shape, o: int32, depth: map<int32, int>, width: map<int32, int>,
                          off: map<int32, real>, places: map<int32, Vector2>)
  {
    Linked(s) && o in off
    && (forall k :: k in s.children ==> k in depth && k in width && k in off)
    && places.Keys == s.children.Keys
    && (forall k :: k in s.children ==> places[k] == Vector2(off[k], depth[k] as real))
    && (forall k :: k in s.children ==>
          width[k] == (if s.children[k] == [] then 1 else 0) + WidthSum(width, s.children[k]) && width[k] >= 1)
    && off[o] == 0.0
    && (forall k :: k in s.children ==> Tiles(width, off, k, s.children[k]))
  }

  /** What GetNodePlacement leaves: the rows and the spans above. */
  ghost predicate Layout(ns: NodeMap, o: int32, reparenting: bool, s: Shape, depth: map<int32, int>,
                         width: map<int32, int>, off: map<int32, real>, places: map<int32, Vector2>)
  {
    Rooted(ns, o, reparenting, s, depth) && Spanned(s, o, depth, width, off, places)
  }

  /**
   * What the discovery loop leaves, in terms of the timeline: the rows above, the nodes listed
   * in creation order, and every leaf 1 wide and every other node 0.
   */
  lemma Discovered(ns: NodeMap, o: int32, tight: bool, g: Grove, s: Shape, reverse: seq<int32>)
    requires Walking(ns, o, tight, g, s, reverse, [], |reverse|)
    ensures Formed(g, s, o) && Listing(s, reverse) && Rooted(ns, o, !tight, s, g.depth)
    ensures forall k :: k in s.children ==> g.width[k] == if s.children[k] == [] then 1 else 0
  {
    OrderDone(s, reverse);
    DiscoveryMeans(ns, s, o, g.depth, tight);
  }

  /** The discovery loop, then the reverse pass and the top-down pass, give the layout. */
  lemma LaidOut(ns: NodeMap, o: int32, tight: bool, g: Grove, s: Shape, reverse: seq<int32>,
                width: map<int32, int>, off: map<int32, real>, places: map<int32, Vector2>)
    requires Walking(ns, o, tight, g, s, reverse, [], |reverse|)
    requires width.Keys == g.width.Keys
    requires forall k :: k in s.children ==> width[k] == g.width[k] + WidthSum(width, s.children[k])
    requires off.Keys == s.children.Keys && off[o] == 0.0 && places.Keys == s.children.Keys
    requires forall k :: k in s.children ==> places[k] == Vector2(off[k], g.depth[k] as real)
    requires forall k :: k in s.children ==> Tiles(width, off, k, s.children[k])
    ensures Layout(ns, o, !tight, s, g.depth, width, off, places)
  {
    Discovered(ns, o, tight, g, s, reverse);
    SpannedBy(s, o, g.depth, g.width, width, off, places);
  }

  /** The reverse pass from leaf widths, then the top-down pass, give the spans. */
  lemma SpannedBy(s: Shape, o: int32, depth: map<int32, int>, w0: map<int32, int>, width: map<int32, int>,
                  off: map<int32, real>, places: map<int32, Vector2>)
    requires Tree(s, o) && s.children.Keys <= depth.Keys && s.children.Keys <= w0.Keys && width.Keys == w0.Keys
    requires forall k :: k in s.children ==> w0[k] == if s.children[k] == [] then 1 else 0
    requires forall k :: k in s.children ==> width[k] == w0[k] + WidthSum(width, s.children[k])
    requires off.Keys == s.children.Keys && off[o] == 0.0 && places.Keys == s.children.Keys
    requires forall k :: k in s.children ==> places[k] == Vector2(off[k], depth[k] as real)
    requires forall k :: k in s.children ==> Tiles(width, off, k, s.children[k])
    ensures Spanned(s, o, depth, width, off, places)
  {
    WidenedWidths(s, w0, width);
  }

  /**
   * Within the spans, the children of a node `k` sit edge to edge in child order, the first
   * at the left edge of `k` and the last at its right edge.
   */
  lemma SpannedAdjacent(s: Shape, o: int32, depth: map<int32, int>, width: map<int32, int>,
                        off: map<int32, real>, places: map<int32, Vector2>, k: int32)
    requires Spanned(s, o, depth, width, off, places) && k in s.children && s.children[k] != []
    ensures var cs := s.children[k];
      (forall i :: 0 <= i < |cs| - 1 ==>
         off[cs[i]] + width[cs[i]] as real / 2.0 == off[cs[i + 1]] - width[cs[i + 1]] as real / 2.0)
      && off[cs[0]] - width[cs[0]] as real / 2.0 == off[k] - width[k] as real / 2.0
      && off[cs[|cs| - 1]] + width[cs[|cs| - 1]] as real / 2.0 == off[k] + width[k] as real / 2.0
  {
    TilesCover(width, off, k, s.children[k]);
  }

  /** The layout GetNodePlacement leaves in the PlacementTree `tree`, with the positions `places`. */
  ghost predicate Placement(ns: NodeMap, o: int32, reparenting: bool, tree: PlacementTree, places: map<int32, Vector2>)
    reads tree
  {
    tree.Valid() && tree.root == o
    && Layout(ns, o, reparenting, tree.shape, tree.depth, tree.width, tree.widthOffset, places)
  }

  /** HamNodePlacer: lays out the nodes of one timeline. */
  class NodePlacer {
    const timeline: TimelineData
    const attemptReparenting: bool

    constructor (timeline: TimelineData, attemptReparenting: bool)
      ensures this.timeline == timeline && this.attemptReparenting == attemptReparenting
    {
      this.timeline := timeline;
      this.attemptReparenting := attemptReparenting;
    }

    /**
     * GetNodePlacement: the position of every node the origin reaches, or None where the source
     * throws, which is exactly when the origin or some node it reaches is missing. The tree of
     * PlacementNodes is returned beside the positions.
     */
    method GetNodePlacement() returns (places: Option<map<int32, Vector2>>, tree: PlacementTree?)
      requires KeysMatch(timeline.nodes)
      ensures places.None? <==> exists y :: Reachable(timeline.nodes, timeline.originNodeID, y) && y !in timeline.nodes
      ensures places.Some? ==> tree != null && Placement(timeline.nodes, timeline.originNodeID, attemptReparenting, tree, places.value)
    {
      var ns, o := timeline.nodes, timeline.originNodeID;
      tree := null;
      if o !in ns {
        assert IsPath(ns, [o]);
        return None, null;
      }
      var g, reverse, ok;
      ghost var s;
      g, s, reverse, ok := Discover(ns, o, !attemptReparenting);
      if !ok {
        return None, null;
      }
      Discovered(ns, o, !attemptReparenting, g, s, reverse);
      tree := new PlacementTree(o, g, s);
      tree.Widen(reverse);
      var laid := tree.Spread();
      LaidOut(ns, o, !attemptReparenting, g, s, reverse, tree.width, tree.widthOffset, laid);
      places := Some(laid);
    }
  }
}
