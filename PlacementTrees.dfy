/**
 * The parent-of-record tree that the editor's node placer (Editor/HamNodePlacer.cs) builds out
 * of PlacementNode objects, as values: each placed node's Parent, its list of Children, and,
 * as ghost bookkeeping only, the order the PlacementNodes were created in. Every parent is
 * created before its children, which is what makes the traversals of the tree terminate.
 *
 * Also here: paths along a timeline's descendant edges, which say what "reachable from the
 * origin" and "breadth-first distance" mean, and the width sums the placer lays children by.
 */
module PlacementTrees {
  import opened Serializer
  import opened Lists
  import opened Nodes
  import opened Graphs

  datatype Shape = Shape(parent: map<int32, int32>, children: map<int32, seq<int32>>, rank: map<int32, nat>, count: nat)

  /** Every parent was created before its child. */
  ghost predicate Ranked(s: Shape)
  {
    forall k :: k in s.parent ==> k in s.rank && s.parent[k] in s.rank && s.rank[s.parent[k]] < s.rank[k]
  }

  /** Parent and Children agree, and every parent was created before its children. */
  ghost predicate Linked(s: Shape)
  {
    Ranked(s) && s.children.Keys == s.rank.Keys
    && (forall k :: k in s.rank ==> s.rank[k] < s.count)
    && (forall k {:trigger Listed(s, k)} :: k in s.parent ==> Listed(s, k))
    && (forall k, i :: k in s.children && 0 <= i < |s.children[k]| ==> s.children[k][i] in s.parent && s.parent[s.children[k][i]] == k)
  }

  /**
   * `k` is among the Children of its parent of record. (Linked states this behind this name
   * so that the solver uses it only where a proof asks for it.)
   */
  ghost predicate Listed(s: Shape, k: int32)
    requires k in s.parent && s.parent[k] in s.children
  {
    k in s.children[s.parent[k]]
  }

  /** No node is listed twice among its parent's children. */
  ghost predicate Distinct(s: Shape)
  {
    forall k :: k in s.children ==> NoDup(s.children[k])
  }

  /** `k` has a parent of record. */
  ghost predicate HasParent(s: Shape, k: int32)
  {
    k in s.parent
  }

  /**
   * A tree: a linked shape in which `root` is the only node without a parent. (The last
   * conjunct is used only where a proof asks whether a node has a parent: it would
   * otherwise have the solver walk up parent chains without end.)
   */
  ghost predicate Tree(s: Shape, root: int32)
  {
    Linked(s) && root in s.children && root !in s.parent
    && forall k {:trigger HasParent(s, k)} :: k in s.children && k != root ==> HasParent(s, k)
  }

  /** `y` is `x` or lies in the subtree below `x`: following Parent from `y` meets `x`. */
  ghost predicate Under(s: Shape, y: int32, x: int32)
    requires Ranked(s)
    decreases if y in s.rank then s.rank[y] + 1 else 0
  {
    y == x || (y in s.parent && Under(s, s.parent[y], x))
  }

  /** A node below `x` was created no earlier than `x`. */
  lemma {:induction false} UnderRank(s: Shape, y: int32, x: int32)
    requires Ranked(s) && x in s.rank && Under(s, y, x)
    ensures y in s.rank && s.rank[x] <= s.rank[y]
    decreases if y in s.rank then s.rank[y] else 0
  {
    if y != x {
      UnderRank(s, s.parent[y], x);
    }
  }

  /** Being below is transitive. */
  lemma {:induction false} UnderTrans(s: Shape, y: int32, z: int32, x: int32)
    requires Ranked(s) && Under(s, y, z) && Under(s, z, x)
    ensures Under(s, y, x)
    decreases if y in s.rank then s.rank[y] else 0
  {
    if y != z {
      UnderTrans(s, s.parent[y], z, x);
    }
  }

  /** In a tree every node lies below the root. */
  lemma {:induction false} UnderRoot(s: Shape, root: int32, y: int32)
    requires Tree(s, root) && y in s.children
    ensures Under(s, y, root)
    decreases s.rank[y]
  {
    if y != root {
      assert HasParent(s, y);
      UnderRoot(s, root, s.parent[y]);
    }
  }

  /** The number of nodes in the subtree of `x` (ghost: it only measures the traversals). */
  ghost function Size(s: Shape, x: int32): nat
    requires Linked(s) && x in s.children
    decreases s.count - s.rank[x], 1
  {
    1 + SizeOf(s, x, s.children[x])
  }

  ghost function SizeOf(s: Shape, x: int32, cs: seq<int32>): nat
    requires Linked(s) && x in s.children && forall c :: c in cs ==> c in s.children[x]
    decreases s.count - s.rank[x], 0, |cs|
  {
    if cs == [] then 0
    else
      assert cs[0] in s.children[x] && s.parent[cs[0]] == x;
      Size(s, cs[0]) + SizeOf(s, x, cs[1..])
  }

  /** The nodes a traversal queue `qs` still has to visit, counted with their subtrees. */
  ghost function Backlog(s: Shape, qs: seq<int32>): nat
    requires Linked(s) && forall q :: q in qs ==> q in s.children
  {
    if qs == [] then 0 else Size(s, qs[0]) + Backlog(s, qs[1..])
  }

  lemma {:induction false} SizeOfIsBacklog(s: Shape, x: int32, cs: seq<int32>)
    requires Linked(s) && x in s.children && forall c :: c in cs ==> c in s.children[x]
    ensures forall c :: c in cs ==> c in s.children
    ensures SizeOf(s, x, cs) == Backlog(s, cs)
    decreases |cs|
  {
    if cs != [] {
      SizeOfIsBacklog(s, x, cs[1..]);
    }
  }

  lemma {:induction false} BacklogConcat(s: Shape, a: seq<int32>, b: seq<int32>)
    requires Linked(s) && (forall q :: q in a ==> q in s.children) && forall q :: q in b ==> q in s.children
    ensures Backlog(s, a + b) == Backlog(s, a) + Backlog(s, b)
    decreases |a|
  {
    if a != [] {
      assert (a + b)[0] == a[0] && (a + b)[1..] == a[1..] + b;
      BacklogConcat(s, a[1..], b);
      assert Backlog(s, a + b) == Size(s, a[0]) + Backlog(s, a[1..] + b);
      assert Backlog(s, a) == Size(s, a[0]) + Backlog(s, a[1..]);
    } else {
      assert a + b == b;
    }
  }

  /** Taking the head off a queue and appending its children shrinks the backlog by one. */
  lemma BacklogStep(s: Shape, qs: seq<int32>)
    requires Linked(s) && qs != [] && forall q :: q in qs ==> q in s.children
    ensures forall c :: c in s.children[qs[0]] ==> c in s.children
    ensures Backlog(s, qs[1..] + s.children[qs[0]]) == Backlog(s, qs) - 1
  {
    SizeOfIsBacklog(s, qs[0], s.children[qs[0]]);
    BacklogConcat(s, qs[1..], s.children[qs[0]]);
  }

  /** The children of a node strictly below `x` are strictly below `x`. */
  lemma ChildrenStayBelow(s: Shape, y: int32, x: int32)
    requires Linked(s) && x in s.children && y in s.children && Under(s, y, x)
    ensures forall c :: c in s.children[y] ==> Under(s, c, x) && c != x
  {
    forall c | c in s.children[y]
      ensures Under(s, c, x) && c != x
    {
      assert Under(s, c, y);
      UnderTrans(s, c, y, x);
      UnderRank(s, y, x);
    }
  }

  /** Every node strictly below `x` sits one row below its parent of record. */
  ghost predicate RowedBelow(s: Shape, x: int32, d: map<int32, int>)
    requires Ranked(s)
  {
    forall y :: y in s.children && Under(s, y, x) && y != x ==>
      y in s.parent && y in d && s.parent[y] in d && d[y] == d[s.parent[y]] + 1
  }

  /** Every node outside the subtree strictly below `x` has the same row in `d` as in `d0`. */
  ghost predicate SameOutside(s: Shape, x: int32, d: map<int32, int>, d0: map<int32, int>)
    requires Ranked(s)
  {
    forall y :: y in s.children && !(Under(s, y, x) && y != x) ==> y in d && y in d0 && d[y] == d0[y]
  }

  /*
   * The state of RefreshDepth's walk below `x` with queue `qs`, having refreshed the rows of
   * the nodes `done`, is described by the four predicates below.
   */

  /** Every queued node lies strictly below `x` and hangs from `x` or from a refreshed node. */
  ghost predicate Queued(s: Shape, x: int32, qs: seq<int32>, done: set<int32>)
    requires Ranked(s)
  {
    forall q :: q in qs ==>
      q in s.children && Under(s, q, x) && q != x && q in s.parent && (s.parent[q] == x || s.parent[q] in done)
  }

  /**
   * Every refreshed node lies strictly below `x`, hangs from `x` or from a refreshed node, and
   * sits one row below its parent of record.
   */
  ghost predicate Refreshed(s: Shape, x: int32, done: set<int32>, d: map<int32, int>)
    requires Ranked(s)
  {
    forall y :: y in done ==>
      y in s.children && Under(s, y, x) && y != x && y in s.parent && (s.parent[y] == x || s.parent[y] in done)
      && y in d && s.parent[y] in d && d[y] == d[s.parent[y]] + 1
  }

  /** The children of `x` and of every refreshed node are refreshed or queued. */
  ghost predicate Reached(s: Shape, x: int32, qs: seq<int32>, done: set<int32>)
  {
    forall y, i :: (y == x || y in done) && y in s.children && 0 <= i < |s.children[y]| ==>
      s.children[y][i] in done || s.children[y][i] in qs
  }

  /** Every node that is not refreshed keeps its row from `d0`. */
  ghost predicate Kept(s: Shape, done: set<int32>, d: map<int32, int>, d0: map<int32, int>)
  {
    d.Keys == d0.Keys && (forall k :: k in s.children ==> k in d) && forall y :: y in d && y !in done ==> d[y] == d0[y]
  }

  /** The walk starts from the children of `x`, with nothing refreshed yet. */
  lemma RowWalkStart(s: Shape, x: int32, d: map<int32, int>)
    requires Linked(s) && x in s.children && forall k :: k in s.children ==> k in d
    ensures Queued(s, x, s.children[x], {}) && Refreshed(s, x, {}, d) && Reached(s, x, s.children[x], {}) && Kept(s, {}, d, d)
  {
    ChildrenStayBelow(s, x, x);
    forall q | q in s.children[x]
      ensures q in s.parent && s.parent[q] == x
    {
      var i :| 0 <= i < |s.children[x]| && s.children[x][i] == q;
    }
  }

  /** Dequeueing the head and enqueueing its children keeps the queue strictly below `x`. */
  lemma QueuedStep(s: Shape, x: int32, qs: seq<int32>, done: set<int32>)
    requires Linked(s) && x in s.children && qs != [] && Queued(s, x, qs, done)
    ensures Queued(s, x, qs[1..] + s.children[qs[0]], done + {qs[0]})
  {
    var sub := qs[0];
    assert sub in qs;
    ChildrenStayBelow(s, sub, x);
    forall q | q in qs[1..] + s.children[sub]
      ensures q in s.children && Under(s, q, x) && q != x && q in s.parent && (s.parent[q] == x || s.parent[q] in done + {sub})
    {
      if q in s.children[sub] {
        var i :| 0 <= i < |s.children[sub]| && s.children[sub][i] == q;
      } else {
        assert q in qs[1..];
      }
    }
  }

  /** Putting the head of the queue one row below its parent refreshes it for good. */
  lemma RefreshedStep(s: Shape, x: int32, qs: seq<int32>, done: set<int32>, d: map<int32, int>)
    requires Linked(s) && qs != [] && Queued(s, x, qs, done) && Refreshed(s, x, done, d)
    requires forall k :: k in s.children ==> k in d
    ensures qs[0] in s.parent && s.parent[qs[0]] in d
    ensures Refreshed(s, x, done + {qs[0]}, d[qs[0] := d[s.parent[qs[0]]] + 1])
  {
    var sub := qs[0];
    assert sub in qs;
    assert s.parent[sub] != sub;
  }

  lemma ReachedStep(s: Shape, x: int32, qs: seq<int32>, done: set<int32>)
    requires qs != [] && qs[0] in s.children && Reached(s, x, qs, done)
    ensures Reached(s, x, qs[1..] + s.children[qs[0]], done + {qs[0]})
  {
    var sub := qs[0];
    forall y, i | (y == x || y in done + {sub}) && y in s.children && 0 <= i < |s.children[y]|
      ensures s.children[y][i] in done + {sub} || s.children[y][i] in qs[1..] + s.children[sub]
    {
      if y != sub {
        InCons(qs, s.children[y][i]);
      }
    }
  }

  lemma KeptStep(s: Shape, qs: seq<int32>, done: set<int32>, d: map<int32, int>, d0: map<int32, int>, v: int)
    requires qs != [] && qs[0] in d && Kept(s, done, d, d0)
    ensures Kept(s, done + {qs[0]}, d[qs[0] := v], d0)
  {
  }

  /** A set holding `x` and closed under Children holds the whole subtree below `x`. */
  lemma {:induction false} ClosedHoldsSubtree(s: Shape, x: int32, done: set<int32>, y: int32)
    requires Linked(s) && x in s.children && y in s.children && Under(s, y, x)
    requires forall z, i :: (z == x || z in done) && z in s.children && 0 <= i < |s.children[z]| ==> s.children[z][i] in done
    ensures y == x || y in done
    decreases s.rank[y]
  {
    if y != x {
      var p := s.parent[y];
      assert Listed(s, y);
      ClosedHoldsSubtree(s, x, done, p);
      var i :| 0 <= i < |s.children[p]| && s.children[p][i] == y;
    }
  }

  /** When the queue runs out, every row below `x` is refreshed and no other row changed. */
  lemma RowWalkDone(s: Shape, x: int32, done: set<int32>, d: map<int32, int>, d0: map<int32, int>)
    requires Linked(s) && x in s.children && Refreshed(s, x, done, d) && Reached(s, x, [], done) && Kept(s, done, d, d0)
    ensures d.Keys == d0.Keys && RowedBelow(s, x, d) && SameOutside(s, x, d, d0)
  {
    forall y | y in s.children && Under(s, y, x) && y != x
      ensures y in done
    {
      ClosedHoldsSubtree(s, x, done, y);
    }
  }

  /** Every node sits at least one row below its parent of record. */
  ghost predicate RowsDescend(s: Shape, d: map<int32, int>)
  {
    forall k :: k in s.parent ==> k in d && s.parent[k] in d && d[k] >= d[s.parent[k]] + 1
  }

  /**
   * Moving `x` down and putting every node strictly below it one row below its parent keeps
   * every node at least a row below its parent, when nothing outside the subtree moved.
   */
  lemma {:induction false} SubtreeMoveDescends(s: Shape, x: int32, d0: map<int32, int>, d: map<int32, int>)
    requires Linked(s) && x in s.children && RowsDescend(s, d0)
    requires x in d && x in d0 && d[x] >= d0[x] && RowedBelow(s, x, d)
    requires forall y :: y in s.children && !Under(s, y, x) ==> y in d && y in d0 && d[y] == d0[y]
    ensures RowsDescend(s, d)
  {
    forall k | k in s.parent
      ensures k in d && s.parent[k] in d && d[k] >= d[s.parent[k]] + 1
    {
      assert k in s.children && s.parent[k] in s.children;
      if Under(s, s.parent[k], x) {
        assert Under(s, k, x);
        UnderRank(s, s.parent[k], x);
      } else if k != x && !Under(s, k, x) {
        assert d[k] == d0[k];
      }
    }
  }

  /** The total width of the nodes `cs`. */
  function WidthSum(w: map<int32, int>, cs: seq<int32>): int
    requires forall c :: c in cs ==> c in w
  {
    if cs == [] then 0 else WidthSum(w, cs[..|cs| - 1]) + w[cs[|cs| - 1]]
  }

  /** The total width of those of `cs` created at position `k` or later. */
  ghost function Settled(w: map<int32, int>, rank: map<int32, nat>, cs: seq<int32>, k: nat): int
    requires forall c :: c in cs ==> c in w && c in rank
  {
    if cs == [] then 0
    else Settled(w, rank, cs[..|cs| - 1], k) + (if rank[cs[|cs| - 1]] >= k then w[cs[|cs| - 1]] else 0)
  }

  lemma {:induction false} SettledAll(w: map<int32, int>, rank: map<int32, nat>, cs: seq<int32>)
    requires forall c :: c in cs ==> c in w && c in rank
    ensures Settled(w, rank, cs, 0) == WidthSum(w, cs)
    decreases |cs|
  {
    if cs != [] {
      SettledAll(w, rank, cs[..|cs| - 1]);
    }
  }

  /** None of `cs` was created at position `k` or later: nothing is counted. */
  lemma {:induction false} SettledNone(w: map<int32, int>, rank: map<int32, nat>, cs: seq<int32>, k: nat)
    requires forall c :: c in cs ==> c in w && c in rank && rank[c] < k
    ensures Settled(w, rank, cs, k) == 0
    decreases |cs|
  {
    if cs != [] {
      SettledNone(w, rank, cs[..|cs| - 1], k);
    }
  }

  /** Only the widths of the nodes counted matter. */
  lemma {:induction false} SettledFrame(w: map<int32, int>, w': map<int32, int>, rank: map<int32, nat>, cs: seq<int32>, k: nat)
    requires forall c :: c in cs ==> c in w && c in w' && c in rank
    requires forall c :: c in cs && rank[c] >= k ==> w[c] == w'[c]
    ensures Settled(w, rank, cs, k) == Settled(w', rank, cs, k)
    decreases |cs|
  {
    if cs != [] {
      SettledFrame(w, w', rank, cs[..|cs| - 1], k);
    }
  }

  /** Lowering the threshold past `cur`'s position adds `cur`'s width if `cur` is one of `cs`. */
  lemma {:induction false} SettledStep(w: map<int32, int>, rank: map<int32, nat>, cs: seq<int32>, k: nat, cur: int32)
    requires forall c :: c in cs ==> c in w && c in rank
    requires cur in w && cur in rank && rank[cur] == k && NoDup(cs)
    requires forall c :: c in cs && rank[c] == k ==> c == cur
    ensures Settled(w, rank, cs, k) == Settled(w, rank, cs, k + 1) + (if cur in cs then w[cur] else 0)
    decreases |cs|
  {
    if cs != [] {
      var init := cs[..|cs| - 1];
      InitDistinct(cs);
      SettledStep(w, rank, init, k, cur);
      assert cur in cs <==> cur in init || cs[|cs| - 1] == cur by {
        assert cs == init + [cs[|cs| - 1]];
      }
    }
  }

  /**
   * The state of the reverse pass when the nodes created at position `n` or later have been
   * popped: every node is as wide as its width `w0` before the pass plus those of its
   * children that have been popped.
   */
  ghost predicate Widened(s: Shape, w: map<int32, int>, w0: map<int32, int>, n: nat)
    requires Linked(s)
  {
    (forall k :: k in s.children ==> k in w && k in w0)
    && forall k :: k in s.children ==> w[k] == w0[k] + Settled(w, s.rank, s.children[k], n)
  }

  /** `order` lists the nodes of `s` in the order they were created. */
  ghost predicate Listing(s: Shape, order: seq<int32>)
  {
    |order| == s.count
    && (forall i :: 0 <= i < |order| ==> order[i] in s.rank && s.rank[order[i]] == i)
    && forall k :: k in s.rank ==> s.rank[k] < |order| && order[s.rank[k]] == k
  }

  /** Before the reverse pass nothing has been popped. */
  lemma WidenStart(s: Shape, w0: map<int32, int>)
    requires Linked(s) && s.children.Keys <= w0.Keys
    ensures Widened(s, w0, w0, s.count)
  {
    forall k | k in s.children
      ensures Settled(w0, s.rank, s.children[k], s.count) == 0
    {
      SettledNone(w0, s.rank, s.children[k], s.count);
    }
  }

  /** After the reverse pass every node is its initial width wider than its children together. */
  lemma WidenDone(s: Shape, w: map<int32, int>, w0: map<int32, int>)
    requires Linked(s) && Widened(s, w, w0, 0)
    ensures forall k :: k in s.children ==> w[k] == w0[k] + WidthSum(w, s.children[k])
  {
    forall k | k in s.children
      ensures w[k] == w0[k] + WidthSum(w, s.children[k])
    {
      SettledAll(w, s.rank, s.children[k]);
    }
  }

  /** The widths after `cur` is popped: its width is added to its parent's, if it has one. */
  function Popped(parent: map<int32, int32>, w: map<int32, int>, cur: int32): map<int32, int>
    requires cur in w && (cur in parent ==> parent[cur] in w)
  {
    if cur in parent then w[parent[cur] := w[parent[cur]] + w[cur]] else w
  }

  /**
   * Popping the node `cur` created at position n - 1 adds its width to its parent's, and
   * leaves every node as wide as its popped children make it.
   */
  lemma WidenStep(s: Shape, w: map<int32, int>, w0: map<int32, int>, n: nat, cur: int32)
    requires Linked(s) && Distinct(s) && n > 0 && cur in s.rank && s.rank[cur] == n - 1
    requires forall c :: c in s.rank && s.rank[c] == n - 1 ==> c == cur
    requires Widened(s, w, w0, n)
    ensures cur in w && (cur in s.parent ==> s.parent[cur] in w)
    ensures Widened(s, Popped(s.parent, w, cur), w0, n - 1)
  {
    var w' := Popped(s.parent, w, cur);
    forall k | k in s.children
      ensures w'[k] == w0[k] + Settled(w', s.rank, s.children[k], n - 1)
    {
      var cs := s.children[k];
      assert forall c :: c in cs ==> c in s.parent && s.parent[c] == k && c in s.children;
      SettledFrame(w, w', s.rank, cs, n);
      SettledStep(w', s.rank, cs, n - 1, cur);
      if cur in s.parent {
        assert s.rank[s.parent[cur]] < n - 1;
        assert cur in cs <==> k == s.parent[cur] by {
          if k == s.parent[cur] {
            assert Listed(s, cur);
          }
        }
      } else {
        assert cur !in cs;
      }
    }
  }

  /** Dropping the last element keeps a list free of duplicates, and the last is not in the rest. */
  lemma InitDistinct<T>(cs: seq<T>)
    requires NoDup(cs) && cs != []
    ensures NoDup(cs[..|cs| - 1]) && cs[|cs| - 1] !in cs[..|cs| - 1]
  {
    var init := cs[..|cs| - 1];
    forall i | 0 <= i < |init| ensures init[i] != cs[|cs| - 1] {
      assert init[i] == cs[i];
    }
  }

  /**
   * The children `cs` of `p` tile `p`'s span: child i's left edge lies where `p`'s left edge
   * plus the widths of the children before it ends.
   */
  ghost predicate Tiles(w: map<int32, int>, off: map<int32, real>, p: int32, cs: seq<int32>)
    requires p in w && p in off && forall c :: c in cs ==> c in w && c in off
  {
    forall i :: 0 <= i < |cs| ==>
      off[cs[i]] - w[cs[i]] as real / 2.0 == off[p] - w[p] as real / 2.0 + WidthSum(w, cs[..i]) as real
  }

  /**
   * Tiled children sit side by side in child order, the first at the parent's left edge and,
   * when the parent is as wide as its children together, the last at its right edge.
   */
  lemma TilesCover(w: map<int32, int>, off: map<int32, real>, p: int32, cs: seq<int32>)
    requires p in w && p in off && (forall c :: c in cs ==> c in w && c in off) && Tiles(w, off, p, cs)
    ensures forall i :: 0 <= i < |cs| - 1 ==>
      off[cs[i]] + w[cs[i]] as real / 2.0 == off[cs[i + 1]] - w[cs[i + 1]] as real / 2.0
    ensures cs != [] ==> off[cs[0]] - w[cs[0]] as real / 2.0 == off[p] - w[p] as real / 2.0
    ensures cs != [] && w[p] == WidthSum(w, cs) ==>
      off[cs[|cs| - 1]] + w[cs[|cs| - 1]] as real / 2.0 == off[p] + w[p] as real / 2.0
  {
    forall i | 0 <= i < |cs| - 1
      ensures off[cs[i]] + w[cs[i]] as real / 2.0 == off[cs[i + 1]] - w[cs[i + 1]] as real / 2.0
    {
      assert cs[..i + 1][..i] == cs[..i];
    }
    if cs != [] {
      assert cs[..0] == [];
      assert cs[..|cs|] == cs;
      assert cs[..|cs|][..|cs| - 1] == cs[..|cs| - 1];
    }
  }

  /**
   * `p` follows descendant edges: every id but the last names a stored node, and the next id
   * is among that node's descendant ids.
   */
  ghost predicate IsPath(ns: NodeMap, p: seq<int32>)
  {
    |p| > 0 && forall i :: 0 <= i < |p| - 1 ==> p[i] in ns && p[i + 1] in DescendantIDs(ns[p[i]])
  }

  /** Some path of descendant edges leads from `origin` to `y`. */
  ghost predicate Reachable(ns: NodeMap, origin: int32, y: int32)
  {
    exists p :: IsPath(ns, p) && p[0] == origin && p[|p| - 1] == y
  }

  /** A path extended by one more edge. */
  lemma PathSnoc(ns: NodeMap, p: seq<int32>, d: int32)
    requires IsPath(ns, p) && p[|p| - 1] in ns && d in DescendantIDs(ns[p[|p| - 1]])
    ensures IsPath(ns, p + [d]) && (p + [d])[0] == p[0] && (p + [d])[|p|] == d
  {
    var q := p + [d];
    forall i | 0 <= i < |q| - 1
      ensures q[i] in ns && q[i + 1] in DescendantIDs(ns[q[i]])
    {
      if i < |p| - 1 {
        assert q[i] == p[i] && q[i + 1] == p[i + 1];
      }
    }
  }

  /** A set that holds a path's first id and is closed under descendant edges holds its last. */
  lemma {:induction false} ClosedHoldsPath(ns: NodeMap, keys: set<int32>, p: seq<int32>)
    requires IsPath(ns, p) && p[0] in keys
    requires forall x, d :: x in keys && x in ns && d in DescendantIDs(ns[x]) ==> d in keys
    ensures p[|p| - 1] in keys
    decreases |p|
  {
    if |p| > 1 {
      var init := p[..|p| - 1];
      assert IsPath(ns, init) by {
        forall i | 0 <= i < |init| - 1
          ensures init[i] in ns && init[i + 1] in DescendantIDs(ns[init[i]])
        {
          assert init[i] == p[i] && init[i + 1] == p[i + 1];
        }
      }
      ClosedHoldsPath(ns, keys, init);
      assert p[|p| - 2] in ns && p[|p| - 1] in DescendantIDs(ns[p[|p| - 2]]);
    }
  }

  /**
   * Along a path whose every edge x -> d has depth[d] <= depth[x] + 1, the depth grows by at
   * most one per edge.
   */
  lemma {:induction false} DepthAlongPath(ns: NodeMap, depth: map<int32, int>, p: seq<int32>)
    requires IsPath(ns, p) && p[0] in depth
    requires forall x, d :: x in depth && x in ns && d in DescendantIDs(ns[x]) ==> d in depth && depth[d] <= depth[x] + 1
    ensures p[|p| - 1] in depth && depth[p[|p| - 1]] <= depth[p[0]] + |p| - 1
    decreases |p|
  {
    if |p| > 1 {
      var init := p[..|p| - 1];
      assert IsPath(ns, init) by {
        forall i | 0 <= i < |init| - 1
          ensures init[i] in ns && init[i + 1] in DescendantIDs(ns[init[i]])
        {
          assert init[i] == p[i] && init[i + 1] == p[i + 1];
        }
      }
      DepthAlongPath(ns, depth, init);
      assert p[|p| - 2] in ns && p[|p| - 1] in DescendantIDs(ns[p[|p| - 2]]);
    }
  }

  /** The chain of parents of record from the root down to `y`. */
  ghost function Lineage(s: Shape, y: int32): (p: seq<int32>)
    requires Ranked(s)
    ensures |p| > 0 && p[|p| - 1] == y
    decreases if y in s.rank then s.rank[y] + 1 else 0
  {
    if y in s.parent then Lineage(s, s.parent[y]) + [y] else [y]
  }

  /**
   * When every parent-of-record link is a descendant edge of the timeline, the lineage of a
   * node is a path from the root to it; when moreover every node sits one row below its
   * parent, the path is one longer than the node is deep.
   */
  lemma {:induction false} LineageIsPath(s: Shape, root: int32, ns: NodeMap, depth: map<int32, int>, y: int32)
    requires Tree(s, root) && y in s.children
    requires forall k :: k in s.parent ==> s.parent[k] in ns && k in DescendantIDs(ns[s.parent[k]])
    requires s.children.Keys <= depth.Keys
    ensures IsPath(ns, Lineage(s, y)) && Lineage(s, y)[0] == root
    ensures (depth[root] == 0 && forall k :: k in s.parent ==> depth[k] == depth[s.parent[k]] + 1)
      ==> |Lineage(s, y)| == depth[y] + 1
    decreases s.rank[y]
  {
    if y in s.parent {
      var x := s.parent[y];
      LineageIsPath(s, root, ns, depth, x);
      PathSnoc(ns, Lineage(s, x), y);
    } else {
      assert !HasParent(s, y);
    }
  }

  /** A subset is no larger, and a proper subset is smaller. */
  lemma {:induction false} SubsetSize<T>(a: set<T>, b: set<T>)
    requires a <= b
    ensures |a| <= |b|
    ensures a != b ==> |a| < |b|
    decreases |a|
  {
    if a != {} {
      var x :| x in a;
      if a != b {
        var y :| y in b && y !in a;
        assert y in b - {x} && y !in a - {x};
      }
      SubsetSize(a - {x}, b - {x});
    } else if a != b {
      var x :| x in b;
    }
  }

  /** How many elements of `all` lie outside `a`. */
  function Outside<T>(all: set<T>, a: set<T>): (n: nat)
    ensures n == 0 ==> all <= a
  {
    var rest := all - a;
    assert forall x :: x in all && x !in a ==> x in rest;
    |rest|
  }

  /** Growing a subset of `all` leaves fewer elements of `all` outside it. */
  lemma OutsideShrinks<T>(all: set<T>, a: set<T>, b: set<T>)
    requires a <= b <= all
    ensures Outside(all, b) <= Outside(all, a)
    ensures a != b ==> Outside(all, b) < Outside(all, a)
  {
    if a != b {
      var x :| x in b && x !in a;
      assert x in all - a && x !in all - b;
    }
    SubsetSize(all - b, all - a);
  }

  /** The total width of nodes of width at least one is at least their number. */
  lemma {:induction false} WidthSumCovers(w: map<int32, int>, cs: seq<int32>)
    requires forall c :: c in cs ==> c in w && w[c] >= 1
    ensures WidthSum(w, cs) >= |cs|
    decreases |cs|
  {
    if cs != [] {
      WidthSumCovers(w, cs[..|cs| - 1]);
    }
  }

  /**
   * When a leaf has width 1 and every other node is as wide as its children together, every
   * node is at least 1 wide.
   */
  lemma {:induction false} WidthAtLeastOne(s: Shape, w: map<int32, int>, x: int32)
    requires Linked(s) && x in s.children && s.children.Keys <= w.Keys
    requires forall k :: k in s.children ==>
      w[k] == (if s.children[k] == [] then 1 else 0) + WidthSum(w, s.children[k])
    ensures w[x] >= 1
    decreases s.count - s.rank[x]
  {
    forall c | c in s.children[x]
      ensures c in w && w[c] >= 1
    {
      assert s.parent[c] == x;
      WidthAtLeastOne(s, w, c);
    }
    WidthSumCovers(w, s.children[x]);
  }

  /**
   * The reverse pass, started from leaf widths 1 and other widths 0, leaves every node exactly
   * as wide as its leaf width and its children together, hence at least 1 wide.
   */
  lemma WidenedWidths(s: Shape, w0: map<int32, int>, w: map<int32, int>)
    requires Linked(s) && s.children.Keys <= w0.Keys && w.Keys == w0.Keys
    requires forall k :: k in s.children ==> w0[k] == if s.children[k] == [] then 1 else 0
    requires forall k :: k in s.children ==> w[k] == w0[k] + WidthSum(w, s.children[k])
    ensures forall k :: k in s.children ==>
      w[k] == (if s.children[k] == [] then 1 else 0) + WidthSum(w, s.children[k]) && w[k] >= 1
  {
    forall k | k in s.children
      ensures w[k] >= 1
    {
      WidthAtLeastOne(s, w, k);
    }
  }

  /** The shape after a new PlacementNode `id` is made a child of `p`. */
  function Grow(s: Shape, id: int32, p: int32): Shape
    requires p in s.children
  {
    Shape(s.parent[id := p], s.children[p := s.children[p] + [id]][id := []], s.rank[id := s.count], s.count + 1)
  }

  /** The rows of the tree after node `id` is put one row below `p`. */
  function Deepen(d: map<int32, int>, id: int32, p: int32): map<int32, int>
    requires p in d
  {
    d[id := d[p] + 1]
  }

  /** A new node is nobody's parent and nobody's child yet. */
  lemma NewcomerUnlinked(s: Shape, root: int32, id: int32, p: int32)
    requires Tree(s, root) && p in s.children && id !in s.children
    ensures id !in s.parent && id !in s.children[p]
  {
  }

  lemma GrowRanked(s: Shape, root: int32, id: int32, p: int32)
    requires Tree(s, root) && p in s.children && id !in s.children
    ensures Ranked(Grow(s, id, p))
  {
  }

  lemma GrowParentsListed(s: Shape, root: int32, id: int32, p: int32)
    requires Tree(s, root) && p in s.children && id !in s.children
    ensures var g := Grow(s, id, p); forall k :: k in g.parent ==> g.parent[k] in g.children && Listed(g, k)
  {
    var g := Grow(s, id, p);
    forall k | k in g.parent
      ensures g.parent[k] in g.children && Listed(g, k)
    {
      if k != id {
        assert Listed(s, k);
      }
    }
  }

  lemma GrowChildrenPoint(s: Shape, root: int32, id: int32, p: int32)
    requires Tree(s, root) && p in s.children && id !in s.children
    ensures var g := Grow(s, id, p);
      forall k, i :: k in g.children && 0 <= i < |g.children[k]| ==> g.children[k][i] in g.parent && g.parent[g.children[k][i]] == k
  {
    NewcomerUnlinked(s, root, id, p);
  }

  /** A new last child is not among its parent's children yet. */
  lemma GrowDistinct(s: Shape, root: int32, id: int32, p: int32)
    requires Tree(s, root) && Distinct(s) && p in s.children && id !in s.children
    ensures Distinct(Grow(s, id, p))
  {
    NewcomerUnlinked(s, root, id, p);
    NoDupSnoc(s.children[p], id);
  }

  /** Making a new node the last child of a node of a tree keeps it a tree. */
  lemma GrowKeepsTree(s: Shape, root: int32, id: int32, p: int32)
    requires Tree(s, root) && p in s.children && id !in s.children
    ensures Tree(Grow(s, id, p), root)
  {
    GrowRanked(s, root, id, p);
    GrowParentsListed(s, root, id, p);
    GrowChildrenPoint(s, root, id, p);
    var g := Grow(s, id, p);
    forall k | k in g.children && k != root
      ensures HasParent(g, k)
    {
      if k != id {
        assert HasParent(s, k);
      }
    }
  }
}
