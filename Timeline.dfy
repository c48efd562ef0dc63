/**
 * HamTimeline (Timeline/HamTimeline.cs): the story graph an editor builds and a player
 * walks. The class keeps the fields of the source; every edit is proved to leave exactly
 * the state the matching function of Graphs, TreeDeletion or TimelineFormat describes,
 * and what those functions promise is proved about them there and below.
 */
module Timelines {
  import opened Wrappers
  import opened Serializer
  import opened Values
  import opened Lists
  import opened Nodes
  import opened Graphs
  import opened NodePacking
  import opened TimelineFormat
  import TD = TreeDeletion
  import P = Predicates

  /** `IDCount++` on a C# int: the next integer, wrapping from the largest int to the smallest. */
  function WrapInc(i: int32): (r: int32)
    ensures (r - (i + 1)) % 0x1_0000_0000 == 0
    ensures i < MaxInt32 ==> r == i + 1
  {
    if i == MaxInt32 then -0x8000_0000 else i + 1
  }

  /**
   * The ids a timeline has handed out: every key of the four maps lies below IDCount,
   * and no id names entries of two kinds.
   */
  ghost predicate Issued(t: TimelineData)
  {
    0 <= t.idCount
    && (forall k :: k in t.variables ==> 0 <= k < t.idCount && k !in t.scenes && k !in t.characters && k !in t.nodes)
    && (forall k :: k in t.scenes ==> 0 <= k < t.idCount && k !in t.characters && k !in t.nodes)
    && (forall k :: k in t.characters ==> 0 <= k < t.idCount && k !in t.nodes)
    && (forall k :: k in t.nodes ==> 0 <= k < t.idCount)
  }

  /** An id below IDCount is never handed out again, so the next one is new to every map. */
  lemma FreshId(t: TimelineData)
    requires Issued(t)
    ensures t.idCount !in t.variables && t.idCount !in t.scenes && t.idCount !in t.characters && t.idCount !in t.nodes
  {
  }

  /**
   * EvaluatePredicate(predicate, instanceValue): false when no variable is set; otherwise
   * the timeline's declaration of the variable compared with the instance's value. A
   * variable the timeline lacks throws.
   */
  function EvaluatePredicate(variables: map<int32, TimelineVariable>, p: P.Predicate, instanceValue: VariableValue, compare: Comparer): (r: Option<bool>)
    ensures p.variableID == InvalidID ==> r == Some(false)
    ensures p.variableID != InvalidID ==> (r.Some? <==> p.variableID in variables)
  {
    if p.variableID == InvalidID then Some(false)
    else if p.variableID !in variables then None
    else Some(compare(p.comparison, variables[p.variableID].value, instanceValue))
  }

  /** The predicate's own CompareValue plays no part: only its variable and its comparison do. */
  lemma EvaluateIgnoresCompareValue(variables: map<int32, TimelineVariable>, p: P.Predicate, v: Option<VariableValue>,
                                    instanceValue: VariableValue, compare: Comparer)
    ensures EvaluatePredicate(variables, p.(compareValue := v), instanceValue, compare)
         == EvaluatePredicate(variables, p, instanceValue, compare)
    ensures EvaluatePredicate(variables, p.(nextNodeID := InvalidID), instanceValue, compare)
         == EvaluatePredicate(variables, p, instanceValue, compare)
  {
  }

  /**
   * Evaluated against the predicate's own CompareValue, the timeline's answer is the
   * predicate's own Evaluate; with another value it is that comparison instead.
   */
  lemma EvaluateAgreesWithPredicate(variables: map<int32, TimelineVariable>, p: P.Predicate, compare: Comparer)
    requires p.compareValue.Some?
    ensures EvaluatePredicate(variables, p, p.compareValue.value, compare) == P.Evaluate(p, variables, compare)
  {
  }

  /** The node DefaultInit makes the origin: a Dialog by the narrator in the default scene, with no edge. */
  function DefaultIntro(): (n: TimelineNode)
    ensures n.DialogNode? && n.id == 2 && n.sceneID == 1 && n.speakerID == 0 && DescendantIDs(n) == []
  {
    NewDialogNode(2, 1, 0, "Default Intro Narration", None)
  }

  /** A walk is a single node, or its second entry is a descendant of its first. */
  lemma WalkLength(ns: NodeMap, path: seq<int32>)
    requires DescendantWalk(ns, path)
    ensures |path| == 1 || (path[0] in ns && path[1] in DescendantIDs(ns[path[0]]))
  {
    if |path| > 1 {
      var k := 0;
      assert path[k] in ns && path[k + 1] in DescendantIDs(ns[path[k]]);
    }
  }

  /** A timeline holding only the default intro passes SanityCheck. */
  lemma DefaultSane()
    ensures Sane(map[2 := DefaultIntro()], 2)
  {
    var ns := map[2 := DefaultIntro()];
    assert DescendantWalk(ns, [2]);
    forall x | Reaches(ns, 2, x)
      ensures x == 2
    {
      var path :| DescendantWalk(ns, path) && path[0] == 2 && path[|path| - 1] == x;
      WalkLength(ns, path);
    }
  }

  /**
   * CanDeleteTree(node) refuses exactly the origin, and on consistent links where the
   * origin is nobody's descendant this is what keeps the origin: DeleteTree of any other
   * node leaves it in place, and DeleteTree of the origin removes it.
   */
  lemma CanDeleteTreeKeepsOrigin(ns: NodeMap, origin: int32, id: int32)
    requires TD.Consistent(ns) && id in ns && origin in ns
    requires forall k :: k in ns ==> origin !in DescendantIDs(ns[k])
    ensures TD.DeleteTree(ns, id).Done?
    ensures CanDeleteTree(origin, id) <==> origin in TD.DeleteTree(ns, id).state
  {
    TD.DeleteTreeDeletes(ns, id);
    if id != origin {
      var s := ns.Keys - {origin};
      assert TD.Forced(ns, s);
      TD.DeleteTreeLeast(ns, id, s);
    }
  }

  /** validParents in DeleteTree: the loop over a descendant's parents. */
  method CountLiveParents(m: NodeMap, prev: seq<int32>, del: int32) returns (n: nat)
    ensures n == TD.LiveParents(m, prev, del)
  {
    n := 0;
    var j := 0;
    while j < |prev|
      invariant 0 <= j <= |prev|
      invariant n + TD.LiveParents(m, prev[j..], del) == TD.LiveParents(m, prev, del)
    {
      assert prev[j..][1..] == prev[j + 1..];
      if prev[j] in m && prev[j] != del {
        n := n + 1;
      }
      j := j + 1;
    }
  }

  class Timeline {
    var nodeLinkageDirty: bool
    var idCount: int32
    var name: string
    var originNodeID: int32
    var narratorID: int32
    var defaultSceneID: int32
    var variables: map<int32, TimelineVariable>
    var scenes: map<int32, Scene>
    var characters: map<int32, Character>
    var nodes: NodeMap

    /** The fields Pack saves. */
    function Data(): TimelineData
      reads this
    {
      TimelineData(idCount, name, originNodeID, narratorID, defaultSceneID, variables, scenes, characters, nodes)
    }

    /** new HamTimeline(): empty maps, zero ints, an empty Name (the source leaves it null), and the linkage marked dirty. */
    constructor()
      ensures Data() == EmptyTimeline() && nodeLinkageDirty
    {
      nodeLinkageDirty := true;
      idCount := 0;
      name := "";
      originNodeID := 0;
      narratorID := 0;
      defaultSceneID := 0;
      variables := map[];
      scenes := map[];
      characters := map[];
      nodes := map[];
    }

    // -------------------------------------------------------------------------
    // Adding entries

    method AddScene(sceneName: string) returns (scene: Scene)
      modifies this
      ensures scene == Scene(old(idCount), sceneName)
      ensures Data() == old(Data()).(idCount := WrapInc(old(idCount)), scenes := old(scenes)[scene.id := scene])
      ensures nodeLinkageDirty == old(nodeLinkageDirty)
      ensures old(Issued(Data())) && old(idCount) < MaxInt32 ==> Issued(Data())
    {
      var id := idCount;
      idCount := WrapInc(idCount);
      scene := Scene(id, sceneName);
      scenes := scenes[id := scene];
    }

    method AddCharacter(characterName: string) returns (character: Character)
      modifies this
      ensures character == Character(old(idCount), characterName)
      ensures Data() == old(Data()).(idCount := WrapInc(old(idCount)), characters := old(characters)[character.id := character])
      ensures nodeLinkageDirty == old(nodeLinkageDirty)
      ensures old(Issued(Data())) && old(idCount) < MaxInt32 ==> Issued(Data())
    {
      var id := idCount;
      idCount := WrapInc(idCount);
      character := Character(id, characterName);
      characters := characters[id := character];
    }

    /** AddVariable(name, type): `initial` is the value a new variable of that type holds. */
    method AddVariable(variableName: string, initial: VariableValue) returns (v: TimelineVariable)
      modifies this
      ensures v == TimelineVariable(old(idCount), variableName, initial)
      ensures Data() == old(Data()).(idCount := WrapInc(old(idCount)), variables := old(variables)[v.id := v])
      ensures nodeLinkageDirty == old(nodeLinkageDirty)
      ensures old(Issued(Data())) && old(idCount) < MaxInt32 ==> Issued(Data())
    {
      var id := idCount;
      idCount := WrapInc(idCount);
      v := TimelineVariable(id, variableName, initial);
      variables := variables[id := v];
    }

    method AddDialogNode(sceneID: int32, speakerID: int32, dialog: string, characterIDs: Option<Many<int32>>) returns (node: TimelineNode)
      modifies this
      ensures node == NewDialogNode(old(idCount), sceneID, speakerID, dialog, characterIDs)
      ensures Data() == old(Data()).(idCount := WrapInc(old(idCount)), nodes := old(nodes)[node.id := node])
      ensures nodeLinkageDirty
      ensures old(Issued(Data())) && old(idCount) < MaxInt32 ==> Issued(Data())
    {
      var id := idCount;
      idCount := WrapInc(idCount);
      node := NewDialogNode(id, sceneID, speakerID, dialog, characterIDs);
      nodes := nodes[id := node];
      nodeLinkageDirty := true;
    }

    method AddBranchNode() returns (node: TimelineNode)
      modifies this
      ensures node == NewBranchNode(old(idCount))
      ensures Data() == old(Data()).(idCount := WrapInc(old(idCount)), nodes := old(nodes)[node.id := node])
      ensures nodeLinkageDirty
      ensures old(Issued(Data())) && old(idCount) < MaxInt32 ==> Issued(Data())
    {
      var id := idCount;
      idCount := WrapInc(idCount);
      node := NewBranchNode(id);
      nodes := nodes[id := node];
      nodeLinkageDirty := true;
    }

    method AddDecisionNode() returns (node: TimelineNode)
      modifies this
      ensures node == NewDecisionNode(old(idCount))
      ensures Data() == old(Data()).(idCount := WrapInc(old(idCount)), nodes := old(nodes)[node.id := node])
      ensures nodeLinkageDirty
      ensures old(Issued(Data())) && old(idCount) < MaxInt32 ==> Issued(Data())
    {
      var id := idCount;
      idCount := WrapInc(idCount);
      node := NewDecisionNode(id);
      nodes := nodes[id := node];
      nodeLinkageDirty := true;
    }

    method AddConsequenceNode() returns (node: TimelineNode)
      modifies this
      ensures node == NewConsequenceNode(old(idCount))
      ensures Data() == old(Data()).(idCount := WrapInc(old(idCount)), nodes := old(nodes)[node.id := node])
      ensures nodeLinkageDirty
      ensures old(Issued(Data())) && old(idCount) < MaxInt32 ==> Issued(Data())
    {
      var id := idCount;
      idCount := WrapInc(idCount);
      node := NewConsequenceNode(id);
      nodes := nodes[id := node];
      nodeLinkageDirty := true;
    }

    /**
     * DefaultInit(): IDCount restarts at 0, and the narrator, the default scene and the
     * intro node get ids 0, 1 and 2. On a new timeline the result passes SanityCheck.
     */
    method DefaultInit()
      modifies this
      ensures idCount == 3 && narratorID == 0 && defaultSceneID == 1 && originNodeID == 2
      ensures characters == old(characters)[0 := Character(0, "Narrator")]
      ensures scenes == old(scenes)[1 := Scene(1, "Default Scene")]
      ensures nodes == old(nodes)[2 := DefaultIntro()]
      ensures variables == old(variables) && name == old(name) && nodeLinkageDirty
      ensures old(nodes) == map[] ==> Sane(nodes, originNodeID)
    {
      idCount := 0;
      var narrator := AddCharacter("Narrator");
      narratorID := narrator.id;
      var scene := AddScene("Default Scene");
      defaultSceneID := scene.id;
      var intro := AddDialogNode(defaultSceneID, narratorID, "Default Intro Narration", None);
      originNodeID := intro.id;
      DefaultSane();
    }

    // -------------------------------------------------------------------------
    // Editing the graph

    /**
     * LinkNodes(parent, child, i): exactly the steps of Graphs.Link; on a throw the state
     * is what the steps before it left, and NodeLinkageDirty is set only on completion.
     */
    method LinkNodes(parent: int32, child: int32, i: int) returns (completed: bool)
      requires parent in nodes && child in nodes
      modifies this`nodes, this`nodeLinkageDirty
      ensures Link(old(nodes), parent, child, i) == if completed then Done(nodes) else Threw(nodes)
      ensures nodeLinkageDirty == (completed || old(nodeLinkageDirty))
    {
      ghost var r := Link(nodes, parent, child, i);
      var former := GetDescendant(nodes[parent], i);
      if former.None? {
        return false;
      }
      if former.value != InvalidID {
        if former.value !in nodes {
          return false;
        }
        var rehomed := RehomeFormer(parent, child, former.value);
        if !rehomed {
          assert r == Threw(nodes);
          return false;
        }
      }
      completed := AttachChild(parent, child, i);
      assert r == if completed then Done(nodes) else Threw(nodes);
      if completed {
        nodeLinkageDirty := true;
      }
    }

    /** The first half of LinkNodes when slot i was taken: the former child moves under the new child. */
    method RehomeFormer(parent: int32, child: int32, former: int32) returns (completed: bool)
      requires child in nodes && former in nodes
      modifies this`nodes
      ensures Rehome(old(nodes), parent, child, former) == if completed then Done(nodes) else Threw(nodes)
    {
      nodes := Put(nodes, former, DropParent(nodes[former], parent));
      var slot := GetFreeDescendantSlot(nodes[child]);
      var moved := SetDescendant(nodes[child], former, slot);
      if moved.None? {
        return false;
      }
      nodes := Put(nodes, child, moved.value);
      var prev := Push(nodes[former].previousNodeIDs, child);
      if prev.None? {
        return false;
      }
      nodes := Put(nodes, former, WithParents(nodes[former], prev.value));
      completed := true;
    }

    /** The second half of LinkNodes: slot i of the parent gets the child, and the child gets the parent. */
    method AttachChild(parent: int32, child: int32, i: int) returns (completed: bool)
      requires parent in nodes && child in nodes
      modifies this`nodes
      ensures Attach(old(nodes), parent, child, i) == if completed then Done(nodes) else Threw(nodes)
    {
      var linked := SetDescendant(nodes[parent], child, i);
      if linked.None? {
        return false;
      }
      nodes := Put(nodes, parent, linked.value);
      var parents := Push(nodes[child].previousNodeIDs, parent);
      if parents.None? {
        return false;
      }
      nodes := Put(nodes, child, WithParents(nodes[child], parents.value));
      completed := true;
    }

    /**
     * The first loop of DeleteNode(node): each descendant drops the node from its parents,
     * and the last one that was uniquely parented is the dependant.
     */
    method ReleaseDescendants(id: int32, ds: seq<int32>) returns (completed: bool, dependant: Option<int32>)
      modifies this`nodes
      ensures ReleaseChildren(old(nodes), id, ds, None) ==
        if completed then Done((nodes, dependant)) else Threw((nodes, dependant))
    {
      dependant := None;
      var k := 0;
      while k < |ds|
        invariant 0 <= k <= |ds|
        invariant ReleaseChildren(nodes, id, ds[k..], dependant) == ReleaseChildren(old(nodes), id, ds, None)
      {
        assert ds[k..][1..] == ds[k + 1..];
        if ds[k] !in nodes {
          return false, dependant;
        }
        var d := nodes[ds[k]];
        if UniquelyParented(d) {
          dependant := Some(ds[k]);
        }
        nodes := Put(nodes, ds[k], DropParent(d, id));
        k := k + 1;
      }
      completed := true;
    }

    /** The second loop: each parent has its first slot holding the node re-pointed at `target`. */
    method RelinkToTarget(id: int32, ps: seq<int32>, target: int32) returns (completed: bool)
      modifies this`nodes
      ensures RelinkParents(old(nodes), id, ps, target) == if completed then Done(nodes) else Threw(nodes)
    {
      var j := 0;
      while j < |ps|
        invariant 0 <= j <= |ps|
        invariant RelinkParents(nodes, id, ps[j..], target) == RelinkParents(old(nodes), id, ps, target)
      {
        assert ps[j..][1..] == ps[j + 1..];
        if ps[j] !in nodes {
          return false;
        }
        var p := nodes[ps[j]];
        var index := GetIndexOfDescendant(p, id);
        var relinked := SetDescendant(p, target, index);
        if relinked.None? {
          return false;
        }
        nodes := Put(nodes, ps[j], relinked.value);
        j := j + 1;
      }
      completed := true;
    }

    /**
     * DeleteNode(node): exactly Graphs.DeleteNode on the nodes and the origin, whose
     * effects Graphs.DeleteNodeEffects states.
     */
    method DeleteNode(id: int32) returns (completed: bool)
      requires id in nodes
      modifies this`nodes, this`originNodeID, this`nodeLinkageDirty
      ensures Graphs.DeleteNode(Graph(old(nodes), old(originNodeID)), id) ==
        if completed then Done(Graph(nodes, originNodeID)) else Threw(Graph(nodes, originNodeID))
      ensures nodeLinkageDirty == (completed || old(nodeLinkageDirty))
    {
      ghost var r := Graphs.DeleteNode(Graph(nodes, originNodeID), id);
      var ds := GetDescendantIDs(nodes[id]);
      var released, dependant := ReleaseDescendants(id, ds);
      if !released {
        assert r == Threw(Graph(nodes, originNodeID));
        return false;
      }
      var target := if dependant.Some? then dependant.value else InvalidID;
      var relinked := RelinkToTarget(id, nodes[id].previousNodeIDs, target);
      if !relinked {
        assert r == Threw(Graph(nodes, originNodeID));
        return false;
      }
      if id == originNodeID {
        if dependant.Some? {
          originNodeID := dependant.value;
        } else if |ds| == 0 {
          assert r == Threw(Graph(nodes, originNodeID));
          return false;
        } else {
          originNodeID := ds[0];
        }
      }
      assert r == Done(Graph(nodes - {id}, originNodeID));
      nodes := nodes - {id};
      nodeLinkageDirty := true;
      completed := true;
    }

    /**
     * DeleteTree(node): exactly TreeDeletion.DeleteTree, whose deleted set
     * TreeDeletion.DeleteTreeDeletes and DeleteTreeLeast characterise.
     */
    method DeleteTree(id: int32) returns (completed: bool)
      requires id in nodes
      modifies this`nodes, this`nodeLinkageDirty
      ensures TD.DeleteTree(old(nodes), id) == if completed then Done(nodes) else Threw(nodes)
      ensures nodeLinkageDirty == (completed || old(nodeLinkageDirty))
    {
      var queue: seq<TimelineNode> := [nodes[id]];
      nodes := nodes - {id};
      while |queue| > 0
        invariant TD.Cascade(nodes, queue) == TD.DeleteTree(old(nodes), id)
        invariant nodeLinkageDirty == old(nodeLinkageDirty)
        decreases |nodes.Keys| + |queue|
      {
        ghost var m, q := nodes, queue;
        var del := queue[0];
        queue := queue[1..];
        var unlinked := UnlinkFromParents(del.id, del.previousNodeIDs);
        if !unlinked {
          assert TD.Cascade(m, q) == Threw(nodes);
          return false;
        }
        var ds := GetDescendantIDs(del);
        queue := OrphanDescendants(del.id, ds, queue);
        assert TD.Cascade(m, q) == TD.Cascade(nodes, queue);
      }
      nodeLinkageDirty := true;
      completed := true;
    }

    /** The first inner loop of DeleteTree: each parent still present has its slot holding `del` emptied. */
    method UnlinkFromParents(del: int32, ps: seq<int32>) returns (completed: bool)
      modifies this`nodes
      ensures TD.UnlinkParents(old(nodes), del, ps) == if completed then Done(nodes) else Threw(nodes)
    {
      var i := 0;
      while i < |ps|
        invariant 0 <= i <= |ps|
        invariant TD.UnlinkParents(nodes, del, ps[i..]) == TD.UnlinkParents(old(nodes), del, ps)
      {
        assert ps[i..][1..] == ps[i + 1..];
        if ps[i] in nodes {
          var parent := nodes[ps[i]];
          var index := GetIndexOfDescendant(parent, del);
          var emptied := SetDescendant(parent, InvalidID, index);
          if emptied.None? {
            return false;
          }
          nodes := Put(nodes, ps[i], emptied.value);
        }
        i := i + 1;
      }
      completed := true;
    }

    /**
     * The second inner loop of DeleteTree: each descendant still present drops `del` from its
     * parents, and one left without a live parent leaves the map and joins the queue.
     */
    method OrphanDescendants(del: int32, ds: seq<int32>, queue: seq<TimelineNode>) returns (queue': seq<TimelineNode>)
      modifies this`nodes
      ensures TD.Orphan(old(nodes), queue, del, ds) == (nodes, queue')
    {
      queue' := queue;
      var k := 0;
      while k < |ds|
        invariant 0 <= k <= |ds|
        invariant TD.Orphan(nodes, queue', del, ds[k..]) == TD.Orphan(old(nodes), queue, del, ds)
      {
        assert ds[k..][1..] == ds[k + 1..];
        if ds[k] in nodes {
          var d := nodes[ds[k]];
          var validParents := CountLiveParents(nodes, d.previousNodeIDs, del);
          if validParents == 0 {
            queue' := queue' + [DropParent(d, del)];
            nodes := nodes - {ds[k]};
          } else {
            nodes := Put(nodes, ds[k], DropParent(d, del));
          }
        }
        k := k + 1;
      }
    }

    // -------------------------------------------------------------------------
    // Saving and loading

    /** Pack(packer), visiting the Dictionaries in the order `e`. */
    method Pack(packer: Packer, e: Enumeration, c: Codec)
      requires Enumerates(e, Data()) && forall k :: k in nodes ==> Packable(nodes[k])
      modifies packer
      ensures packer.buffer == old(packer.buffer) + TimelineBytes(Data(), e, c)
    {
      PackTimeline(packer, Data(), e, c);
    }

    /** Stores the fields of `t`, as Unpack's successive assignments do. */
    method Load(t: TimelineData)
      modifies this`idCount, this`name, this`originNodeID, this`narratorID, this`defaultSceneID,
        this`variables, this`scenes, this`characters, this`nodes
      ensures Data() == t
    {
      idCount, name, originNodeID, narratorID, defaultSceneID := t.idCount, t.name, t.originNodeID, t.narratorID, t.defaultSceneID;
      variables, scenes, characters, nodes := t.variables, t.scenes, t.characters, t.nodes;
    }

    /**
     * Unpack(unpacker): the head fields are overwritten and every record read is stored
     * into the maps already there, as ParseTimelineInto says. A read that fails leaves
     * the fields in a state this model does not describe.
     */
    method Unpack(u: Unpacker, c: Codec) returns (completed: bool)
      requires u.Valid()
      modifies this, u
      ensures u.Valid() && nodeLinkageDirty == old(nodeLinkageDirty)
      ensures ReadAs(ParseTimelineInto(old(Data()), old(u.Remaining()), c), if completed then Some(Data()) else None, u.Remaining())
    {
      var r := UnpackTimelineInto(u, Data(), c);
      if r.None? {
        return false;
      }
      Load(r.value);
      completed := true;
    }
  }
}
