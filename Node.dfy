/**
 * The four node variants of a timeline (Timeline/HamTimelineNode.cs) and the
 * edge-slot API through which the graph editor reads and rewrites their outgoing edges.
 *
 * A node is a value here. The timeline reaches every node through its id-keyed map
 * and writes each change back under the same id, which is how the timeline's graph
 * edits are modelled (module Timelines).
 *
 * Slot numbering, per variant:
 *   Dialog, Consequence  one slot, NextNodeID, whatever the index;
 *   Branch               0 .. |Predicates|-1 are the predicates' edges, |Predicates| the default;
 *   Decision             0 .. |Decisions|-1 are the decisions' edges.
 */
module Nodes {
  import opened Wrappers
  import opened Serializer
  import opened Values
  import opened Lists
  import P = Predicates
  import O = Operations

  /** TimelineNodeType, with the byte codes Dialog = 0, Branch, Decision, Consequence. */
  datatype NodeType = DialogType | BranchType | DecisionType | ConsequenceType

  function TypeCode(t: NodeType): byte
  {
    match t
    case DialogType => 0
    case BranchType => 1
    case DecisionType => 2
    case ConsequenceType => 3
  }

  /** The cast from the packed type byte; a byte naming no variant gives nothing. */
  function TypeOfCode(b: byte): (t: Option<NodeType>)
    ensures t.Some? <==> b < 4
    ensures t.Some? ==> TypeCode(t.value) == b
  {
    if b == 0 then Some(DialogType)
    else if b == 1 then Some(BranchType)
    else if b == 2 then Some(DecisionType)
    else if b == 3 then Some(ConsequenceType)
    else None
  }

  /** HamDecisionNode.Decision: one choice offered to the player. */
  datatype Decision = Decision(decisionText: string, isDialog: bool, predicates: Many<P.Predicate>, nextNodeID: int32)

  /** new Decision(text, isDialog): no requirements, no edge. */
  function NewDecision(text: string, isDialog: bool): (d: Decision)
    ensures d.decisionText == text && d.isDialog == isDialog && d.predicates == [] && d.nextNodeID == InvalidID
  {
    Decision(text, isDialog, [], InvalidID)
  }

  datatype TimelineNode =
    | DialogNode(id: int32, previousNodeIDs: Many<int32>, sceneID: int32, characterIDs: Many<int32>,
                 speakerID: int32, dialog: string, nextNodeID: int32)
    | BranchNode(id: int32, previousNodeIDs: Many<int32>, predicates: Many<P.Predicate>, defaultNextID: int32)
    | DecisionNode(id: int32, previousNodeIDs: Many<int32>, decisions: Many<Decision>)
    | ConsequenceNode(id: int32, previousNodeIDs: Many<int32>, nextNodeID: int32, operations: Many<O.Operation>)
  {
    function Type(): NodeType
    {
      match this
      case DialogNode(_, _, _, _, _, _, _) => DialogType
      case BranchNode(_, _, _, _) => BranchType
      case DecisionNode(_, _, _) => DecisionType
      case ConsequenceNode(_, _, _, _) => ConsequenceType
    }

    /** The variants whose single edge is NextNodeID. */
    predicate SingleSlot()
    {
      DialogNode? || ConsequenceNode?
    }
  }

  /** UniquelyParented: fewer than two parents. */
  predicate UniquelyParented(n: TimelineNode)
  {
    |n.previousNodeIDs| < 2
  }

  // ---------------------------------------------------------------------------
  // Constructors

  /** new HamDialogNode(id, sceneID, speakerID, dialog, characters): a null character list becomes an empty one. */
  function NewDialogNode(id: int32, sceneID: int32, speakerID: int32, dialog: string, characters: Option<Many<int32>>): (n: TimelineNode)
    ensures n.DialogNode? && n.id == id && n.previousNodeIDs == [] && n.nextNodeID == InvalidID
    ensures n.characterIDs == (if characters.Some? then characters.value else [])
  {
    DialogNode(id, [], sceneID, if characters.Some? then characters.value else [], speakerID, dialog, InvalidID)
  }

  function NewBranchNode(id: int32): (n: TimelineNode)
    ensures n.BranchNode? && n.id == id && n.previousNodeIDs == [] && n.predicates == [] && n.defaultNextID == InvalidID
  {
    BranchNode(id, [], [], InvalidID)
  }

  /** new HamDecisionNode(id) starts with exactly one decision, empty and without an edge. */
  function NewDecisionNode(id: int32): (n: TimelineNode)
    ensures n.DecisionNode? && n.id == id && n.previousNodeIDs == []
    ensures n.decisions == [NewDecision("", false)]
  {
    DecisionNode(id, [], [NewDecision("", false)])
  }

  function NewConsequenceNode(id: int32): (n: TimelineNode)
    ensures n.ConsequenceNode? && n.id == id && n.previousNodeIDs == [] && n.operations == [] && n.nextNodeID == InvalidID
  {
    ConsequenceNode(id, [], InvalidID, [])
  }

  /** AddPredicate: one fresh predicate at the end; a full list cannot grow. */
  function AddPredicate(n: TimelineNode): (r: Option<TimelineNode>)
    requires n.BranchNode?
    ensures r.Some? <==> |n.predicates| < MaxInt32
    ensures r.Some? ==> r.value == n.(predicates := n.predicates + [P.NewPredicate()])
  {
    var ps :- Push(n.predicates, P.NewPredicate());
    Some(n.(predicates := ps))
  }

  /** AddDecision(text, isDialog): one fresh decision at the end. */
  function AddDecision(n: TimelineNode, text: string, isDialog: bool): (r: Option<TimelineNode>)
    requires n.DecisionNode?
    ensures r.Some? <==> |n.decisions| < MaxInt32
    ensures r.Some? ==> r.value == n.(decisions := n.decisions + [NewDecision(text, isDialog)])
  {
    var ds :- Push(n.decisions, NewDecision(text, isDialog));
    Some(n.(decisions := ds))
  }

  /** AddOperation: one fresh operation at the end. */
  function AddOperation(n: TimelineNode): (r: Option<TimelineNode>)
    requires n.ConsequenceNode?
    ensures r.Some? <==> |n.operations| < MaxInt32
    ensures r.Some? ==> r.value == n.(operations := n.operations + [O.NewOperation()])
  {
    var os :- Push(n.operations, O.NewOperation());
    Some(n.(operations := os))
  }

  // ---------------------------------------------------------------------------
  // Helpers over edge lists

  /** The edge `next` reads off each item of `xs`, in order. */
  function NextIDs<T>(xs: seq<T>, next: T -> int32): (r: seq<int32>)
    ensures |r| == |xs| && forall i :: 0 <= i < |xs| ==> r[i] == next(xs[i])
  {
    seq(|xs|, i requires 0 <= i < |xs| => next(xs[i]))
  }

  function PredicateNext(p: P.Predicate): int32 { p.nextNodeID }

  function DecisionNext(d: Decision): int32 { d.nextNodeID }

  /** The edge of every predicate, in order. */
  function Targets(ps: seq<P.Predicate>): (r: seq<int32>)
    ensures |r| == |ps| && forall i :: 0 <= i < |ps| ==> r[i] == ps[i].nextNodeID
  {
    NextIDs(ps, PredicateNext)
  }

  /** The edge of every decision, in order. */
  function DecisionTargets(ds: seq<Decision>): (r: seq<int32>)
    ensures |r| == |ds| && forall i :: 0 <= i < |ds| ==> r[i] == ds[i].nextNodeID
  {
    NextIDs(ds, DecisionNext)
  }

  /** The position of the first `x` in `xs`, or |xs| when there is none. */
  function IndexOf(xs: seq<int32>, x: int32): (k: nat)
    ensures k <= |xs|
    ensures k < |xs| ==> xs[k] == x
    ensures forall j :: 0 <= j < k ==> xs[j] != x
  {
    if xs == [] then 0
    else if xs[0] == x then 0
    else 1 + IndexOf(xs[1..], x)
  }

  /** The ids of `xs` that are not InvalidID, in order. */
  function Present(xs: seq<int32>): (r: seq<int32>)
    ensures |r| <= |xs|
    ensures forall y :: y in r <==> y in xs && y != InvalidID
  {
    if xs == [] then []
    else
      assert xs == xs[..|xs| - 1] + [xs[|xs| - 1]];
      Present(xs[..|xs| - 1]) + (if xs[|xs| - 1] != InvalidID then [xs[|xs| - 1]] else [])
  }

  // ---------------------------------------------------------------------------
  // The edge-slot API

  /**
   * GetDescendant(index). Branch reads Predicates[index] for any index but the default's,
   * and Decision reads Decisions[index]; an index outside the list throws.
   */
  function GetDescendant(n: TimelineNode, index: int): (r: Option<int32>)
  {
    if n.SingleSlot() then Some(n.nextNodeID)
    else if n.BranchNode? then
      if index == |n.predicates| then Some(n.defaultNextID)
      else if 0 <= index < |n.predicates| then Some(n.predicates[index].nextNodeID)
      else None
    else
      if 0 <= index < |n.decisions| then Some(n.decisions[index].nextNodeID) else None
  }

  /**
   * SetDescendant(id, index). Branch: the default at |Predicates|, a new predicate past it,
   * a predicate's edge below it. Decision: a new decision at or past |Decisions|. A negative
   * index throws for both; a list at its largest size cannot grow.
   */
  function SetDescendant(n: TimelineNode, id: int32, index: int): (r: Option<TimelineNode>)
    ensures r.Some? ==> r.value.id == n.id && r.value.previousNodeIDs == n.previousNodeIDs && r.value.Type() == n.Type()
  {
    if n.SingleSlot() then Some(n.(nextNodeID := id))
    else if n.BranchNode? then
      var ps := n.predicates;
      if index == |ps| then Some(n.(defaultNextID := id))
      else if index > |ps| then
        var ps' :- Push(ps, P.NewPredicate().(nextNodeID := id));
        Some(n.(predicates := ps'))
      else if index < 0 then None
      else Some(n.(predicates := ps[index := ps[index].(nextNodeID := id)]))
    else
      var ds := n.decisions;
      if index >= |ds| then
        var ds' :- Push(ds, NewDecision("", false).(nextNodeID := id));
        Some(n.(decisions := ds'))
      else if index < 0 then None
      else Some(n.(decisions := ds[index := ds[index].(nextNodeID := id)]))
  }

  /**
   * GetFreeDescendantSlot. Dialog, Consequence: 0 when the edge is empty, else -1.
   * Branch: the default when it is empty, else the first predicate without an edge,
   * else |Predicates| + 1. Decision: the first decision without an edge, else |Decisions|.
   */
  function FreeDescendantSlot(n: TimelineNode): int
  {
    if n.SingleSlot() then (if n.nextNodeID == InvalidID then 0 else -1)
    else if n.BranchNode? then
      if n.defaultNextID == InvalidID then |n.predicates|
      else
        var k := IndexOf(Targets(n.predicates), InvalidID);
        if k < |n.predicates| then k else |n.predicates| + 1
    else IndexOf(DecisionTargets(n.decisions), InvalidID)
  }

  /** GetIndexOfDescendant(d): the first slot holding d (a Branch's predicates before its default), or -1. */
  function IndexOfDescendant(n: TimelineNode, d: int32): int
  {
    if n.SingleSlot() then (if d == n.nextNodeID then 0 else -1)
    else if n.BranchNode? then
      var k := IndexOf(Targets(n.predicates), d);
      if k < |n.predicates| then k
      else if n.defaultNextID == d then |n.predicates|
      else -1
    else
      var k := IndexOf(DecisionTargets(n.decisions), d);
      if k < |n.decisions| then k else -1
  }

  /** GetDescendantIDs: the non-empty edges in slot order. */
  function DescendantIDs(n: TimelineNode): seq<int32>
  {
    if n.SingleSlot() then (if n.nextNodeID != InvalidID then [n.nextNodeID] else [])
    else if n.BranchNode? then
      Present(Targets(n.predicates)) + (if n.defaultNextID != InvalidID then [n.defaultNextID] else [])
    else Present(DecisionTargets(n.decisions))
  }

  /** The slots a node has: all integers for a single-slot node, otherwise its list positions. */
  predicate InRange(n: TimelineNode, index: int)
  {
    GetDescendant(n, index).Some?
  }

  // ---------------------------------------------------------------------------
  // Properties of the slot API

  /**
   * Dialog and Consequence ignore the index: every index reads the edge SetDescendant
   * wrote, the descendants are [] or [next], and the free slot is 0 exactly when the edge is empty.
   */
  lemma SingleSlotNodes(n: TimelineNode, id: int32, i: int, j: int)
    requires n.SingleSlot()
    ensures SetDescendant(n, id, i).Some? && GetDescendant(SetDescendant(n, id, i).value, j) == Some(id)
    ensures DescendantIDs(n) == if n.nextNodeID == InvalidID then [] else [n.nextNodeID]
    ensures FreeDescendantSlot(n) == 0 <==> n.nextNodeID == InvalidID
    ensures FreeDescendantSlot(n) != 0 ==> FreeDescendantSlot(n) == -1
  {
  }

  /**
   * Writing an existing slot: SetDescendant(id, i) followed by GetDescendant(i) reads id,
   * and every other slot of a Branch or Decision keeps its edge.
   */
  lemma SetThenGet(n: TimelineNode, id: int32, i: int, j: int)
    requires InRange(n, i)
    ensures SetDescendant(n, id, i).Some?
    ensures GetDescendant(SetDescendant(n, id, i).value, i) == Some(id)
    ensures !n.SingleSlot() && j != i ==> GetDescendant(SetDescendant(n, id, i).value, j) == GetDescendant(n, j)
  {
  }

  /** Past the end, SetDescendant appends exactly one new entry holding the edge, and touches nothing else. */
  lemma SetPastEnd(n: TimelineNode, id: int32, i: int)
    requires (n.BranchNode? && i > |n.predicates|) || (n.DecisionNode? && i >= |n.decisions|)
    ensures n.BranchNode? && |n.predicates| < MaxInt32 ==>
      SetDescendant(n, id, i) == Some(n.(predicates := n.predicates + [P.NewPredicate().(nextNodeID := id)]))
    ensures n.DecisionNode? && |n.decisions| < MaxInt32 ==>
      SetDescendant(n, id, i) == Some(n.(decisions := n.decisions + [NewDecision("", false).(nextNodeID := id)]))
  {
  }

  /** A Branch or Decision slot below zero does not exist: SetDescendant throws there. */
  lemma SetNegative(n: TimelineNode, id: int32, i: int)
    requires !n.SingleSlot() && i < 0
    ensures SetDescendant(n, id, i).None?
  {
  }

  /** After SetDescendant(id, i), whatever the index, id is among the descendants. */
  lemma SetLinks(n: TimelineNode, id: int32, i: int)
    requires id != InvalidID && SetDescendant(n, id, i).Some?
    ensures id in DescendantIDs(SetDescendant(n, id, i).value)
  {
    var n' := SetDescendant(n, id, i).value;
    if n.BranchNode? {
      if 0 <= i < |n.predicates| {
        assert Targets(n'.predicates)[i] == id;
      } else if i > |n.predicates| {
        assert Targets(n'.predicates)[|n.predicates|] == id;
      }
    } else if n.DecisionNode? {
      if 0 <= i < |n.decisions| {
        assert DecisionTargets(n'.decisions)[i] == id;
      } else {
        assert DecisionTargets(n'.decisions)[|n.decisions|] == id;
      }
    }
  }

  /** Emptying a slot never adds a descendant. */
  lemma ClearShrinks(n: TimelineNode, i: int)
    requires SetDescendant(n, InvalidID, i).Some?
    ensures forall x :: x in DescendantIDs(SetDescendant(n, InvalidID, i).value) ==> x in DescendantIDs(n)
  {
    var n' := SetDescendant(n, InvalidID, i).value;
    if n.BranchNode? {
      forall x | x in Present(Targets(n'.predicates)) ensures x in Present(Targets(n.predicates)) {
        var k :| 0 <= k < |n'.predicates| && Targets(n'.predicates)[k] == x;
        assert k < |n.predicates| && Targets(n.predicates)[k] == x;
      }
    } else if n.DecisionNode? {
      forall x | x in Present(DecisionTargets(n'.decisions)) ensures x in Present(DecisionTargets(n.decisions)) {
        var k :| 0 <= k < |n'.decisions| && DecisionTargets(n'.decisions)[k] == x;
        assert k < |n.decisions| && DecisionTargets(n.decisions)[k] == x;
      }
    }
  }

  /**
   * The free slot. A Branch and a Decision always have one (never -1). When it is one
   * of the node's slots it is empty, and the slots searched before it are taken; when it
   * lies past them (|Predicates| + 1, |Decisions|), every slot is taken.
   */
  lemma FreeSlotIsFree(n: TimelineNode)
    ensures !n.SingleSlot() ==> FreeDescendantSlot(n) >= 0
    ensures n.BranchNode? && n.defaultNextID == InvalidID ==> FreeDescendantSlot(n) == |n.predicates|
    ensures InRange(n, FreeDescendantSlot(n)) <==> n.SingleSlot() || (n.BranchNode? && FreeDescendantSlot(n) <= |n.predicates|) || (n.DecisionNode? && FreeDescendantSlot(n) < |n.decisions|)
    ensures InRange(n, FreeDescendantSlot(n)) && !(n.SingleSlot() && n.nextNodeID != InvalidID)
      ==> GetDescendant(n, FreeDescendantSlot(n)) == Some(InvalidID)
    ensures n.BranchNode? && n.defaultNextID != InvalidID ==>
      forall j :: 0 <= j < FreeDescendantSlot(n) && j < |n.predicates| ==> n.predicates[j].nextNodeID != InvalidID
    ensures n.DecisionNode? ==>
      forall j :: 0 <= j < FreeDescendantSlot(n) ==> n.decisions[j].nextNodeID != InvalidID
    ensures !InRange(n, FreeDescendantSlot(n)) ==>
      forall j :: InRange(n, j) ==> GetDescendant(n, j) != Some(InvalidID)
  {
    if n.BranchNode? && n.defaultNextID != InvalidID {
      var k := IndexOf(Targets(n.predicates), InvalidID);
      forall j | 0 <= j < k ensures n.predicates[j].nextNodeID != InvalidID {
        assert Targets(n.predicates)[j] != InvalidID;
      }
      if k < |n.predicates| {
        assert Targets(n.predicates)[k] == InvalidID;
      }
    } else if n.DecisionNode? {
      var k := IndexOf(DecisionTargets(n.decisions), InvalidID);
      forall j | 0 <= j < k ensures n.decisions[j].nextNodeID != InvalidID {
        assert DecisionTargets(n.decisions)[j] != InvalidID;
      }
      if k < |n.decisions| {
        assert DecisionTargets(n.decisions)[k] == InvalidID;
      }
    }
  }

  /**
   * GetIndexOfDescendant(d) finds the first slot holding d, or says -1 when no slot holds it.
   */
  lemma IndexOfDescendantFirst(n: TimelineNode, d: int32)
    ensures IndexOfDescendant(n, d) == -1 <==> forall j :: InRange(n, j) ==> GetDescendant(n, j) != Some(d)
    ensures IndexOfDescendant(n, d) != -1 ==> GetDescendant(n, IndexOfDescendant(n, d)) == Some(d)
    ensures IndexOfDescendant(n, d) != -1 && !n.SingleSlot() ==>
      forall j :: 0 <= j < IndexOfDescendant(n, d) ==> GetDescendant(n, j) != Some(d)
  {
    if n.BranchNode? {
      var k := IndexOf(Targets(n.predicates), d);
      forall j | 0 <= j < k ensures GetDescendant(n, j) != Some(d) {
        assert Targets(n.predicates)[j] != d;
      }
      if k < |n.predicates| {
        assert Targets(n.predicates)[k] == d;
        assert GetDescendant(n, k) == Some(d);
      } else {
        assert GetDescendant(n, |n.predicates|) == Some(n.defaultNextID);
      }
    } else if n.DecisionNode? {
      var k := IndexOf(DecisionTargets(n.decisions), d);
      forall j | 0 <= j < k ensures GetDescendant(n, j) != Some(d) {
        assert DecisionTargets(n.decisions)[j] != d;
      }
      if k < |n.decisions| {
        assert DecisionTargets(n.decisions)[k] == d;
        assert GetDescendant(n, k) == Some(d);
      }
    } else {
      assert GetDescendant(n, 0) == Some(n.nextNodeID);
    }
  }

  /**
   * The descendants are exactly the non-empty slot contents, and GetIndexOfDescendant
   * finds a slot for each of them.
   */
  lemma DescendantsAreSlots(n: TimelineNode, x: int32, j: int)
    ensures x in DescendantIDs(n) ==> IndexOfDescendant(n, x) != -1 && GetDescendant(n, IndexOfDescendant(n, x)) == Some(x)
    ensures x in DescendantIDs(n) ==> x != InvalidID
    ensures GetDescendant(n, j) == Some(x) && x != InvalidID ==> x in DescendantIDs(n)
  {
    IndexOfDescendantFirst(n, x);
    if n.BranchNode? {
      if x in Present(Targets(n.predicates)) {
        var k :| 0 <= k < |n.predicates| && Targets(n.predicates)[k] == x;
        assert GetDescendant(n, k) == Some(x);
      }
      if GetDescendant(n, j) == Some(x) && x != InvalidID && j < |n.predicates| {
        assert Targets(n.predicates)[j] == x;
      }
    } else if n.DecisionNode? {
      if x in DescendantIDs(n) {
        var k :| 0 <= k < |n.decisions| && DecisionTargets(n.decisions)[k] == x;
        assert GetDescendant(n, k) == Some(x);
      }
      if GetDescendant(n, j) == Some(x) && x != InvalidID {
        assert DecisionTargets(n.decisions)[j] == x;
      }
    }
  }

  /** A node whose lists can all still grow (a parent list by two entries). */
  predicate Roomy(n: TimelineNode)
  {
    |n.previousNodeIDs| < MaxInt32 - 1
    && (n.BranchNode? ==> |n.predicates| < MaxInt32)
    && (n.DecisionNode? ==> |n.decisions| < MaxInt32)
  }

  /** On a node whose lists can grow, SetDescendant throws exactly on a negative Branch or Decision slot. */
  lemma SetSucceeds(n: TimelineNode, id: int32, i: int)
    requires Roomy(n)
    ensures SetDescendant(n, id, i).Some? <==> n.SingleSlot() || i >= 0
  {
  }

  /** Writing a slot takes no slot away. */
  lemma SetKeepsRange(n: TimelineNode, id: int32, i: int, j: int)
    requires SetDescendant(n, id, i).Some? && InRange(n, j)
    ensures InRange(SetDescendant(n, id, i).value, j)
  {
  }

  lemma {:induction false} PresentAppend(xs: seq<int32>, y: int32)
    ensures Present(xs + [y]) == Present(xs) + (if y != InvalidID then [y] else [])
  {
    assert (xs + [y])[..|xs + [y]| - 1] == xs;
  }

  /**
   * Writing into the free slot loses no descendant, unless the node is a Dialog or
   * Consequence whose edge is taken (the free slot is -1 there and the edge is overwritten).
   */
  lemma SetFreeKeeps(n: TimelineNode, id: int32)
    requires FreeDescendantSlot(n) != -1 && SetDescendant(n, id, FreeDescendantSlot(n)).Some?
    ensures forall x :: x in DescendantIDs(n) ==> x in DescendantIDs(SetDescendant(n, id, FreeDescendantSlot(n)).value)
    ensures id != InvalidID ==> id in DescendantIDs(SetDescendant(n, id, FreeDescendantSlot(n)).value)
  {
    var s := FreeDescendantSlot(n);
    var n' := SetDescendant(n, id, s).value;
    FreeSlotIsFree(n);
    if id != InvalidID {
      SetLinks(n, id, s);
    }
    if InRange(n, s) {
      forall x | x in DescendantIDs(n) ensures x in DescendantIDs(n') {
        DescendantsAreSlots(n, x, 0);
        var j := IndexOfDescendant(n, x);
        SetThenGet(n, id, s, j);
        DescendantsAreSlots(n', x, j);
      }
    } else if n.BranchNode? {
      var q := P.NewPredicate().(nextNodeID := id);
      SetPastEnd(n, id, s);
      assert Targets(n'.predicates) == Targets(n.predicates) + [id];
      PresentAppend(Targets(n.predicates), id);
    } else {
      SetPastEnd(n, id, s);
      assert DecisionTargets(n'.decisions) == DecisionTargets(n.decisions) + [id];
      PresentAppend(DecisionTargets(n.decisions), id);
    }
  }

  /** Emptying a slot that holds y takes away no descendant other than y. */
  lemma ClearKeepsOthers(n: TimelineNode, i: int, y: int32)
    requires GetDescendant(n, i) == Some(y) && SetDescendant(n, InvalidID, i).Some?
    ensures forall x :: x in DescendantIDs(n) && x != y ==> x in DescendantIDs(SetDescendant(n, InvalidID, i).value)
  {
    var n' := SetDescendant(n, InvalidID, i).value;
    forall x | x in DescendantIDs(n) && x != y ensures x in DescendantIDs(n') {
      DescendantsAreSlots(n, x, 0);
      var j := IndexOfDescendant(n, x);
      SetThenGet(n, InvalidID, i, j);
      DescendantsAreSlots(n', x, j);
    }
  }

  // ---------------------------------------------------------------------------
  // The slot queries as the index loops of the source

  method GetFreeDescendantSlot(n: TimelineNode) returns (slot: int)
    ensures slot == FreeDescendantSlot(n)
  {
    if n.SingleSlot() {
      return if n.nextNodeID == InvalidID then 0 else -1;
    } else if n.BranchNode? {
      if n.defaultNextID == InvalidID {
        return |n.predicates|;
      }
      var i := 0;
      while i < |n.predicates|
        invariant 0 <= i <= |n.predicates|
        invariant forall j :: 0 <= j < i ==> Targets(n.predicates)[j] != InvalidID
      {
        if n.predicates[i].nextNodeID == InvalidID {
          assert Targets(n.predicates)[i] == InvalidID;
          return i;
        }
        i := i + 1;
      }
      return |n.predicates| + 1;
    } else {
      var i := 0;
      while i < |n.decisions|
        invariant 0 <= i <= |n.decisions|
        invariant forall j :: 0 <= j < i ==> DecisionTargets(n.decisions)[j] != InvalidID
      {
        if n.decisions[i].nextNodeID == InvalidID {
          assert DecisionTargets(n.decisions)[i] == InvalidID;
          return i;
        }
        i := i + 1;
      }
      return |n.decisions|;
    }
  }

  method GetIndexOfDescendant(n: TimelineNode, d: int32) returns (index: int)
    ensures index == IndexOfDescendant(n, d)
  {
    if n.SingleSlot() {
      return if d == n.nextNodeID then 0 else -1;
    } else if n.BranchNode? {
      var i := 0;
      while i < |n.predicates|
        invariant 0 <= i <= |n.predicates|
        invariant forall j :: 0 <= j < i ==> Targets(n.predicates)[j] != d
      {
        if n.predicates[i].nextNodeID == d {
          assert Targets(n.predicates)[i] == d;
          return i;
        }
        i := i + 1;
      }
      if n.defaultNextID == d {
        return |n.predicates|;
      }
      return -1;
    } else {
      var i := 0;
      while i < |n.decisions|
        invariant 0 <= i <= |n.decisions|
        invariant forall j :: 0 <= j < i ==> DecisionTargets(n.decisions)[j] != d
      {
        if n.decisions[i].nextNodeID == d {
          assert DecisionTargets(n.decisions)[i] == d;
          return i;
        }
        i := i + 1;
      }
      return -1;
    }
  }

  method GetDescendantIDs(n: TimelineNode) returns (ids: seq<int32>)
    ensures ids == DescendantIDs(n)
  {
    if n.SingleSlot() {
      ids := if n.nextNodeID != InvalidID then [n.nextNodeID] else [];
    } else if n.BranchNode? {
      var ts := Targets(n.predicates);
      ids := [];
      var i := 0;
      while i < |n.predicates|
        invariant 0 <= i <= |n.predicates|
        invariant ids == Present(ts[..i])
      {
        assert ts[..i + 1][..i] == ts[..i];
        if n.predicates[i].nextNodeID != InvalidID {
          ids := ids + [n.predicates[i].nextNodeID];
        }
        i := i + 1;
      }
      assert ts[..i] == ts;
      if n.defaultNextID != InvalidID {
        ids := ids + [n.defaultNextID];
      }
    } else {
      var ts := DecisionTargets(n.decisions);
      ids := [];
      var i := 0;
      while i < |n.decisions|
        invariant 0 <= i <= |n.decisions|
        invariant ids == Present(ts[..i])
      {
        assert ts[..i + 1][..i] == ts[..i];
        if n.decisions[i].nextNodeID != InvalidID {
          ids := ids + [n.decisions[i].nextNodeID];
        }
        i := i + 1;
      }
      assert ts[..i] == ts;
    }
  }
}
