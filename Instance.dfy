/**
 * HamTimelineInstance: one playthrough of a timeline. It holds the variables' current
 * values, the current node and scene, the characters on stage and the nodes visited, and
 * moves through the timeline one Advance at a time, handing events to its listener.
 *
 * The listener (OnTimelineEvent) is modelled by `emitted`, the sequence of every event
 * handed to it so far. Each method is proved against the function of module Playback
 * that describes it, and the properties of the instance are proved about those functions.
 */
module Instances {
  import opened Wrappers
  import opened Serializer
  import opened Values
  import opened Nodes
  import opened Graphs
  import opened NodePacking
  import opened TimelineFormat
  import opened Events
  import opened InstanceFormat
  import PB = Playback
  import P = Predicates
  import O = Operations

  class TimelineInstance {
    /** The timeline played. The instance reads it and never edits it; Unpack replaces it. */
    var timeline: TimelineData
    var variables: map<int32, VariableValue>
    var currentNodeID: int32
    var currentSceneID: int32
    var currentCharactersInScene: seq<int32>
    var nodeHistory: seq<int32>
    /** Every event handed to OnTimelineEvent so far, oldest first. */
    var emitted: seq<TimelineEvent>
    /** VariableValue.Compare and HamOperation.Execute. */
    const compare: Comparer
    const execute: PB.Executor

    /** The instance's fields besides the timeline and the listener. */
    function State(): PB.InstanceState
      reads this
    {
      PB.InstanceState(variables, currentNodeID, currentSceneID, currentCharactersInScene, nodeHistory)
    }

    /**
     * new HamTimelineInstance(path, listener) with the timeline at `path` already loaded as
     * `t`: no current node, scene 0, nobody on stage, nothing visited, and each declared
     * variable at its declared value (`order` is the order foreach visits them in).
     */
    constructor(t: TimelineData, order: seq<int32>, compare: Comparer, execute: PB.Executor)
      requires VisitsAll(order, t.variables)
      ensures timeline == t && this.compare == compare && this.execute == execute && emitted == []
      ensures State() == PB.InstanceState(PB.CopyValues(map[], t.variables, order), InvalidID, 0, [], [])
      ensures StoredUnderIds(t) ==> variables == map k | k in t.variables :: t.variables[k].value
    {
      timeline := t;
      this.compare := compare;
      this.execute := execute;
      variables := map[];
      nodeHistory := [];
      currentNodeID := InvalidID;
      currentSceneID := 0;
      currentCharactersInScene := [];
      emitted := [];
      new;
      assert forall i :: 0 <= i < |order| ==> order[i] in t.variables by {
        forall i | 0 <= i < |order| ensures order[i] in t.variables {
          assert order[i] in order;
        }
      }
      InitializeVariables(order);
      if StoredUnderIds(t) {
        PB.InitializeCopiesAll(map[], t, order);
      }
    }

    /** InitializeVariables(): each variable's declared value stored under its ID, in the order `order`. */
    method InitializeVariables(order: seq<int32>)
      requires forall i :: 0 <= i < |order| ==> order[i] in timeline.variables
      modifies this`variables
      ensures variables == PB.CopyValues(old(variables), timeline.variables, order)
    {
      var i := 0;
      while i < |order|
        invariant 0 <= i <= |order|
        invariant PB.CopyValues(variables, timeline.variables, order[i..]) == PB.CopyValues(old(variables), timeline.variables, order)
      {
        var v := timeline.variables[order[i]];
        assert order[i..][1..] == order[i + 1..];
        variables := variables[v.id := v.value];
        i := i + 1;
      }
    }

    /** OnTimelineEvent(e). */
    method Emit(e: TimelineEvent)
      modifies this`emitted
      ensures emitted == old(emitted) + [e]
    {
      emitted := emitted + [e];
    }

    // -------------------------------------------------------------------------
    // DetermineNextNode

    /** The loop over a Branch node's predicates: the target of the first that holds, else the default. */
    method BranchTarget(ps: seq<P.Predicate>, otherwise: int32) returns (r: Option<int32>)
      ensures r == PB.BranchNext(timeline, variables, ps, otherwise, compare)
    {
      var i := 0;
      while i < |ps|
        invariant 0 <= i <= |ps|
        invariant PB.BranchNext(timeline, variables, ps[i..], otherwise, compare) == PB.BranchNext(timeline, variables, ps, otherwise, compare)
      {
        var b := PB.EvaluatePredicate(timeline, variables, ps[i], compare);
        if b.None? {
          return None;
        }
        if b.value {
          return Some(ps[i].nextNodeID);
        }
        assert ps[i..][1..] == ps[i + 1..];
        i := i + 1;
      }
      r := Some(otherwise);
    }

    /** The loop over a Consequence node's operations, executing each on the instance's value. */
    method RunOperations(ops: seq<O.Operation>) returns (completed: bool)
      modifies this`variables
      ensures PB.ApplyOperations(old(variables), ops, execute) == if completed then Done(variables) else Threw(variables)
    {
      var i := 0;
      while i < |ops|
        invariant 0 <= i <= |ops|
        invariant PB.ApplyOperations(variables, ops[i..], execute) == PB.ApplyOperations(old(variables), ops, execute)
      {
        assert ops[i..][1..] == ops[i + 1..];
        var id := ops[i].variableID;
        if id in variables {
          var v := execute(ops[i], variables[id]);
          if v.None? {
            return false;
          }
          variables := variables[id := v.value];
        }
        i := i + 1;
      }
      completed := true;
    }

    /** DetermineNextNode(choice): `completed` is false where the C# code throws. */
    method DetermineNextNode(choice: int32) returns (completed: bool)
      modifies this`variables, this`currentNodeID
      ensures PB.Determine(timeline, old(State()), choice, compare, execute) == if completed then Done(State()) else Threw(State())
    {
      if currentNodeID == InvalidID {
        currentNodeID := timeline.originNodeID;
        return true;
      }
      if currentNodeID !in timeline.nodes {
        return false;
      }
      match timeline.nodes[currentNodeID] {
        case DialogNode(_, _, _, _, _, _, next) =>
          currentNodeID := next;
        case DecisionNode(_, _, ds) =>
          if choice == -1 {
            return true;
          }
          if !(0 <= choice as int < |ds|) {
            return false;
          }
          currentNodeID := ds[choice].nextNodeID;
        case BranchNode(_, _, ps, otherwise) =>
          var next := BranchTarget(ps, otherwise);
          if next.None? {
            return false;
          }
          currentNodeID := next.value;
        case ConsequenceNode(_, _, next, ops) =>
          var ok := RunOperations(ops);
          if !ok {
            return false;
          }
          currentNodeID := next;
      }
      completed := true;
    }

    // -------------------------------------------------------------------------
    // ProcessCurrentNode

    /** One of the two loops over characters of a Dialog node, announcing each id of `xs` missing from `others`. */
    method Announce(xs: seq<int32>, others: seq<int32>, entering: bool) returns (completed: bool)
      modifies this`emitted
      ensures var r := PB.Announce(timeline, xs, others, entering);
        completed == r.Done? && emitted == old(emitted) + r.state
    {
      ghost var sent: seq<TimelineEvent> := [];
      assert [] + PB.Announce(timeline, xs, others, entering).state == PB.Announce(timeline, xs, others, entering).state;
      var i := 0;
      while i < |xs|
        invariant 0 <= i <= |xs|
        invariant emitted == old(emitted) + sent
        invariant PB.Announce(timeline, xs, others, entering) == PB.Following(sent, PB.Announce(timeline, xs[i..], others, entering))
      {
        assert xs[i..][1..] == xs[i + 1..];
        if xs[i] !in others {
          if xs[i] !in timeline.characters {
            return false;
          }
          var e := PB.CharacterEvent(xs[i], entering);
          Emit(e);
          FollowingStep(sent, e, PB.Announce(timeline, xs[i + 1..], others, entering));
          sent := sent + [e];
        }
        i := i + 1;
      }
      assert sent + [] == sent;
      completed := true;
    }

    /** The Dialog case of ProcessCurrentNode after the scene: the two character loops, then the line. */
    method ShowCast(n: TimelineNode) returns (completed: bool)
      requires n.DialogNode?
      modifies this`currentCharactersInScene, this`emitted
      ensures var r := PB.ShowCast(timeline, old(State()), n);
        completed == r.Done? && State() == r.state.state && emitted == old(emitted) + r.state.events
    {
      ghost var e0 := emitted;
      var ok := Announce(currentCharactersInScene, n.characterIDs, false);
      if !ok {
        return false;
      }
      ghost var e1 := emitted;
      ok := Announce(n.characterIDs, currentCharactersInScene, true);
      if !ok {
        assert emitted == e0 + (e1[|e0|..] + emitted[|e1|..]);
        return false;
      }
      currentCharactersInScene := n.characterIDs;
      if n.speakerID !in timeline.characters {
        assert emitted == e0 + (e1[|e0|..] + emitted[|e1|..]);
        return false;
      }
      ghost var e2 := emitted;
      Emit(DialogEvent(n.speakerID, n.dialog));
      assert emitted == e0 + (e1[|e0|..] + e2[|e1|..] + [DialogEvent(n.speakerID, n.dialog)]);
      completed := true;
    }

    /** The Dialog case of ProcessCurrentNode. */
    method ShowDialog(n: TimelineNode) returns (completed: bool)
      requires n.DialogNode?
      modifies this`currentSceneID, this`currentCharactersInScene, this`emitted
      ensures var r := PB.ProcessDialog(timeline, old(State()), n);
        completed == r.Done? && State() == r.state.state && emitted == old(emitted) + r.state.events
    {
      if currentSceneID != n.sceneID {
        if n.sceneID !in timeline.scenes {
          assert emitted == emitted + [];
          return false;
        }
        Emit(SceneChangesEvent(n.sceneID));
        currentSceneID := n.sceneID;
        ghost var e1 := emitted;
        completed := ShowCast(n);
        assert emitted == old(emitted) + ([SceneChangesEvent(n.sceneID)] + emitted[|e1|..]);
      } else {
        completed := ShowCast(n);
      }
    }

    /** The inner loop of the Decision case: whether every predicate of one decision holds, stopping at the first that does not. */
    method RequirementsMet(ps: seq<P.Predicate>) returns (r: Option<bool>)
      ensures r == PB.AllMet(timeline, variables, ps, compare)
    {
      var j := 0;
      while j < |ps|
        invariant 0 <= j <= |ps|
        invariant PB.AllMet(timeline, variables, ps[j..], compare) == PB.AllMet(timeline, variables, ps, compare)
      {
        var b := PB.EvaluatePredicate(timeline, variables, ps[j], compare);
        if b.None? {
          return None;
        }
        if !b.value {
          return Some(false);
        }
        assert ps[j..][1..] == ps[j + 1..];
        j := j + 1;
      }
      r := Some(true);
    }

    /** The outer loop of the Decision case: a HamChoiceEvent holding every decision whose requirements are met. */
    method OfferChoices(ds: seq<Decision>) returns (r: Option<TimelineEvent>)
      ensures var m := PB.ChoicesFrom(timeline, variables, ds, 0, map[], compare);
        r.Some? == m.Some? && (r.Some? ==> r.value == ChoiceEvent(m.value))
    {
      var evt := new ChoiceBuilder();
      var i := 0;
      while i < |ds|
        invariant 0 <= i <= |ds|
        invariant PB.ChoicesFrom(timeline, variables, ds, i, evt.choices, compare) == PB.ChoicesFrom(timeline, variables, ds, 0, map[], compare)
      {
        var met := RequirementsMet(ds[i].predicates);
        if met.None? {
          return None;
        }
        if met.value {
          evt.AddChoice(i, ds[i]);
        }
        i := i + 1;
      }
      r := Some(evt.Event());
    }

    /**
     * ProcessCurrentNode(): `completed` is false where the C# code throws, and `stop` is
     * its return value.
     */
    method ProcessCurrentNode() returns (completed: bool, stop: bool)
      modifies this`nodeHistory, this`currentSceneID, this`currentCharactersInScene, this`emitted
      ensures var r := PB.Process(timeline, old(State()), compare);
        completed == r.Done? && stop == r.state.stop && State() == r.state.state
        && emitted == old(emitted) + r.state.events
    {
      if currentNodeID == InvalidID {
        assert emitted == emitted + [];
        return true, true;
      }
      nodeHistory := nodeHistory + [currentNodeID];
      if currentNodeID !in timeline.nodes {
        assert emitted == emitted + [];
        return false, false;
      }
      var n := timeline.nodes[currentNodeID];
      match n
      case DialogNode(_, _, _, _, _, _, _) =>
        completed := ShowDialog(n);
        stop := completed;
      case DecisionNode(_, _, ds) =>
        var e := OfferChoices(ds);
        if e.None? {
          assert emitted == emitted + [];
          return false, false;
        }
        Emit(e.value);
        return true, true;
      case BranchNode(_, _, _, _) =>
        assert emitted == emitted + [];
        return true, false;
      case ConsequenceNode(_, _, _, _) =>
        assert emitted == emitted + [];
        return true, false;
    }

    // -------------------------------------------------------------------------
    // Advance

    /** One turn of Advance's loop. */
    method Round(choice: int32) returns (completed: bool, stop: bool)
      modifies this`variables, this`currentNodeID, this`nodeHistory, this`currentSceneID,
        this`currentCharactersInScene, this`emitted
      ensures var r := PB.Round(timeline, old(State()), choice, compare, execute);
        completed == r.Done? && stop == r.state.stop && State() == r.state.state
        && emitted == old(emitted) + r.state.events
    {
      var ok := DetermineNextNode(choice);
      if !ok {
        assert emitted == emitted + [];
        return false, false;
      }
      completed, stop := ProcessCurrentNode();
    }

    /**
     * Advance(choice): DetermineNextNode(choice), then ProcessCurrentNode(), until the
     * latter returns true. At most `fuel` rounds run.
     */
    method Advance(choice: int32, fuel: nat) returns (status: PB.Status)
      modifies this`variables, this`currentNodeID, this`nodeHistory, this`currentSceneID,
        this`currentCharactersInScene, this`emitted
      ensures var r := PB.Advance(timeline, old(State()), choice, compare, execute, fuel);
        State() == r.state && emitted == old(emitted) + r.events && status == r.status
    {
      ghost var sent: seq<TimelineEvent> := [];
      var f := fuel;
      while f > 0
        invariant emitted == old(emitted) + sent
        invariant PB.Advance(timeline, old(State()), choice, compare, execute, fuel)
               == PB.Resume(sent, PB.Advance(timeline, State(), choice, compare, execute, f))
      {
        ghost var s0 := State();
        ghost var r := PB.Round(timeline, s0, choice, compare, execute);
        var done, stop := Round(choice);
        EventsAssoc(old(emitted), sent, r.state.events);
        if !done || stop {
          status := if done then PB.Stopped else PB.Failed;
          assert PB.Advance(timeline, s0, choice, compare, execute, f) == PB.Run(State(), r.state.events, status);
          return;
        }
        ResumeTwice(sent, r.state.events, PB.Advance(timeline, State(), choice, compare, execute, f - 1));
        sent := sent + r.state.events;
        f := f - 1;
      }
      assert sent + [] == sent;
      status := PB.OutOfFuel;
    }

    // -------------------------------------------------------------------------
    // Saving

    /** Pack(packer), with the Dictionaries visited in the orders `e` and `order`. */
    method Pack(packer: Packer, e: Enumeration, order: seq<int32>, c: Codec)
      requires Enumerates(e, timeline) && forall k :: k in timeline.nodes ==> Packable(timeline.nodes[k])
      requires VisitsAll(order, variables) && |currentCharactersInScene| <= MaxInt32 && |nodeHistory| <= MaxInt32
      modifies packer
      ensures packer.buffer == old(packer.buffer) + InstanceBytes(Saved(timeline, State()), e, order, c)
    {
      PackInstance(packer, Saved(timeline, State()), e, order, c);
    }

    /** Stores what Unpack read. */
    method Load(sv: Saved)
      modifies this`timeline, this`variables, this`currentNodeID, this`currentSceneID,
        this`currentCharactersInScene, this`nodeHistory
      ensures timeline == sv.timeline && State() == sv.state
    {
      timeline := sv.timeline;
      variables, currentNodeID, currentSceneID := sv.state.variables, sv.state.currentNodeID, sv.state.currentSceneID;
      currentCharactersInScene, nodeHistory := sv.state.charactersInScene, sv.state.nodeHistory;
    }

    /**
     * Unpack(unpacker): a fresh timeline, then the instance's own fields as
     * ParseInstanceInto says. A read that fails leaves the fields in a state this model
     * does not describe.
     */
    method Unpack(u: Unpacker, c: Codec) returns (completed: bool)
      requires u.Valid()
      modifies this`timeline, this`variables, this`currentNodeID, this`currentSceneID,
        this`currentCharactersInScene, this`nodeHistory, u
      ensures u.Valid()
      ensures ReadAs(ParseInstanceInto(old(State()), old(u.Remaining()), c),
                     if completed then Some(Saved(timeline, State())) else None, u.Remaining())
    {
      var r := UnpackInstanceInto(u, State(), c);
      if r.None? {
        return false;
      }
      Load(r.value);
      completed := true;
    }
  }

  /** An event sent after the events `es` extends them. */
  lemma FollowingStep(es: seq<TimelineEvent>, e: TimelineEvent, r: Outcome<seq<TimelineEvent>>)
    ensures PB.Following(es, PB.Following([e], r)) == PB.Following(es + [e], r)
  {
    assert es + ([e] + r.state) == (es + [e]) + r.state;
  }

  lemma EventsAssoc(a: seq<TimelineEvent>, b: seq<TimelineEvent>, c: seq<TimelineEvent>)
    ensures (a + b) + c == a + (b + c)
  {
  }

  /** A round's events after those of earlier rounds. */
  lemma ResumeTwice(es: seq<TimelineEvent>, step: seq<TimelineEvent>, r: PB.Run)
    ensures PB.Resume(es, PB.Resume(step, r)) == PB.Resume(es + step, r)
  {
    assert es + (step + r.events) == (es + step) + r.events;
  }
}
