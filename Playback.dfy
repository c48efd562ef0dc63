/**
 * What HamTimelineInstance.cs does when a timeline is played, as functions of the
 * instance's state: DetermineNextNode, ProcessCurrentNode and Advance, each with the
 * events it hands to the listener. Where the C# code throws (a missing dictionary key, a
 * list index out of range, an operation that fails), the result is `Threw` with the
 * state and events produced up to that point. The lemmas state what the code promises
 * about each kind of node.
 */
module Playback {
  import opened Wrappers
  import opened Serializer
  import opened Values
  import opened Lists
  import opened Nodes
  import opened Graphs
  import opened TimelineFormat
  import opened Events
  import Timelines
  import P = Predicates
  import O = Operations

  /** HamOperation.Execute(value): the value after the operation, or None where it throws. */
  type Executor = (O.Operation, VariableValue) -> Option<VariableValue>

  /** The fields of HamTimelineInstance besides the timeline it plays. */
  datatype InstanceState = InstanceState(
    variables: map<int32, VariableValue>, currentNodeID: int32, currentSceneID: int32,
    charactersInScene: seq<int32>, nodeHistory: seq<int32>)

  // ---------------------------------------------------------------------------
  // InitializeVariables

  /** The loop of InitializeVariables over the timeline's variables in the order `order` lists their keys. */
  function CopyValues(vars: map<int32, VariableValue>, tv: map<int32, TimelineVariable>, order: seq<int32>): map<int32, VariableValue>
    requires forall i :: 0 <= i < |order| ==> order[i] in tv
    decreases |order|
  {
    if |order| == 0 then vars
    else CopyValues(vars[tv[order[0]].id := tv[order[0]].value], tv, order[1..])
  }

  /** The declared values of the variables `ks` lists. */
  function ValuesAt(tv: map<int32, TimelineVariable>, ks: seq<int32>): map<int32, VariableValue>
    requires forall k :: k in ks ==> k in tv
  {
    map k | k in ks :: tv[k].value
  }

  /**
   * With each variable stored under its own ID, every key visited ends up with the declared
   * value, whatever the order; the other entries are kept.
   */
  lemma {:induction false} CopyValuesStored(vars: map<int32, VariableValue>, tv: map<int32, TimelineVariable>, order: seq<int32>)
    requires forall i :: 0 <= i < |order| ==> order[i] in tv && tv[order[i]].id == order[i]
    ensures CopyValues(vars, tv, order) == vars + ValuesAt(tv, order)
    decreases |order|
  {
    if |order| > 0 {
      var k0 := order[0];
      CopyValuesStored(vars[k0 := tv[k0].value], tv, order[1..]);
      ValuesAtCons(vars, tv, order);
    }
  }

  /** Storing the first value, then the rest, stores them all. */
  lemma ValuesAtCons(vars: map<int32, VariableValue>, tv: map<int32, TimelineVariable>, order: seq<int32>)
    requires |order| > 0 && forall i :: 0 <= i < |order| ==> order[i] in tv
    ensures vars[order[0] := tv[order[0]].value] + ValuesAt(tv, order[1..]) == vars + ValuesAt(tv, order)
  {
    InConsAll(order);
  }

  /** Visiting every variable of a timeline that stores them under their IDs copies each declared value. */
  lemma InitializeCopiesAll(vars: map<int32, VariableValue>, t: TimelineData, order: seq<int32>)
    requires StoredUnderIds(t) && VisitsAll(order, t.variables)
    ensures forall i :: 0 <= i < |order| ==> order[i] in t.variables
    ensures CopyValues(vars, t.variables, order) == vars + ValuesAt(t.variables, order)
    ensures ValuesAt(t.variables, order) == map k | k in t.variables :: t.variables[k].value
  {
    assert forall i :: 0 <= i < |order| ==> order[i] in t.variables && t.variables[order[i]].id == order[i] by {
      forall i | 0 <= i < |order| ensures order[i] in t.variables && t.variables[order[i]].id == order[i] {
        assert order[i] in order;
      }
    }
    CopyValuesStored(vars, t.variables, order);
  }

  // ---------------------------------------------------------------------------
  // EvaluatePredicate

  /**
   * EvaluatePredicate(p): false when the instance holds no value for the variable;
   * otherwise the timeline's answer for the instance's value, which throws (None) when the
   * timeline does not declare the variable.
   */
  function EvaluatePredicate(t: TimelineData, vars: map<int32, VariableValue>, p: P.Predicate, compare: Comparer): (r: Option<bool>)
    ensures r == Some(true) <==>
      p.variableID in vars && p.variableID != InvalidID && p.variableID in t.variables
      && compare(p.comparison, t.variables[p.variableID].value, vars[p.variableID])
    ensures r.None? <==> p.variableID in vars && p.variableID != InvalidID && p.variableID !in t.variables
  {
    if p.variableID !in vars then Some(false)
    else Timelines.EvaluatePredicate(t.variables, p, vars[p.variableID], compare)
  }

  // ---------------------------------------------------------------------------
  // Branch nodes

  /** The loop over a Branch node's predicates: the first that holds gives the next node, else the default. */
  function BranchNext(t: TimelineData, vars: map<int32, VariableValue>, ps: seq<P.Predicate>, otherwise: int32, compare: Comparer): Option<int32>
    decreases |ps|
  {
    if |ps| == 0 then Some(otherwise)
    else
      match EvaluatePredicate(t, vars, ps[0], compare)
      case None => None
      case Some(true) => Some(ps[0].nextNodeID)
      case Some(false) => BranchNext(t, vars, ps[1..], otherwise, compare)
  }

  /** Predicates that do not hold are passed over. */
  lemma {:induction false} BranchSkipsFalse(t: TimelineData, vars: map<int32, VariableValue>, ps: seq<P.Predicate>, otherwise: int32, compare: Comparer, i: nat)
    requires i <= |ps| && forall j :: 0 <= j < i ==> EvaluatePredicate(t, vars, ps[j], compare) == Some(false)
    ensures BranchNext(t, vars, ps, otherwise, compare) == BranchNext(t, vars, ps[i..], otherwise, compare)
    decreases i
  {
    if i > 0 {
      assert ps[1..][i - 1..] == ps[i..];
      BranchSkipsFalse(t, vars, ps[1..], otherwise, compare, i - 1);
    }
  }

  /**
   * A Branch node follows the lowest-index predicate that holds when all before it are
   * false; when none holds it follows DefaultNextID; and a predicate that throws before any
   * holds makes the node throw.
   */
  lemma BranchTakesFirstTrue(t: TimelineData, vars: map<int32, VariableValue>, ps: seq<P.Predicate>, otherwise: int32, compare: Comparer, i: nat)
    requires i <= |ps| && forall j :: 0 <= j < i ==> EvaluatePredicate(t, vars, ps[j], compare) == Some(false)
    ensures i == |ps| ==> BranchNext(t, vars, ps, otherwise, compare) == Some(otherwise)
    ensures i < |ps| && EvaluatePredicate(t, vars, ps[i], compare) == Some(true) ==>
      BranchNext(t, vars, ps, otherwise, compare) == Some(ps[i].nextNodeID)
    ensures i < |ps| && EvaluatePredicate(t, vars, ps[i], compare).None? ==>
      BranchNext(t, vars, ps, otherwise, compare).None?
  {
    BranchSkipsFalse(t, vars, ps, otherwise, compare, i);
  }

  // ---------------------------------------------------------------------------
  // Consequence nodes

  /**
   * The loop over a Consequence node's operations: each one whose variable the instance
   * holds is executed on that value, in list order; the others are skipped.
   */
  function ApplyOperations(vars: map<int32, VariableValue>, ops: seq<O.Operation>, execute: Executor): (r: Outcome<map<int32, VariableValue>>)
    ensures r.state.Keys == vars.Keys
    decreases |ops|
  {
    if |ops| == 0 then Done(vars)
    else if ops[0].variableID !in vars then ApplyOperations(vars, ops[1..], execute)
    else
      match execute(ops[0], vars[ops[0].variableID])
      case None => Threw(vars)
      case Some(v) => ApplyOperations(vars[ops[0].variableID := v], ops[1..], execute)
  }

  /** Operations run in order: running `a + b` runs `a`, then `b` on what `a` left, unless `a` throws. */
  lemma {:induction false} ApplyConcat(vars: map<int32, VariableValue>, a: seq<O.Operation>, b: seq<O.Operation>, execute: Executor)
    ensures ApplyOperations(vars, a + b, execute) ==
      match ApplyOperations(vars, a, execute)
      case Done(v) => ApplyOperations(v, b, execute)
      case Threw(v) => Threw(v)
    decreases |a|
  {
    if |a| > 0 {
      assert (a + b)[1..] == a[1..] + b;
      assert (a + b)[0] == a[0];
      if a[0].variableID !in vars {
        ApplyConcat(vars, a[1..], b, execute);
      } else {
        match execute(a[0], vars[a[0].variableID])
        case None =>
        case Some(v) => ApplyConcat(vars[a[0].variableID := v], a[1..], b, execute);
      }
    } else {
      assert a + b == b;
    }
  }

  /** A variable no operation names keeps its value. */
  lemma {:induction false} ApplyUntouched(vars: map<int32, VariableValue>, ops: seq<O.Operation>, execute: Executor, k: int32)
    requires k in vars && forall i :: 0 <= i < |ops| ==> ops[i].variableID != k
    ensures ApplyOperations(vars, ops, execute).state[k] == vars[k]
    decreases |ops|
  {
    if |ops| > 0 {
      if ops[0].variableID !in vars {
        ApplyUntouched(vars, ops[1..], execute, k);
      } else {
        match execute(ops[0], vars[ops[0].variableID])
        case None =>
        case Some(v) => ApplyUntouched(vars[ops[0].variableID := v], ops[1..], execute, k);
      }
    }
  }

  /** Operations on variables the instance does not hold are all skipped: nothing runs and nothing throws. */
  lemma {:induction false} ApplySkipsMissing(vars: map<int32, VariableValue>, ops: seq<O.Operation>, execute: Executor)
    requires forall i :: 0 <= i < |ops| ==> ops[i].variableID !in vars
    ensures ApplyOperations(vars, ops, execute) == Done(vars)
    decreases |ops|
  {
    if |ops| > 0 {
      ApplySkipsMissing(vars, ops[1..], execute);
    }
  }

  // ---------------------------------------------------------------------------
  // Decision nodes

  /** The inner loop for one decision: its requirements are met unless one predicate is false (evaluation stops there). */
  function AllMet(t: TimelineData, vars: map<int32, VariableValue>, ps: seq<P.Predicate>, compare: Comparer): Option<bool>
    decreases |ps|
  {
    if |ps| == 0 then Some(true)
    else
      match EvaluatePredicate(t, vars, ps[0], compare)
      case None => None
      case Some(false) => Some(false)
      case Some(true) => AllMet(t, vars, ps[1..], compare)
  }

  /** A decision's requirements are met exactly when every one of its predicates holds. */
  lemma {:induction false} AllMetMeans(t: TimelineData, vars: map<int32, VariableValue>, ps: seq<P.Predicate>, compare: Comparer)
    ensures AllMet(t, vars, ps, compare) == Some(true) <==>
      forall j :: 0 <= j < |ps| ==> EvaluatePredicate(t, vars, ps[j], compare) == Some(true)
    decreases |ps|
  {
    if |ps| > 0 {
      AllMetMeans(t, vars, ps[1..], compare);
      assert forall j :: 1 <= j < |ps| ==> ps[j] == ps[1..][j - 1];
    }
  }

  /** The outer loop: each decision from index `i` on whose requirements are met is added under its index. */
  function ChoicesFrom(t: TimelineData, vars: map<int32, VariableValue>, ds: seq<Decision>, i: nat, acc: map<int, Decision>, compare: Comparer): Option<map<int, Decision>>
    requires i <= |ds|
    decreases |ds| - i
  {
    if i == |ds| then Some(acc)
    else
      match AllMet(t, vars, ds[i].predicates, compare)
      case None => None
      case Some(met) => ChoicesFrom(t, vars, ds, i + 1, if met then acc[i := ds[i]] else acc, compare)
  }

  /** Whether decisions `i` onwards are offered, as the lemmas below state it. */
  predicate Offered(t: TimelineData, vars: map<int32, VariableValue>, ds: seq<Decision>, k: int, compare: Comparer)
  {
    0 <= k < |ds| && AllMet(t, vars, ds[k].predicates, compare) == Some(true)
  }

  /**
   * The choices built from index `i` on: the entries already there, and each later index
   * whose requirements are met, with its own decision; it throws exactly when evaluating
   * some later decision's requirements throws.
   */
  lemma {:induction false} ChoicesFromMeans(t: TimelineData, vars: map<int32, VariableValue>, ds: seq<Decision>, i: nat, acc: map<int, Decision>, compare: Comparer)
    requires i <= |ds| && forall k :: k in acc ==> k < i
    ensures ChoicesFrom(t, vars, ds, i, acc, compare).Some? <==>
      forall k :: i <= k < |ds| ==> AllMet(t, vars, ds[k].predicates, compare).Some?
    ensures ChoicesFrom(t, vars, ds, i, acc, compare).Some? ==>
      var m := ChoicesFrom(t, vars, ds, i, acc, compare).value;
      (forall k :: k in m <==> k in acc || (i <= k && Offered(t, vars, ds, k, compare)))
      && (forall k :: k in m ==> m[k] == if k in acc then acc[k] else ds[k])
    decreases |ds| - i
  {
    if i < |ds| {
      match AllMet(t, vars, ds[i].predicates, compare)
      case None =>
      case Some(met) =>
        ChoicesFromMeans(t, vars, ds, i + 1, if met then acc[i := ds[i]] else acc, compare);
    }
  }

  /**
   * The Choice event's map: when evaluating no requirement throws, its keys are exactly the
   * indices of the decisions whose predicates all hold, each with its own decision.
   */
  lemma ChoiceKeys(t: TimelineData, vars: map<int32, VariableValue>, ds: seq<Decision>, compare: Comparer)
    requires ChoicesFrom(t, vars, ds, 0, map[], compare).Some?
    ensures var m := ChoicesFrom(t, vars, ds, 0, map[], compare).value;
      forall k :: (k in m <==> 0 <= k < |ds| && forall j :: 0 <= j < |ds[k].predicates| ==>
                                 EvaluatePredicate(t, vars, ds[k].predicates[j], compare) == Some(true))
                  && (k in m ==> m[k] == ds[k])
  {
    ChoicesFromMeans(t, vars, ds, 0, map[], compare);
    forall k | 0 <= k < |ds| {
      AllMetMeans(t, vars, ds[k].predicates, compare);
    }
  }

  // ---------------------------------------------------------------------------
  // DetermineNextNode

  /**
   * DetermineNextNode(choice). From InvalidID it goes to the origin. Otherwise the current
   * node decides: a Dialog node's NextNodeID; for a Decision node, the chosen decision's
   * NextNodeID, or no move at all when `choice` is -1; a Branch node's first predicate that
   * holds; a Consequence node's NextNodeID after its operations have run.
   */
  function Determine(t: TimelineData, s: InstanceState, choice: int32, compare: Comparer, execute: Executor): (r: Outcome<InstanceState>)
    ensures r.state.nodeHistory == s.nodeHistory && r.state.currentSceneID == s.currentSceneID
    ensures r.state.charactersInScene == s.charactersInScene && r.state.variables.Keys == s.variables.Keys
  {
    if s.currentNodeID == InvalidID then Done(s.(currentNodeID := t.originNodeID))
    else if s.currentNodeID !in t.nodes then Threw(s)
    else
      match t.nodes[s.currentNodeID]
      case DialogNode(_, _, _, _, _, _, next) => Done(s.(currentNodeID := next))
      case DecisionNode(_, _, ds) =>
        if choice == -1 then Done(s)
        else if 0 <= choice as int < |ds| then Done(s.(currentNodeID := ds[choice].nextNodeID))
        else Threw(s)
      case BranchNode(_, _, ps, otherwise) =>
        (match BranchNext(t, s.variables, ps, otherwise, compare)
         case None => Threw(s)
         case Some(next) => Done(s.(currentNodeID := next)))
      case ConsequenceNode(_, _, next, ops) =>
        match ApplyOperations(s.variables, ops, execute)
        case Threw(vars) => Threw(s.(variables := vars))
        case Done(vars) => Done(s.(variables := vars, currentNodeID := next))
  }

  /** Whenever the current node is InvalidID the next one is the origin, whatever happened before. */
  lemma InvalidGoesToOrigin(t: TimelineData, s: InstanceState, choice: int32, compare: Comparer, execute: Executor)
    requires s.currentNodeID == InvalidID
    ensures Determine(t, s, choice, compare, execute) == Done(s.(currentNodeID := t.originNodeID))
  {
  }

  /** A Dialog node moves on to its NextNodeID and changes nothing else. */
  lemma DialogFollows(t: TimelineData, s: InstanceState, choice: int32, compare: Comparer, execute: Executor)
    requires s.currentNodeID != InvalidID && s.currentNodeID in t.nodes && t.nodes[s.currentNodeID].DialogNode?
    ensures Determine(t, s, choice, compare, execute) == Done(s.(currentNodeID := t.nodes[s.currentNodeID].nextNodeID))
  {
  }

  /**
   * At a Decision node the choice decides: -1 leaves everything as it was (the source logs
   * "Expected a decision" and returns), an index of a decision moves to that decision's
   * NextNodeID, and any other index throws (ArgumentOutOfRange on Decisions[choice]).
   */
  lemma DecisionChoice(t: TimelineData, s: InstanceState, choice: int32, compare: Comparer, execute: Executor)
    requires s.currentNodeID != InvalidID && s.currentNodeID in t.nodes && t.nodes[s.currentNodeID].DecisionNode?
    ensures var ds := t.nodes[s.currentNodeID].decisions;
      && (choice == -1 ==> Determine(t, s, choice, compare, execute) == Done(s))
      && (0 <= choice as int < |ds| ==>
            Determine(t, s, choice, compare, execute) == Done(s.(currentNodeID := ds[choice].nextNodeID)))
      && (choice != -1 && !(0 <= choice as int < |ds|) ==> Determine(t, s, choice, compare, execute) == Threw(s))
  {
  }

  /**
   * A Branch node changes nothing but the current node, and which node it picks depends
   * only on the variables: from the same node with the same variables it picks the same one.
   */
  lemma BranchIdempotent(t: TimelineData, s1: InstanceState, s2: InstanceState, c1: int32, c2: int32, compare: Comparer, execute: Executor)
    requires s1.currentNodeID != InvalidID && s1.currentNodeID in t.nodes && t.nodes[s1.currentNodeID].BranchNode?
    requires s2.currentNodeID == s1.currentNodeID && s2.variables == s1.variables
    ensures Determine(t, s1, c1, compare, execute).state == s1.(currentNodeID := Determine(t, s1, c1, compare, execute).state.currentNodeID)
    ensures Determine(t, s2, c2, compare, execute).state.currentNodeID == Determine(t, s1, c1, compare, execute).state.currentNodeID
    ensures Determine(t, s2, c2, compare, execute).Done? == Determine(t, s1, c1, compare, execute).Done?
  {
  }

  // ---------------------------------------------------------------------------
  // ProcessCurrentNode

  /** What one ProcessCurrentNode call leaves: the state, the events sent in order, and whether Advance stops. */
  datatype Step = Step(state: InstanceState, events: seq<TimelineEvent>, stop: bool)

  function CharacterEvent(id: int32, entering: bool): TimelineEvent
  {
    if entering then CharacterEntersEvent(id) else CharacterLeavesEvent(id)
  }

  /** The events `es` sent before those of `r`. */
  function Following(es: seq<TimelineEvent>, r: Outcome<seq<TimelineEvent>>): (r': Outcome<seq<TimelineEvent>>)
    ensures r'.Done? == r.Done? && r'.state == es + r.state
  {
    match r
    case Done(x) => Done(es + x)
    case Threw(x) => Threw(es + x)
  }

  /**
   * One of the two loops over characters of a Dialog node: each id of `xs` not in `others`
   * is looked up among the timeline's characters (a missing one throws) and announced.
   */
  function Announce(t: TimelineData, xs: seq<int32>, others: seq<int32>, entering: bool): Outcome<seq<TimelineEvent>>
    decreases |xs|
  {
    if |xs| == 0 then Done([])
    else if xs[0] in others then Announce(t, xs[1..], others, entering)
    else if xs[0] !in t.characters then Threw([])
    else Following([CharacterEvent(xs[0], entering)], Announce(t, xs[1..], others, entering))
  }

  /** The ids of `xs` that `ys` lacks, in the order of `xs`. */
  function Without(xs: seq<int32>, ys: seq<int32>): (r: seq<int32>)
    ensures forall x :: x in r <==> x in xs && x !in ys
    decreases |xs|
  {
    if |xs| == 0 then []
    else if xs[0] in ys then Without(xs[1..], ys)
    else [xs[0]] + Without(xs[1..], ys)
  }

  /** One event for each id, in order. */
  function CharacterEvents(ids: seq<int32>, entering: bool): (r: seq<TimelineEvent>)
    ensures |r| == |ids| && forall i :: 0 <= i < |ids| ==> r[i] == CharacterEvent(ids[i], entering)
    decreases |ids|
  {
    if |ids| == 0 then [] else [CharacterEvent(ids[0], entering)] + CharacterEvents(ids[1..], entering)
  }

  /**
   * A character loop completes exactly when every id it announces is a character of the
   * timeline, and then it announces exactly the ids of `xs` that `others` lacks, in order.
   */
  lemma {:induction false} AnnounceMeans(t: TimelineData, xs: seq<int32>, others: seq<int32>, entering: bool)
    ensures Announce(t, xs, others, entering).Done? <==> forall x :: x in Without(xs, others) ==> x in t.characters
    ensures Announce(t, xs, others, entering).Done? ==>
      Announce(t, xs, others, entering).state == CharacterEvents(Without(xs, others), entering)
    decreases |xs|
  {
    if |xs| > 0 {
      AnnounceMeans(t, xs[1..], others, entering);
      if xs[0] !in others {
        assert Without(xs, others) == [xs[0]] + Without(xs[1..], others);
      }
    }
  }

  /** The events `es` sent before those of the step `r`. */
  function AfterEvents(es: seq<TimelineEvent>, r: Outcome<Step>): (r': Outcome<Step>)
    ensures r'.Done? == r.Done? && r'.state == r.state.(events := es + r.state.events)
  {
    match r
    case Done(st) => Done(st.(events := es + st.events))
    case Threw(st) => Threw(st.(events := es + st.events))
  }

  /**
   * The Dialog case after the scene: the characters leaving, the characters entering, the
   * node's character list stored, then the Dialog event.
   */
  function ShowCast(t: TimelineData, s: InstanceState, n: TimelineNode): (r: Outcome<Step>)
    requires n.DialogNode?
    ensures r.state.state.variables == s.variables && r.state.state.currentNodeID == s.currentNodeID
    ensures r.state.state.nodeHistory == s.nodeHistory && r.state.state.currentSceneID == s.currentSceneID
    ensures r.state.stop == r.Done?
  {
    match Announce(t, s.charactersInScene, n.characterIDs, false)
    case Threw(e2) => Threw(Step(s, e2, false))
    case Done(e2) =>
      match Announce(t, n.characterIDs, s.charactersInScene, true)
      case Threw(e3) => Threw(Step(s, e2 + e3, false))
      case Done(e3) =>
        var s2 := s.(charactersInScene := n.characterIDs);
        if n.speakerID !in t.characters then Threw(Step(s2, e2 + e3, false))
        else Done(Step(s2, e2 + e3 + [DialogEvent(n.speakerID, n.dialog)], true))
  }

  /**
   * The Dialog case of ProcessCurrentNode: a SceneChanges event when the scene differs,
   * then the cast and the line; the node's scene and character list become the instance's.
   */
  function ProcessDialog(t: TimelineData, s: InstanceState, n: TimelineNode): (r: Outcome<Step>)
    requires n.DialogNode?
    ensures r.state.state.variables == s.variables && r.state.state.currentNodeID == s.currentNodeID
    ensures r.state.state.nodeHistory == s.nodeHistory
    ensures r.state.stop == r.Done?
  {
    if s.currentSceneID == n.sceneID then ShowCast(t, s, n)
    else if n.sceneID !in t.scenes then Threw(Step(s, [], false))
    else AfterEvents([SceneChangesEvent(n.sceneID)], ShowCast(t, s.(currentSceneID := n.sceneID), n))
  }

  /**
   * ProcessCurrentNode(). At InvalidID: stop, with nothing changed. Otherwise the current
   * id joins the history first, then a Dialog node is shown and a Decision node offers its
   * choices (both stop), while Branch and Consequence nodes send nothing and let Advance go on.
   */
  function Process(t: TimelineData, s: InstanceState, compare: Comparer): (r: Outcome<Step>)
    ensures r.state.state.nodeHistory == s.nodeHistory + (if s.currentNodeID == InvalidID then [] else [s.currentNodeID])
    ensures r.state.state.variables == s.variables && r.state.state.currentNodeID == s.currentNodeID
    ensures r.Threw? ==> !r.state.stop
  {
    if s.currentNodeID == InvalidID then Done(Step(s, [], true))
    else
      var s1 := s.(nodeHistory := s.nodeHistory + [s.currentNodeID]);
      if s.currentNodeID !in t.nodes then Threw(Step(s1, [], false))
      else
        var n := t.nodes[s.currentNodeID];
        match n
        case DialogNode(_, _, _, _, _, _, _) => ProcessDialog(t, s1, n)
        case DecisionNode(_, _, ds) =>
          (match ChoicesFrom(t, s1.variables, ds, 0, map[], compare)
           case None => Threw(Step(s1, [], false))
           case Some(m) => Done(Step(s1, [ChoiceEvent(m)], true)))
        case BranchNode(_, _, _, _) => Done(Step(s1, [], false))
        case ConsequenceNode(_, _, _, _) => Done(Step(s1, [], false))
  }

  /** At InvalidID, ProcessCurrentNode stops without touching the history or sending anything. */
  lemma ProcessAtInvalid(t: TimelineData, s: InstanceState, compare: Comparer)
    requires s.currentNodeID == InvalidID
    ensures Process(t, s, compare) == Done(Step(s, [], true))
  {
  }

  /**
   * Process stops after InvalidID, a Dialog node or a Decision node, and goes on after a
   * Branch or Consequence node, which send no event and change nothing but the history.
   */
  lemma ProcessStops(t: TimelineData, s: InstanceState, compare: Comparer)
    requires Process(t, s, compare).Done?
    ensures var st := Process(t, s, compare).state;
      st.stop <==> s.currentNodeID == InvalidID || (s.currentNodeID in t.nodes && !t.nodes[s.currentNodeID].BranchNode? && !t.nodes[s.currentNodeID].ConsequenceNode?)
    ensures var st := Process(t, s, compare).state;
      !st.stop ==> st.events == [] && st.state == s.(nodeHistory := s.nodeHistory + [s.currentNodeID])
  {
  }

  /**
   * A Dialog node completes when its scene (if new), the characters leaving and entering and
   * the speaker are all known to the timeline. It then sends the SceneChanges event (only
   * when the scene differs), the characters leaving in the old order, the characters
   * entering in the node's order and the Dialog event, and leaves the instance in the
   * node's scene with the node's characters.
   */
  lemma DialogEvents(t: TimelineData, s: InstanceState, compare: Comparer)
    requires s.currentNodeID != InvalidID && s.currentNodeID in t.nodes && t.nodes[s.currentNodeID].DialogNode?
    ensures var n := t.nodes[s.currentNodeID];
      Process(t, s, compare).Done? <==>
        (s.currentSceneID != n.sceneID ==> n.sceneID in t.scenes)
        && (forall x :: x in Without(s.charactersInScene, n.characterIDs) ==> x in t.characters)
        && (forall x :: x in Without(n.characterIDs, s.charactersInScene) ==> x in t.characters)
        && n.speakerID in t.characters
    ensures var n, r := t.nodes[s.currentNodeID], Process(t, s, compare);
      r.Done? ==>
        && r.state.events ==
             (if s.currentSceneID != n.sceneID then [SceneChangesEvent(n.sceneID)] else [])
             + CharacterEvents(Without(s.charactersInScene, n.characterIDs), false)
             + CharacterEvents(Without(n.characterIDs, s.charactersInScene), true)
             + [DialogEvent(n.speakerID, n.dialog)]
        && r.state.state.currentSceneID == n.sceneID
        && r.state.state.charactersInScene == n.characterIDs
        && r.state.stop
  {
    var n := t.nodes[s.currentNodeID];
    var s1 := s.(nodeHistory := s.nodeHistory + [s.currentNodeID]);
    assert Process(t, s, compare) == ProcessDialog(t, s1, n);
    var a := CharacterEvents(Without(s.charactersInScene, n.characterIDs), false);
    var b := CharacterEvents(Without(n.characterIDs, s.charactersInScene), true);
    var d := [DialogEvent(n.speakerID, n.dialog)];
    if s.currentSceneID == n.sceneID {
      CastEvents(t, s1, n);
      EventsPrefix([], a, b, d);
    } else {
      CastEvents(t, s1.(currentSceneID := n.sceneID), n);
      EventsPrefix([SceneChangesEvent(n.sceneID)], a, b, d);
    }
  }

  lemma EventsPrefix(e: seq<TimelineEvent>, a: seq<TimelineEvent>, b: seq<TimelineEvent>, d: seq<TimelineEvent>)
    ensures e + (a + b + d) == e + a + b + d
  {
  }

  /** The cast and the line of a Dialog node, as DialogEvents states them. */
  lemma CastEvents(t: TimelineData, s: InstanceState, n: TimelineNode)
    requires n.DialogNode?
    ensures ShowCast(t, s, n).Done? <==>
      (forall x :: x in Without(s.charactersInScene, n.characterIDs) ==> x in t.characters)
      && (forall x :: x in Without(n.characterIDs, s.charactersInScene) ==> x in t.characters)
      && n.speakerID in t.characters
    ensures var r := ShowCast(t, s, n);
      r.Done? ==>
        && r.state.events ==
             CharacterEvents(Without(s.charactersInScene, n.characterIDs), false)
             + CharacterEvents(Without(n.characterIDs, s.charactersInScene), true)
             + [DialogEvent(n.speakerID, n.dialog)]
        && r.state.state.charactersInScene == n.characterIDs
  {
    AnnounceMeans(t, s.charactersInScene, n.characterIDs, false);
    AnnounceMeans(t, n.characterIDs, s.charactersInScene, true);
  }

  /** A Decision node sends exactly one Choice event, with the choices ChoiceKeys describes, and stops. */
  lemma DecisionEvent(t: TimelineData, s: InstanceState, compare: Comparer)
    requires s.currentNodeID != InvalidID && s.currentNodeID in t.nodes && t.nodes[s.currentNodeID].DecisionNode?
    requires Process(t, s, compare).Done?
    ensures var ds, st := t.nodes[s.currentNodeID].decisions, Process(t, s, compare).state;
      ChoicesFrom(t, s.variables, ds, 0, map[], compare).Some?
      && st.events == [ChoiceEvent(ChoicesFrom(t, s.variables, ds, 0, map[], compare).value)]
      && st.stop
  {
  }

  // ---------------------------------------------------------------------------
  // Advance

  datatype Status = Stopped | Failed | OutOfFuel

  /** What an Advance call leaves: the state, every event it sent, and how it ended. */
  datatype Run = Run(state: InstanceState, events: seq<TimelineEvent>, status: Status)

  /** The events `es` sent before those of the run `r`. */
  function Resume(es: seq<TimelineEvent>, r: Run): (r': Run)
    ensures r'.state == r.state && r'.status == r.status && r'.events == es + r.events
  {
    r.(events := es + r.events)
  }

  /**
   * One turn of Advance's do-while loop: DetermineNextNode(choice), then
   * ProcessCurrentNode() when the first did not throw.
   */
  function Round(t: TimelineData, s: InstanceState, choice: int32, compare: Comparer, execute: Executor): (r: Outcome<Step>)
    ensures r.Threw? ==> !r.state.stop
  {
    match Determine(t, s, choice, compare, execute)
    case Threw(s1) => Threw(Step(s1, [], false))
    case Done(s1) => Process(t, s1, compare)
  }

  /**
   * Advance(choice): rounds again and again until ProcessCurrentNode says stop. The source
   * loops for ever on a cycle of Branch and Consequence nodes; here at most `fuel` rounds run.
   */
  function Advance(t: TimelineData, s: InstanceState, choice: int32, compare: Comparer, execute: Executor, fuel: nat): Run
    decreases fuel
  {
    if fuel == 0 then Run(s, [], OutOfFuel)
    else
      match Round(t, s, choice, compare, execute)
      case Threw(st) => Run(st.state, st.events, Failed)
      case Done(st) =>
        if st.stop then Run(st.state, st.events, Stopped)
        else Resume(st.events, Advance(t, st.state, choice, compare, execute, fuel - 1))
  }

  /**
   * Advance returns only after ProcessCurrentNode said stop: at InvalidID, or at a node that
   * is neither a Branch nor a Consequence node and is the last entry of the history.
   */
  lemma {:induction false} AdvanceStops(t: TimelineData, s: InstanceState, choice: int32, compare: Comparer, execute: Executor, fuel: nat)
    requires Advance(t, s, choice, compare, execute, fuel).status == Stopped
    ensures var r := Advance(t, s, choice, compare, execute, fuel).state;
      r.currentNodeID == InvalidID
      || (r.currentNodeID in t.nodes && !t.nodes[r.currentNodeID].BranchNode? && !t.nodes[r.currentNodeID].ConsequenceNode?
          && |r.nodeHistory| > 0 && r.nodeHistory[|r.nodeHistory| - 1] == r.currentNodeID)
    decreases fuel
  {
    var s1 := Determine(t, s, choice, compare, execute).state;
    var st := Process(t, s1, compare).state;
    ProcessStops(t, s1, compare);
    if !st.stop {
      AdvanceStops(t, st.state, choice, compare, execute, fuel - 1);
    }
  }

  /** The history only grows: what Advance started from is a prefix of what it leaves. */
  lemma {:induction false} AdvanceHistoryGrows(t: TimelineData, s: InstanceState, choice: int32, compare: Comparer, execute: Executor, fuel: nat)
    ensures s.nodeHistory <= Advance(t, s, choice, compare, execute, fuel).state.nodeHistory
    decreases fuel
  {
    if fuel > 0 {
      var r := Round(t, s, choice, compare, execute);
      if r.Done? && !r.state.stop {
        AdvanceHistoryGrows(t, r.state.state, choice, compare, execute, fuel - 1);
      }
    }
  }

  /** The fuel bound is not part of the behaviour: a run that ended on its own ends the same way with more fuel. */
  lemma {:induction false} AdvanceFuelEnough(t: TimelineData, s: InstanceState, choice: int32, compare: Comparer, execute: Executor, fuel: nat, more: nat)
    requires Advance(t, s, choice, compare, execute, fuel).status != OutOfFuel && fuel <= more
    ensures Advance(t, s, choice, compare, execute, more) == Advance(t, s, choice, compare, execute, fuel)
    decreases fuel
  {
    var r := Round(t, s, choice, compare, execute);
    if r.Done? && !r.state.stop {
      AdvanceFuelEnough(t, r.state.state, choice, compare, execute, fuel - 1, more - 1);
    }
  }

  /**
   * Advance(-1) at a Decision node waits for a choice: the node stays current, it is
   * appended to the history once more and its Choice event is sent again.
   */
  lemma DecisionWaits(t: TimelineData, s: InstanceState, compare: Comparer, execute: Executor, fuel: nat)
    requires s.currentNodeID != InvalidID && s.currentNodeID in t.nodes && t.nodes[s.currentNodeID].DecisionNode?
    requires fuel > 0 && ChoicesFrom(t, s.variables, t.nodes[s.currentNodeID].decisions, 0, map[], compare).Some?
    ensures var r := Advance(t, s, -1, compare, execute, fuel);
      && r.status == Stopped
      && r.state == s.(nodeHistory := s.nodeHistory + [s.currentNodeID])
      && r.events == [ChoiceEvent(ChoicesFrom(t, s.variables, t.nodes[s.currentNodeID].decisions, 0, map[], compare).value)]
  {
    DecisionChoice(t, s, -1, compare, execute);
  }

  /**
   * Advance(choice) at a Decision node with the index of one of its decisions carries on
   * from that decision's NextNodeID, as if Advance had been called there after the move;
   * an index that names no decision fails without a move or an event.
   */
  lemma DecisionTaken(t: TimelineData, s: InstanceState, choice: int32, compare: Comparer, execute: Executor, fuel: nat)
    requires s.currentNodeID != InvalidID && s.currentNodeID in t.nodes && t.nodes[s.currentNodeID].DecisionNode?
    requires fuel > 0 && choice != -1
    ensures var ds := t.nodes[s.currentNodeID].decisions;
      0 <= choice as int < |ds| ==>
        Round(t, s, choice, compare, execute) == Process(t, s.(currentNodeID := ds[choice].nextNodeID), compare)
    ensures var ds := t.nodes[s.currentNodeID].decisions;
      !(0 <= choice as int < |ds|) ==> Advance(t, s, choice, compare, execute, fuel) == Run(s, [], Failed)
  {
    DecisionChoice(t, s, choice, compare, execute);
  }
}
