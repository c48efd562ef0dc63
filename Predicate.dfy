/** HamPredicate: a condition on a timeline variable, and the edge a Branch takes when it holds. */
module Predicates {
  import opened Wrappers
  import opened Serializer
  import opened Values

  /**
   * The comparison is kept as the byte it is packed as (VariableComparison's declaration
   * is not part of this model). CompareValue is a reference that may be null.
   */
  datatype Predicate = Predicate(variableID: int32, comparison: byte, compareValue: Option<VariableValue>, nextNodeID: int32)

  /** What the constructor, SetVariable and Unpack keep: CompareValue is null exactly when no variable is set. */
  predicate Valid(p: Predicate)
  {
    p.compareValue.None? <==> p.variableID == InvalidID
  }

  /** new HamPredicate(): no variable, no edge; Comparison and CompareValue keep their defaults. */
  function NewPredicate(): (p: Predicate)
    ensures p.variableID == InvalidID && p.nextNodeID == InvalidID && p.compareValue.None?
    ensures Valid(p)
  {
    Predicate(InvalidID, 0, None, InvalidID)
  }

  /**
   * SetVariable(timeline, id): clearing the variable nulls CompareValue; any other id
   * copies that variable's declared value, and fails when the timeline lacks it.
   */
  function SetVariable(p: Predicate, variables: map<int32, TimelineVariable>, id: int32): (r: Option<Predicate>)
    ensures r.None? <==> id != InvalidID && id !in variables
    ensures r.Some? ==> r.value.variableID == id && Valid(r.value)
    ensures r.Some? ==> r.value.compareValue == (if id == InvalidID then None else Some(variables[id].value))
    ensures r.Some? ==> r.value.comparison == p.comparison && r.value.nextNodeID == p.nextNodeID
  {
    if id == InvalidID then Some(p.(compareValue := None, variableID := id))
    else if id !in variables then None
    else Some(p.(compareValue := Some(variables[id].value), variableID := id))
  }

  /**
   * Evaluate(timeline): false when no variable is set; otherwise the declared variable
   * compared with CompareValue. A missing variable or a null CompareValue throws.
   */
  function Evaluate(p: Predicate, variables: map<int32, TimelineVariable>, compare: Comparer): (r: Option<bool>)
    ensures p.variableID == InvalidID ==> r == Some(false)
    ensures p.variableID != InvalidID ==>
      r == if p.variableID in variables && p.compareValue.Some?
           then Some(compare(p.comparison, variables[p.variableID].value, p.compareValue.value))
           else None
  {
    if p.variableID == InvalidID then Some(false)
    else if p.variableID !in variables || p.compareValue.None? then None
    else Some(compare(p.comparison, variables[p.variableID].value, p.compareValue.value))
  }

  /**
   * Label(timeline): "No Comparison" when no variable is set; otherwise the variable's
   * name, the comparison's name and the value's label separated by spaces.
   */
  function Label(p: Predicate, variables: map<int32, TimelineVariable>,
                 comparisonName: byte -> string, valueLabel: VariableValue -> string): (r: Option<string>)
    ensures p.variableID == InvalidID ==> r == Some("No Comparison")
    ensures p.variableID != InvalidID && Valid(p) && p.variableID in variables ==>
      r == Some(variables[p.variableID].name + " " + comparisonName(p.comparison) + " " + valueLabel(p.compareValue.value))
    ensures p.variableID != InvalidID && p.variableID !in variables ==> r.None?
    ensures p.variableID != InvalidID && p.compareValue.None? ==> r.None?
  {
    if p.variableID == InvalidID then Some("No Comparison")
    else if p.variableID !in variables || p.compareValue.None? then None
    else Some(variables[p.variableID].name + " " + comparisonName(p.comparison) + " " + valueLabel(p.compareValue.value))
  }

  // ---------------------------------------------------------------------------
  // Wire layout: VariableID, comparison byte, CompareValue only when a variable is set, NextNodeID

  /** The bytes Pack writes; a set variable with a null CompareValue, where Pack throws, writes no value here. */
  function PredicateBytes(p: Predicate, vc: ValueCodec): seq<byte>
  {
    Int32Bytes(p.variableID) + [p.comparison]
    + (if p.variableID != InvalidID && p.compareValue.Some? then vc.encode(p.compareValue.value) else [])
    + Int32Bytes(p.nextNodeID)
  }

  function ParsePredicate(s: seq<byte>, vc: ValueCodec): (r: Parsed<Predicate>)
    ensures r.Some? ==> Valid(r.value.0)
  {
    var (id, t1) :- ParseInt(s);
    var (cmp, t2) :- ParseByte(t1);
    var (value, t3) :-
      if id == InvalidID then Some((None, t2))
      else match DecodeValue(t2, vc)
        case None => None
        case Some((v, t)) => Some((Some(v), t));
    var (next, t4) :- ParseInt(t3);
    Some((Predicate(id, cmp, value, next), t4))
  }

  /** Unpack(Pack(p)) restores the predicate, CompareValue included. */
  lemma {:induction false} ParsePredicateRoundTrip(p: Predicate, vc: ValueCodec, rest: seq<byte>)
    requires Valid(p) && ValueCodecSound(vc)
    ensures ParsePredicate(PredicateBytes(p, vc) + rest, vc) == Some((p, rest))
  {
    var a, v, d := Int32Bytes(p.variableID), (if p.variableID != InvalidID && p.compareValue.Some? then vc.encode(p.compareValue.value) else []), Int32Bytes(p.nextNodeID);
    ConcatAssoc(a + [p.comparison] + v, d, rest);
    ConcatAssoc(a + [p.comparison], v, d + rest);
    ConcatAssoc(a, [p.comparison], v + (d + rest));
    ParseIntRoundTrip(p.variableID, [p.comparison] + (v + (d + rest)));
    ParseByteRoundTrip(p.comparison, v + (d + rest));
    if p.variableID == InvalidID {
      assert v + (d + rest) == d + rest;
    }
    ParseIntRoundTrip(p.nextNodeID, rest);
  }

  method PackPredicate(p: Predicate, packer: Packer, vc: ValueCodec)
    requires Valid(p)
    modifies packer
    ensures packer.buffer == old(packer.buffer) + PredicateBytes(p, vc)
  {
    packer.PackInt(p.variableID);
    packer.PackByte(p.comparison);
    if p.variableID != InvalidID {
      PackValue(packer, p.compareValue.value, vc);
    }
    packer.PackInt(p.nextNodeID);
  }

  method UnpackPredicate(u: Unpacker, vc: ValueCodec) returns (r: Option<Predicate>)
    requires u.Valid()
    modifies u
    ensures u.Valid() && ReadAs(ParsePredicate(old(u.Remaining()), vc), r, u.Remaining())
  {
    var id := u.UnpackInt();
    if id.None? { return None; }
    var cmp := u.UnpackByte();
    if cmp.None? { return None; }
    var value := None;
    if id.value != InvalidID {
      var v := UnpackValue(u, vc);
      if v.None? { return None; }
      value := v;
    }
    var next := u.UnpackInt();
    if next.None? { return None; }
    r := Some(Predicate(id.value, cmp.value, value, next.value));
  }
}
