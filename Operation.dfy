/** HamOperation: a change to a timeline variable, applied when a Consequence node runs. */
module Operations {
  import opened Wrappers
  import opened Serializer
  import opened Values

  /** VariableOperation.Set, the first member of the operator enumeration. */
  const SetOperator: byte := 0

  /** The operator is kept as the byte it is packed as; Operand is a reference that may be null. */
  datatype Operation = Operation(variableID: int32, operator: byte, operand: Option<VariableValue>)

  /** An operation whose Operand is set exactly when its variable is. */
  predicate Valid(o: Operation)
  {
    o.operand.None? <==> o.variableID == InvalidID
  }

  /** new HamOperation(): no variable, Set, no operand. */
  function NewOperation(): (o: Operation)
    ensures o.variableID == InvalidID && o.operator == SetOperator && o.operand.None?
    ensures Valid(o)
  {
    Operation(InvalidID, SetOperator, None)
  }

  /**
   * SetVariable(timeline, id): clearing the variable nulls the operand; any other id
   * copies that variable's declared value, and fails when the timeline lacks it.
   */
  function SetVariable(o: Operation, variables: map<int32, TimelineVariable>, id: int32): (r: Option<Operation>)
    ensures r.None? <==> id != InvalidID && id !in variables
    ensures r.Some? ==> r.value.variableID == id && r.value.operator == o.operator && Valid(r.value)
    ensures r.Some? ==> r.value.operand == (if id == InvalidID then None else Some(variables[id].value))
  {
    if id == InvalidID then Some(o.(operand := None, variableID := id))
    else if id !in variables then None
    else Some(o.(operand := Some(variables[id].value), variableID := id))
  }

  /**
   * Label(timeline): "No Operation" when no variable is set; otherwise the operator's
   * name, the variable's name and the operand's label separated by spaces.
   */
  function Label(o: Operation, variables: map<int32, TimelineVariable>,
                 operatorName: byte -> string, valueLabel: VariableValue -> string): (r: Option<string>)
    ensures o.variableID == InvalidID ==> r == Some("No Operation")
    ensures o.variableID != InvalidID && Valid(o) && o.variableID in variables ==>
      r == Some(operatorName(o.operator) + " " + variables[o.variableID].name + " " + valueLabel(o.operand.value))
    ensures o.variableID != InvalidID && o.variableID !in variables ==> r.None?
    ensures o.variableID != InvalidID && o.operand.None? ==> r.None?
  {
    if o.variableID == InvalidID then Some("No Operation")
    else if o.variableID !in variables || o.operand.None? then None
    else Some(operatorName(o.operator) + " " + variables[o.variableID].name + " " + valueLabel(o.operand.value))
  }

  // ---------------------------------------------------------------------------
  // Wire layout: VariableID, operator byte, Operand only when a variable is set

  /** The bytes Pack writes; a set variable with a null operand, where Pack throws, writes no value here. */
  function OperationBytes(o: Operation, vc: ValueCodec): seq<byte>
  {
    Int32Bytes(o.variableID) + [o.operator]
    + (if o.variableID != InvalidID && o.operand.Some? then vc.encode(o.operand.value) else [])
  }

  /**
   * Unpack into an operation that held `prior`: its Operand is left as it was when the
   * unpacked VariableID is InvalidID.
   */
  function ParseOperationInto(prior: Operation, s: seq<byte>, vc: ValueCodec): (r: Parsed<Operation>)
    ensures r.Some? && r.value.0.variableID == InvalidID ==> r.value.0.operand == prior.operand
  {
    var (id, t1) :- ParseInt(s);
    var (oper, t2) :- ParseByte(t1);
    if id == InvalidID then Some((Operation(id, oper, prior.operand), t2))
    else
      var (v, t3) :- DecodeValue(t2, vc);
      Some((Operation(id, oper, Some(v)), t3))
  }

  /** The read a Consequence node's Unpack makes, into a fresh operation. */
  function ParseOperation(s: seq<byte>, vc: ValueCodec): (r: Parsed<Operation>)
    ensures r.Some? ==> Valid(r.value.0)
  {
    ParseOperationInto(NewOperation(), s, vc)
  }

  /** Unpack(Pack(o)) restores VariableID and the operator, and the operand when one is set. */
  lemma {:induction false} ParseOperationIntoRoundTrip(prior: Operation, o: Operation, vc: ValueCodec, rest: seq<byte>)
    requires Valid(o) && ValueCodecSound(vc)
    ensures ParseOperationInto(prior, OperationBytes(o, vc) + rest, vc) ==
      Some((o.(operand := if o.variableID == InvalidID then prior.operand else o.operand), rest))
  {
    var a, v := Int32Bytes(o.variableID), (if o.variableID != InvalidID && o.operand.Some? then vc.encode(o.operand.value) else []);
    ConcatAssoc(a + [o.operator], v, rest);
    ConcatAssoc(a, [o.operator], v + rest);
    ParseIntRoundTrip(o.variableID, [o.operator] + (v + rest));
    ParseByteRoundTrip(o.operator, v + rest);
    if o.variableID == InvalidID {
      assert v + rest == rest;
    }
  }

  /** Into a fresh operation, the round trip restores the whole operation. */
  lemma {:induction false} ParseOperationRoundTrip(o: Operation, vc: ValueCodec, rest: seq<byte>)
    requires Valid(o) && ValueCodecSound(vc)
    ensures ParseOperation(OperationBytes(o, vc) + rest, vc) == Some((o, rest))
  {
    ParseOperationIntoRoundTrip(NewOperation(), o, vc, rest);
  }

  method PackOperation(o: Operation, packer: Packer, vc: ValueCodec)
    requires Valid(o)
    modifies packer
    ensures packer.buffer == old(packer.buffer) + OperationBytes(o, vc)
  {
    packer.PackInt(o.variableID);
    packer.PackByte(o.operator);
    if o.variableID != InvalidID {
      PackValue(packer, o.operand.value, vc);
    }
  }

  method UnpackOperation(prior: Operation, u: Unpacker, vc: ValueCodec) returns (r: Option<Operation>)
    requires u.Valid()
    modifies u
    ensures u.Valid() && ReadAs(ParseOperationInto(prior, old(u.Remaining()), vc), r, u.Remaining())
  {
    var id := u.UnpackInt();
    if id.None? { return None; }
    var oper := u.UnpackByte();
    if oper.None? { return None; }
    var operand := prior.operand;
    if id.value != InvalidID {
      operand := UnpackValue(u, vc);
      if operand.None? { return None; }
    }
    r := Some(Operation(id.value, oper.value, operand));
  }
}
