/**
 * Timeline variables and their values. VariableValue and its Compare and Execute are
 * not part of this model: the value is an opaque type, comparison and execution are
 * function parameters, and a value's own Pack/Unpack is an abstract codec whose round
 * trip is a premise.
 */
module Values {
  import opened Wrappers
  import opened Serializer

  /** HamTimeline.InvalidID: the id of nothing, marking an empty edge or an unset variable. */
  const InvalidID: int32 := -1

  type VariableValue(==, !new)

  /** A variable declared by a timeline: the template copied into every playthrough. */
  datatype TimelineVariable = TimelineVariable(id: int32, name: string, value: VariableValue)

  /** VariableValue.Compare(comparison, other), with the comparison as its byte code. */
  type Comparer = (byte, VariableValue, VariableValue) -> bool

  /** VariableValue.Pack / Unpack. */
  datatype ValueCodec = ValueCodec(encode: VariableValue -> seq<byte>, decode: seq<byte> -> Option<(VariableValue, nat)>)

  /** A value read from the front of `s`: decode tells how many bytes it takes, which must be there. */
  function DecodeValue(s: seq<byte>, vc: ValueCodec): (r: Parsed<VariableValue>)
  {
    var (v, n) :- vc.decode(s);
    if n <= |s| then Some((v, s[n..])) else None
  }

  /** Decoding finds again any value whose encoding comes first. */
  ghost predicate ValueCodecSound(vc: ValueCodec)
  {
    forall v, rest :: DecodeValue(vc.encode(v) + rest, vc) == Some((v, rest))
  }

  /** Everything the wire format needs beyond the primitives of the packer. */
  datatype Codec = Codec(text: TextCodec, value: ValueCodec)

  ghost predicate Sound(c: Codec)
  {
    TextCodecSound(c.text) && ValueCodecSound(c.value)
  }

  /** VariableValue.Pack(packer). */
  method PackValue(p: Packer, v: VariableValue, vc: ValueCodec)
    modifies p
    ensures p.buffer == old(p.buffer) + vc.encode(v)
  {
    p.buffer := p.buffer + vc.encode(v);
  }

  /** VariableValue.Unpack(unpacker), which reads whatever bytes its encoding takes. */
  method UnpackValue(u: Unpacker, vc: ValueCodec) returns (r: Option<VariableValue>)
    requires u.Valid()
    modifies u
    ensures u.Valid() && Consumed(DecodeValue(old(u.Remaining()), vc), r, old(u.Remaining()), u.Remaining())
  {
    var d := vc.decode(u.buffer[u.offset..]);
    if d.Some? && u.offset + d.value.1 <= |u.buffer| {
      r := Some(d.value.0);
      u.offset := u.offset + d.value.1;
    } else {
      r := None;
    }
  }

  /** The layout of a declared variable: id, value (type tag and payload), name. */
  function VariableBytes(v: TimelineVariable, c: Codec): seq<byte>
  {
    Int32Bytes(v.id) + c.value.encode(v.value) + TextBytes(v.name, c.text)
  }

  function ParseVariable(s: seq<byte>, c: Codec): Parsed<TimelineVariable>
  {
    var (id, t1) :- ParseInt(s);
    var (value, t2) :- DecodeValue(t1, c.value);
    var (name, t3) :- ParseText(t2, c.text);
    Some((TimelineVariable(id, name, value), t3))
  }

  /** Unpack(Pack(v)) restores a declared variable. */
  lemma {:induction false} ParseVariableRoundTrip(v: TimelineVariable, c: Codec, rest: seq<byte>)
    requires Sound(c)
    ensures ParseVariable(VariableBytes(v, c) + rest, c) == Some((v, rest))
  {
    var a, b, t := Int32Bytes(v.id), c.value.encode(v.value), TextBytes(v.name, c.text);
    ConcatAssoc(a + b, t, rest);
    ConcatAssoc(a, b, t + rest);
    ParseIntRoundTrip(v.id, b + (t + rest));
    ParseTextRoundTrip(v.name, c.text, rest);
  }
}
