/**
 * The wire layout of a timeline node (the static and per-variant Pack/Unpack of
 * Timeline/HamTimelineNode.cs): its type byte, id and parent list, then the variant's fields.
 */
module NodePacking {
  import opened Wrappers
  import opened Serializer
  import opened Values
  import opened Nodes
  import P = Predicates
  import O = Operations

  // ---------------------------------------------------------------------------
  // Item layouts and item parsers, as function values for the list layouts

  function PredicateEncoder(vc: ValueCodec): P.Predicate -> seq<byte>
  {
    p => P.PredicateBytes(p, vc)
  }

  function PredicateParser(vc: ValueCodec): seq<byte> -> Parsed<P.Predicate>
  {
    s => P.ParsePredicate(s, vc)
  }

  function OperationEncoder(vc: ValueCodec): O.Operation -> seq<byte>
  {
    o => O.OperationBytes(o, vc)
  }

  function OperationParser(vc: ValueCodec): seq<byte> -> Parsed<O.Operation>
  {
    s => O.ParseOperation(s, vc)
  }

  function DecisionEncoder(c: Codec): Decision -> seq<byte>
  {
    d => DecisionBytes(d, c)
  }

  function DecisionParser(c: Codec): seq<byte> -> Parsed<Decision>
  {
    s => ParseDecision(s, c)
  }

  // ---------------------------------------------------------------------------
  // Layouts

  /** Decision.Pack: text, IsDialog, the predicates, NextNodeID. */
  function DecisionBytes(d: Decision, c: Codec): seq<byte>
  {
    TextBytes(d.decisionText, c.text) + BoolBytes(d.isDialog) + ListBytes(d.predicates, PredicateEncoder(c.value)) + Int32Bytes(d.nextNodeID)
  }

  /** The variant's own Pack. */
  function BodyBytes(n: TimelineNode, c: Codec): seq<byte>
  {
    match n
    case DialogNode(_, _, scene, chars, speaker, dialog, next) =>
      Int32Bytes(scene) + ListBytes(chars, Int32Bytes) + Int32Bytes(speaker) + TextBytes(dialog, c.text) + Int32Bytes(next)
    case BranchNode(_, _, ps, dflt) =>
      Int32Bytes(dflt) + ListBytes(ps, PredicateEncoder(c.value))
    case DecisionNode(_, _, ds) =>
      ListBytes(ds, DecisionEncoder(c))
    case ConsequenceNode(_, _, next, ops) =>
      Int32Bytes(next) + ListBytes(ops, OperationEncoder(c.value))
  }

  /** The type byte, ID and parent list that HamTimelineNode.Pack(node, packer) writes first. */
  function HeaderBytes(n: TimelineNode): seq<byte>
  {
    [TypeCode(n.Type())] + Int32Bytes(n.id) + ListBytes(n.previousNodeIDs, Int32Bytes)
  }

  /** HamTimelineNode.Pack(node, packer): the header, then the variant's fields. */
  function NodeBytes(n: TimelineNode, c: Codec): seq<byte>
  {
    HeaderBytes(n) + BodyBytes(n, c)
  }

  /** Every predicate of the decision can be packed. */
  predicate DecisionPackable(d: Decision)
  {
    forall p :: p in d.predicates ==> P.Valid(p)
  }

  /** Every predicate and operation of the node can be packed (a set variable has its value). */
  predicate Packable(n: TimelineNode)
  {
    match n
    case DialogNode(_, _, _, _, _, _, _) => true
    case BranchNode(_, _, ps, _) => forall p :: p in ps ==> P.Valid(p)
    case DecisionNode(_, _, ds) => forall d :: d in ds ==> DecisionPackable(d)
    case ConsequenceNode(_, _, _, ops) => forall o :: o in ops ==> O.Valid(o)
  }

  // ---------------------------------------------------------------------------
  // Parsers

  function ParseDecision(s: seq<byte>, c: Codec): Parsed<Decision>
  {
    var (text, t1) :- ParseText(s, c.text);
    var (isDialog, t2) :- ParseBool(t1);
    var (ps, t3) :- ParseList(t2, PredicateParser(c.value));
    var (next, t4) :- ParseInt(t3);
    Some((Decision(text, isDialog, ps, next), t4))
  }

  /** The variant's own Unpack, into a node of type t that already has its id and parents. */
  function ParseBody(t: NodeType, id: int32, prev: Many<int32>, s: seq<byte>, c: Codec): (r: Parsed<TimelineNode>)
    ensures r.Some? ==> r.value.0.Type() == t && r.value.0.id == id && r.value.0.previousNodeIDs == prev
  {
    match t
    case DialogType =>
      var (scene, t1) :- ParseInt(s);
      var (chars, t2) :- ParseList(t1, ParseInt);
      var (speaker, t3) :- ParseInt(t2);
      var (dialog, t4) :- ParseText(t3, c.text);
      var (next, t5) :- ParseInt(t4);
      Some((DialogNode(id, prev, scene, chars, speaker, dialog, next), t5))
    case BranchType =>
      var (dflt, t1) :- ParseInt(s);
      var (ps, t2) :- ParseList(t1, PredicateParser(c.value));
      Some((BranchNode(id, prev, ps, dflt), t2))
    case DecisionType =>
      var (ds, t1) :- ParseList(s, DecisionParser(c));
      Some((DecisionNode(id, prev, ds), t1))
    case ConsequenceType =>
      var (next, t1) :- ParseInt(s);
      var (ops, t2) :- ParseList(t1, OperationParser(c.value));
      Some((ConsequenceNode(id, prev, next, ops), t2))
  }

  /** What the header holds: the type byte, the ID and the parents. */
  datatype Header = Header(code: byte, id: int32, prev: Many<int32>)

  function ParseHeader(s: seq<byte>): Parsed<Header>
  {
    var (code, t1) :- ParseByte(s);
    var (id, t2) :- ParseInt(t1);
    var (prev, t3) :- ParseList(t2, ParseInt);
    Some((Header(code, id, prev), t3))
  }

  /**
   * HamTimelineNode.Unpack(out node, unpacker): the type byte, ID and parents are read
   * first; a type byte naming no variant yields null.
   */
  function ParseNode(s: seq<byte>, c: Codec): Parsed<TimelineNode>
  {
    var (h, t) :- ParseHeader(s);
    var ty :- TypeOfCode(h.code);
    ParseBody(ty, h.id, h.prev, t, c)
  }

  // ---------------------------------------------------------------------------
  // Round trips

  lemma {:induction false} IntsItems(xs: seq<int32>)
    ensures ItemsRoundTrip(xs, Int32Bytes, ParseInt)
  {
    forall x, rest | x in xs ensures ParseInt(Int32Bytes(x) + rest) == Some((x, rest)) {
      ParseIntRoundTrip(x, rest);
    }
  }

  lemma {:induction false} IntsRoundTrip(xs: Many<int32>, rest: seq<byte>)
    ensures ParseList(ListBytes(xs, Int32Bytes) + rest, ParseInt) == Some((xs, rest))
  {
    IntsItems(xs);
    ParseListRoundTrip(xs, Int32Bytes, ParseInt, rest);
  }

  lemma {:induction false} PredicatesItems(ps: seq<P.Predicate>, vc: ValueCodec)
    requires ValueCodecSound(vc) && forall p :: p in ps ==> P.Valid(p)
    ensures ItemsRoundTrip(ps, PredicateEncoder(vc), PredicateParser(vc))
  {
    forall x, rest | x in ps ensures PredicateParser(vc)(PredicateEncoder(vc)(x) + rest) == Some((x, rest)) {
      P.ParsePredicateRoundTrip(x, vc, rest);
    }
  }

  lemma {:induction false} OperationsItems(ops: seq<O.Operation>, vc: ValueCodec)
    requires ValueCodecSound(vc) && forall o :: o in ops ==> O.Valid(o)
    ensures ItemsRoundTrip(ops, OperationEncoder(vc), OperationParser(vc))
  {
    forall x, rest | x in ops ensures OperationParser(vc)(OperationEncoder(vc)(x) + rest) == Some((x, rest)) {
      O.ParseOperationRoundTrip(x, vc, rest);
    }
  }

  /** Unpack(Pack(d)) restores a decision: text, IsDialog, predicates and edge. */
  lemma {:induction false} DecisionRoundTrip(d: Decision, c: Codec, rest: seq<byte>)
    requires Sound(c) && DecisionPackable(d)
    ensures ParseDecision(DecisionBytes(d, c) + rest, c) == Some((d, rest))
  {
    var a, b, l, e := TextBytes(d.decisionText, c.text), BoolBytes(d.isDialog), ListBytes(d.predicates, PredicateEncoder(c.value)), Int32Bytes(d.nextNodeID);
    ConcatAssoc(a + b + l, e, rest);
    ConcatAssoc(a + b, l, e + rest);
    ConcatAssoc(a, b, l + (e + rest));
    ParseTextRoundTrip(d.decisionText, c.text, b + (l + (e + rest)));
    ParseBoolRoundTrip(d.isDialog, l + (e + rest));
    PredicatesItems(d.predicates, c.value);
    ParseListRoundTrip(d.predicates, PredicateEncoder(c.value), PredicateParser(c.value), e + rest);
    ParseIntRoundTrip(d.nextNodeID, rest);
  }

  lemma {:induction false} DecisionsItems(ds: seq<Decision>, c: Codec)
    requires Sound(c) && forall d :: d in ds ==> DecisionPackable(d)
    ensures ItemsRoundTrip(ds, DecisionEncoder(c), DecisionParser(c))
  {
    forall x, rest | x in ds ensures DecisionParser(c)(DecisionEncoder(c)(x) + rest) == Some((x, rest)) {
      DecisionRoundTrip(x, c, rest);
    }
  }

  lemma {:induction false} DialogBodyRoundTrip(n: TimelineNode, c: Codec, rest: seq<byte>)
    requires TextCodecSound(c.text) && n.DialogNode?
    ensures ParseBody(DialogType, n.id, n.previousNodeIDs, BodyBytes(n, c) + rest, c) == Some((n, rest))
  {
    var a, l, s, t, e := Int32Bytes(n.sceneID), ListBytes(n.characterIDs, Int32Bytes), Int32Bytes(n.speakerID),
                         TextBytes(n.dialog, c.text), Int32Bytes(n.nextNodeID);
    ConcatAssoc(a + l + s + t, e, rest);
    ConcatAssoc(a + l + s, t, e + rest);
    ConcatAssoc(a + l, s, t + (e + rest));
    ConcatAssoc(a, l, s + (t + (e + rest)));
    ParseIntRoundTrip(n.sceneID, l + (s + (t + (e + rest))));
    IntsRoundTrip(n.characterIDs, s + (t + (e + rest)));
    ParseIntRoundTrip(n.speakerID, t + (e + rest));
    ParseTextRoundTrip(n.dialog, c.text, e + rest);
    ParseIntRoundTrip(n.nextNodeID, rest);
  }

  lemma {:induction false} BranchBodyRoundTrip(n: TimelineNode, c: Codec, rest: seq<byte>)
    requires ValueCodecSound(c.value) && n.BranchNode? && Packable(n)
    ensures ParseBody(BranchType, n.id, n.previousNodeIDs, BodyBytes(n, c) + rest, c) == Some((n, rest))
  {
    var a, l := Int32Bytes(n.defaultNextID), ListBytes(n.predicates, PredicateEncoder(c.value));
    ConcatAssoc(a, l, rest);
    ParseIntRoundTrip(n.defaultNextID, l + rest);
    PredicatesItems(n.predicates, c.value);
    ParseListRoundTrip(n.predicates, PredicateEncoder(c.value), PredicateParser(c.value), rest);
  }

  lemma {:induction false} DecisionBodyRoundTrip(n: TimelineNode, c: Codec, rest: seq<byte>)
    requires Sound(c) && n.DecisionNode? && Packable(n)
    ensures ParseBody(DecisionType, n.id, n.previousNodeIDs, BodyBytes(n, c) + rest, c) == Some((n, rest))
  {
    DecisionsItems(n.decisions, c);
    ParseListRoundTrip(n.decisions, DecisionEncoder(c), DecisionParser(c), rest);
  }

  lemma {:induction false} ConsequenceBodyRoundTrip(n: TimelineNode, c: Codec, rest: seq<byte>)
    requires ValueCodecSound(c.value) && n.ConsequenceNode? && Packable(n)
    ensures ParseBody(ConsequenceType, n.id, n.previousNodeIDs, BodyBytes(n, c) + rest, c) == Some((n, rest))
  {
    var a, l := Int32Bytes(n.nextNodeID), ListBytes(n.operations, OperationEncoder(c.value));
    ConcatAssoc(a, l, rest);
    ParseIntRoundTrip(n.nextNodeID, l + rest);
    OperationsItems(n.operations, c.value);
    ParseListRoundTrip(n.operations, OperationEncoder(c.value), OperationParser(c.value), rest);
  }

  /** The variant's Unpack restores what its Pack wrote. */
  lemma {:induction false} BodyRoundTrip(n: TimelineNode, c: Codec, rest: seq<byte>)
    requires Sound(c) && Packable(n)
    ensures ParseBody(n.Type(), n.id, n.previousNodeIDs, BodyBytes(n, c) + rest, c) == Some((n, rest))
  {
    match n
    case DialogNode(_, _, _, _, _, _, _) => DialogBodyRoundTrip(n, c, rest);
    case BranchNode(_, _, _, _) => BranchBodyRoundTrip(n, c, rest);
    case DecisionNode(_, _, _) => DecisionBodyRoundTrip(n, c, rest);
    case ConsequenceNode(_, _, _, _) => ConsequenceBodyRoundTrip(n, c, rest);
  }

  lemma {:induction false} HeaderRoundTrip(n: TimelineNode, rest: seq<byte>)
    ensures ParseHeader(HeaderBytes(n) + rest) == Some((Header(TypeCode(n.Type()), n.id, n.previousNodeIDs), rest))
  {
    var t, i, l := [TypeCode(n.Type())], Int32Bytes(n.id), ListBytes(n.previousNodeIDs, Int32Bytes);
    ConcatAssoc(t + i, l, rest);
    ConcatAssoc(t, i, l + rest);
    ParseByteRoundTrip(TypeCode(n.Type()), i + (l + rest));
    ParseIntRoundTrip(n.id, l + rest);
    IntsRoundTrip(n.previousNodeIDs, rest);
  }

  /** Unpack(Pack(node)) restores the type, the ID, the parents in order and the variant's fields. */
  lemma {:induction false} NodeRoundTrip(n: TimelineNode, c: Codec, rest: seq<byte>)
    requires Sound(c) && Packable(n)
    ensures ParseNode(NodeBytes(n, c) + rest, c) == Some((n, rest))
  {
    ConcatAssoc(HeaderBytes(n), BodyBytes(n, c), rest);
    HeaderRoundTrip(n, BodyBytes(n, c) + rest);
    assert TypeOfCode(TypeCode(n.Type())) == Some(n.Type());
    BodyRoundTrip(n, c, rest);
  }

  /** A type byte naming no variant unpacks to null. */
  lemma {:induction false} UnknownTypeIsNull(s: seq<byte>, c: Codec)
    requires |s| >= 1 && s[0] >= 4
    ensures ParseNode(s, c).None?
  {
  }

  // ---------------------------------------------------------------------------
  // Packing loops

  method PackInts(packer: Packer, xs: Many<int32>)
    modifies packer
    ensures packer.buffer == old(packer.buffer) + ListBytes(xs, Int32Bytes)
  {
    ghost var total := old(packer.buffer) + ListBytes(xs, Int32Bytes);
    PackLoopStart(packer.buffer, xs, Int32Bytes);
    packer.PackInt(|xs|);
    var i := 0;
    while i < |xs|
      invariant 0 <= i <= |xs|
      invariant packer.buffer + ManyBytes(xs[i..], Int32Bytes) == total
    {
      ManyBytesStep(packer.buffer, xs, i, Int32Bytes, total);
      packer.PackInt(xs[i]);
      i := i + 1;
    }
    PackLoopEnd(packer.buffer, xs, Int32Bytes, total);
  }

  method PackPredicates(packer: Packer, ps: Many<P.Predicate>, vc: ValueCodec)
    requires forall p :: p in ps ==> P.Valid(p)
    modifies packer
    ensures packer.buffer == old(packer.buffer) + ListBytes(ps, PredicateEncoder(vc))
  {
    ghost var total := old(packer.buffer) + ListBytes(ps, PredicateEncoder(vc));
    PackLoopStart(packer.buffer, ps, PredicateEncoder(vc));
    packer.PackInt(|ps|);
    var i := 0;
    while i < |ps|
      invariant 0 <= i <= |ps|
      invariant packer.buffer + ManyBytes(ps[i..], PredicateEncoder(vc)) == total
    {
      ManyBytesStep(packer.buffer, ps, i, PredicateEncoder(vc), total);
      assert PredicateEncoder(vc)(ps[i]) == P.PredicateBytes(ps[i], vc);
      P.PackPredicate(ps[i], packer, vc);
      i := i + 1;
    }
    PackLoopEnd(packer.buffer, ps, PredicateEncoder(vc), total);
  }

  method PackOperations(packer: Packer, ops: Many<O.Operation>, vc: ValueCodec)
    requires forall o :: o in ops ==> O.Valid(o)
    modifies packer
    ensures packer.buffer == old(packer.buffer) + ListBytes(ops, OperationEncoder(vc))
  {
    ghost var total := old(packer.buffer) + ListBytes(ops, OperationEncoder(vc));
    PackLoopStart(packer.buffer, ops, OperationEncoder(vc));
    packer.PackInt(|ops|);
    var i := 0;
    while i < |ops|
      invariant 0 <= i <= |ops|
      invariant packer.buffer + ManyBytes(ops[i..], OperationEncoder(vc)) == total
    {
      ManyBytesStep(packer.buffer, ops, i, OperationEncoder(vc), total);
      assert OperationEncoder(vc)(ops[i]) == O.OperationBytes(ops[i], vc);
      O.PackOperation(ops[i], packer, vc);
      i := i + 1;
    }
    PackLoopEnd(packer.buffer, ops, OperationEncoder(vc), total);
  }

  method PackDecision(packer: Packer, d: Decision, c: Codec)
    requires DecisionPackable(d)
    modifies packer
    ensures packer.buffer == old(packer.buffer) + DecisionBytes(d, c)
  {
    ghost var a, b, l, e := TextBytes(d.decisionText, c.text), BoolBytes(d.isDialog),
                            ListBytes(d.predicates, PredicateEncoder(c.value)), Int32Bytes(d.nextNodeID);
    packer.PackText(d.decisionText, c.text);
    packer.PackBool(d.isDialog);
    ConcatAssoc(old(packer.buffer), a, b);
    PackPredicates(packer, d.predicates, c.value);
    ConcatAssoc(old(packer.buffer), a + b, l);
    packer.PackInt(d.nextNodeID);
    ConcatAssoc(old(packer.buffer), a + b + l, e);
  }

  method PackDecisions(packer: Packer, ds: Many<Decision>, c: Codec)
    requires forall d :: d in ds ==> DecisionPackable(d)
    modifies packer
    ensures packer.buffer == old(packer.buffer) + ListBytes(ds, DecisionEncoder(c))
  {
    ghost var total := old(packer.buffer) + ListBytes(ds, DecisionEncoder(c));
    PackLoopStart(packer.buffer, ds, DecisionEncoder(c));
    packer.PackInt(|ds|);
    var i := 0;
    while i < |ds|
      invariant 0 <= i <= |ds|
      invariant packer.buffer + ManyBytes(ds[i..], DecisionEncoder(c)) == total
    {
      ManyBytesStep(packer.buffer, ds, i, DecisionEncoder(c), total);
      assert DecisionEncoder(c)(ds[i]) == DecisionBytes(ds[i], c);
      PackDecision(packer, ds[i], c);
      i := i + 1;
    }
    PackLoopEnd(packer.buffer, ds, DecisionEncoder(c), total);
  }

  /** The variant's own Pack. */
  method PackBody(n: TimelineNode, packer: Packer, c: Codec)
    requires Packable(n)
    modifies packer
    ensures packer.buffer == old(packer.buffer) + BodyBytes(n, c)
  {
    ghost var start := packer.buffer;
    match n
    case DialogNode(_, _, scene, chars, speaker, dialog, next) =>
      ghost var a, l, s, t, e := Int32Bytes(scene), ListBytes(chars, Int32Bytes), Int32Bytes(speaker),
                                 TextBytes(dialog, c.text), Int32Bytes(next);
      packer.PackInt(scene);
      PackInts(packer, chars);
      ConcatAssoc(start, a, l);
      packer.PackInt(speaker);
      ConcatAssoc(start, a + l, s);
      packer.PackText(dialog, c.text);
      ConcatAssoc(start, a + l + s, t);
      packer.PackInt(next);
      ConcatAssoc(start, a + l + s + t, e);
    case BranchNode(_, _, ps, dflt) =>
      packer.PackInt(dflt);
      PackPredicates(packer, ps, c.value);
      ConcatAssoc(start, Int32Bytes(dflt), ListBytes(ps, PredicateEncoder(c.value)));
    case DecisionNode(_, _, ds) =>
      PackDecisions(packer, ds, c);
    case ConsequenceNode(_, _, next, ops) =>
      packer.PackInt(next);
      PackOperations(packer, ops, c.value);
      ConcatAssoc(start, Int32Bytes(next), ListBytes(ops, OperationEncoder(c.value)));
  }

  /** HamTimelineNode.Pack(node, packer). A null CompareValue or Operand would throw, hence Packable. */
  method PackNode(n: TimelineNode, packer: Packer, c: Codec)
    requires Packable(n)
    modifies packer
    ensures packer.buffer == old(packer.buffer) + NodeBytes(n, c)
  {
    ghost var t, i, l := [TypeCode(n.Type())], Int32Bytes(n.id), ListBytes(n.previousNodeIDs, Int32Bytes);
    packer.PackByte(TypeCode(n.Type()));
    packer.PackInt(n.id);
    ConcatAssoc(old(packer.buffer), t, i);
    PackInts(packer, n.previousNodeIDs);
    ConcatAssoc(old(packer.buffer), t + i, l);
    PackBody(n, packer, c);
    ConcatAssoc(old(packer.buffer), HeaderBytes(n), BodyBytes(n, c));
  }

  // ---------------------------------------------------------------------------
  // Unpacking loops

  method UnpackInts(u: Unpacker) returns (r: Option<Many<int32>>)
    requires u.Valid()
    modifies u
    ensures u.Valid() && ReadAs(ParseList(old(u.Remaining()), ParseInt), r, u.Remaining())
  {
    var count := u.UnpackInt();
    if count.None? {
      return None;
    }
    var n := LoopCount(count.value);
    ghost var whole := ParseMany(u.Remaining(), n, ParseInt);
    ReadLoopStart(u.Remaining(), n, ParseInt);
    var acc: seq<int32> := [];
    var k := n;
    while k > 0
      invariant u.Valid() && 0 <= k <= n
      invariant Prepend(acc, ParseMany(u.Remaining(), k, ParseInt)) == whole
    {
      ghost var before := u.Remaining();
      var x := u.UnpackInt();
      if x.None? {
        ReadLoopFail(before, k, ParseInt, acc);
        return None;
      }
      ghost var acc0, k0 := acc, k;
      acc := acc + [x.value];
      k := k - 1;
      ReadLoopNext(before, k0, ParseInt, acc0, x.value, u.Remaining(), whole, acc, k);
    }
    ReadLoopEnd(u.Remaining(), ParseInt, acc);
    r := Some(acc);
  }

  method UnpackPredicates(u: Unpacker, vc: ValueCodec) returns (r: Option<Many<P.Predicate>>)
    requires u.Valid()
    modifies u
    ensures u.Valid() && ReadAs(ParseList(old(u.Remaining()), PredicateParser(vc)), r, u.Remaining())
  {
    var count := u.UnpackInt();
    if count.None? {
      return None;
    }
    var n := LoopCount(count.value);
    ghost var whole := ParseMany(u.Remaining(), n, PredicateParser(vc));
    ReadLoopStart(u.Remaining(), n, PredicateParser(vc));
    var acc: seq<P.Predicate> := [];
    var k := n;
    while k > 0
      invariant u.Valid() && 0 <= k <= n
      invariant Prepend(acc, ParseMany(u.Remaining(), k, PredicateParser(vc))) == whole
    {
      ghost var before := u.Remaining();
      var x := P.UnpackPredicate(u, vc);
      assert PredicateParser(vc)(before) == P.ParsePredicate(before, vc);
      if x.None? {
        ReadLoopFail(before, k, PredicateParser(vc), acc);
        return None;
      }
      ghost var acc0, k0 := acc, k;
      acc := acc + [x.value];
      k := k - 1;
      ReadLoopNext(before, k0, PredicateParser(vc), acc0, x.value, u.Remaining(), whole, acc, k);
    }
    ReadLoopEnd(u.Remaining(), PredicateParser(vc), acc);
    r := Some(acc);
  }

  method UnpackOperations(u: Unpacker, vc: ValueCodec) returns (r: Option<Many<O.Operation>>)
    requires u.Valid()
    modifies u
    ensures u.Valid() && ReadAs(ParseList(old(u.Remaining()), OperationParser(vc)), r, u.Remaining())
  {
    var count := u.UnpackInt();
    if count.None? {
      return None;
    }
    var n := LoopCount(count.value);
    ghost var whole := ParseMany(u.Remaining(), n, OperationParser(vc));
    ReadLoopStart(u.Remaining(), n, OperationParser(vc));
    var acc: seq<O.Operation> := [];
    var k := n;
    while k > 0
      invariant u.Valid() && 0 <= k <= n
      invariant Prepend(acc, ParseMany(u.Remaining(), k, OperationParser(vc))) == whole
    {
      ghost var before := u.Remaining();
      var x := O.UnpackOperation(O.NewOperation(), u, vc);
      assert OperationParser(vc)(before) == O.ParseOperation(before, vc);
      if x.None? {
        ReadLoopFail(before, k, OperationParser(vc), acc);
        return None;
      }
      ghost var acc0, k0 := acc, k;
      acc := acc + [x.value];
      k := k - 1;
      ReadLoopNext(before, k0, OperationParser(vc), acc0, x.value, u.Remaining(), whole, acc, k);
    }
    ReadLoopEnd(u.Remaining(), OperationParser(vc), acc);
    r := Some(acc);
  }

  method UnpackDecision(u: Unpacker, c: Codec) returns (r: Option<Decision>)
    requires u.Valid()
    modifies u
    ensures u.Valid() && ReadAs(ParseDecision(old(u.Remaining()), c), r, u.Remaining())
  {
    var text := u.UnpackText(c.text);
    if text.None? { return None; }
    var isDialog := u.UnpackBool();
    if isDialog.None? { return None; }
    var ps := UnpackPredicates(u, c.value);
    if ps.None? { return None; }
    var next := u.UnpackInt();
    if next.None? { return None; }
    r := Some(Decision(text.value, isDialog.value, ps.value, next.value));
  }

  method UnpackDecisions(u: Unpacker, c: Codec) returns (r: Option<Many<Decision>>)
    requires u.Valid()
    modifies u
    ensures u.Valid() && ReadAs(ParseList(old(u.Remaining()), DecisionParser(c)), r, u.Remaining())
  {
    var count := u.UnpackInt();
    if count.None? {
      return None;
    }
    var n := LoopCount(count.value);
    ghost var whole := ParseMany(u.Remaining(), n, DecisionParser(c));
    ReadLoopStart(u.Remaining(), n, DecisionParser(c));
    var acc: seq<Decision> := [];
    var k := n;
    while k > 0
      invariant u.Valid() && 0 <= k <= n
      invariant Prepend(acc, ParseMany(u.Remaining(), k, DecisionParser(c))) == whole
    {
      ghost var before := u.Remaining();
      var x := UnpackDecision(u, c);
      assert DecisionParser(c)(before) == ParseDecision(before, c);
      if x.None? {
        ReadLoopFail(before, k, DecisionParser(c), acc);
        return None;
      }
      ghost var acc0, k0 := acc, k;
      acc := acc + [x.value];
      k := k - 1;
      ReadLoopNext(before, k0, DecisionParser(c), acc0, x.value, u.Remaining(), whole, acc, k);
    }
    ReadLoopEnd(u.Remaining(), DecisionParser(c), acc);
    r := Some(acc);
  }

  /** The variant's own Unpack. */
  method UnpackBody(t: NodeType, id: int32, prev: Many<int32>, u: Unpacker, c: Codec) returns (r: Option<TimelineNode>)
    requires u.Valid()
    modifies u
    ensures u.Valid() && ReadAs(ParseBody(t, id, prev, old(u.Remaining()), c), r, u.Remaining())
  {
    match t
    case DialogType =>
      var scene := u.UnpackInt();
      if scene.None? { return None; }
      var chars := UnpackInts(u);
      if chars.None? { return None; }
      var speaker := u.UnpackInt();
      if speaker.None? { return None; }
      var dialog := u.UnpackText(c.text);
      if dialog.None? { return None; }
      var next := u.UnpackInt();
      if next.None? { return None; }
      r := Some(DialogNode(id, prev, scene.value, chars.value, speaker.value, dialog.value, next.value));
    case BranchType =>
      var dflt := u.UnpackInt();
      if dflt.None? { return None; }
      var ps := UnpackPredicates(u, c.value);
      if ps.None? { return None; }
      r := Some(BranchNode(id, prev, ps.value, dflt.value));
    case DecisionType =>
      var ds := UnpackDecisions(u, c);
      if ds.None? { return None; }
      r := Some(DecisionNode(id, prev, ds.value));
    case ConsequenceType =>
      var next := u.UnpackInt();
      if next.None? { return None; }
      var ops := UnpackOperations(u, c.value);
      if ops.None? { return None; }
      r := Some(ConsequenceNode(id, prev, next.value, ops.value));
  }

  /** HamTimelineNode.Unpack(out node, unpacker). */
  method UnpackNode(u: Unpacker, c: Codec) returns (r: Option<TimelineNode>)
    requires u.Valid()
    modifies u
    ensures u.Valid() && ReadAs(ParseNode(old(u.Remaining()), c), r, u.Remaining())
  {
    var code := u.UnpackByte();
    if code.None? { return None; }
    var id := u.UnpackInt();
    if id.None? { return None; }
    var prev := UnpackInts(u);
    if prev.None? { return None; }
    var t := TypeOfCode(code.value);
    if t.None? { return None; }
    r := UnpackBody(t.value, id.value, prev.value, u, c);
  }
}
