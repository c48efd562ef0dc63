/**
 * The saved part of a HamTimeline as a value, and the layout HamTimeline.Pack writes:
 * IDCount, Name, OriginNodeID, NarratorID and DefaultSceneID, then four count-prefixed
 * sections in the order variables, scenes, characters, nodes. Unpack reads the same
 * order and stores each record it reads under the record's own ID.
 */
module TimelineFormat {
  import opened Wrappers
  import opened Serializer
  import opened Values
  import opened Lists
  import opened Nodes
  import opened Graphs
  import opened NodePacking

  /** HamScene and HamCharacter: an id and a name. */
  datatype Scene = Scene(id: int32, name: string)
  datatype Character = Character(id: int32, name: string)

  /** The fields of a HamTimeline that Pack saves; NodeLinkageDirty is not saved. */
  datatype TimelineData = TimelineData(
    idCount: int32, name: string, originNodeID: int32, narratorID: int32, defaultSceneID: int32,
    variables: map<int32, TimelineVariable>, scenes: map<int32, Scene>,
    characters: map<int32, Character>, nodes: NodeMap)

  /** Each of the four maps stores every entry under its own ID, as Add* and Unpack do. */
  predicate StoredUnderIds(t: TimelineData)
  {
    (forall k :: k in t.variables ==> t.variables[k].id == k)
    && (forall k :: k in t.scenes ==> t.scenes[k].id == k)
    && (forall k :: k in t.characters ==> t.characters[k].id == k)
    && KeysMatch(t.nodes)
  }

  // ---------------------------------------------------------------------------
  // Dictionary enumeration

  /**
   * The order in which `foreach` over each Dictionary's Values visits the keys. The order
   * of a .NET Dictionary is not specified, so it is a parameter of Pack.
   */
  datatype Enumeration = Enumeration(variables: seq<int32>, scenes: seq<int32>, characters: seq<int32>, nodes: seq<int32>)

  /** `ks` visits every key of `m` exactly once; a Dictionary holds at most int.MaxValue entries. */
  predicate VisitsAll<T>(ks: seq<int32>, m: map<int32, T>)
  {
    NoDup(ks) && (forall k :: k in ks ==> k in m) && (forall k :: k in m ==> k in ks) && |ks| <= MaxInt32
  }

  predicate Enumerates(e: Enumeration, t: TimelineData)
  {
    VisitsAll(e.variables, t.variables) && VisitsAll(e.scenes, t.scenes)
    && VisitsAll(e.characters, t.characters) && VisitsAll(e.nodes, t.nodes)
  }

  /** The values of `m` in the order `ks` visits them. */
  function InOrder<T>(m: map<int32, T>, ks: seq<int32>): (r: seq<T>)
    requires forall k :: k in ks ==> k in m
    ensures |r| == |ks| && forall i :: 0 <= i < |ks| ==> r[i] == m[ks[i]]
  {
    seq(|ks|, i requires 0 <= i < |ks| => m[ks[i]])
  }

  function KeySet(ks: seq<int32>): set<int32>
  {
    set k | k in ks
  }

  lemma {:induction false} NoDupCard(ks: seq<int32>)
    requires NoDup(ks)
    ensures |KeySet(ks)| == |ks|
    decreases |ks|
  {
    if |ks| > 0 {
      NoDupCons(ks);
      NoDupCard(ks[1..]);
      InConsAll(ks);
      var tail := KeySet(ks[1..]);
      assert ks[0] !in tail;
      assert KeySet(ks) == tail + {ks[0]};
    } else {
      assert KeySet(ks) == {};
    }
  }

  /** The count Pack writes, Dictionary.Count, is the number of values the enumeration visits. */
  lemma CountIsSize<T>(ks: seq<int32>, m: map<int32, T>)
    requires VisitsAll(ks, m)
    ensures |InOrder(m, ks)| == |m|
  {
    NoDupCard(ks);
    assert KeySet(ks) == m.Keys;
  }

  // ---------------------------------------------------------------------------
  // Records

  function SceneBytes(s: Scene, tc: TextCodec): seq<byte>
  {
    Int32Bytes(s.id) + TextBytes(s.name, tc)
  }

  function ParseScene(s: seq<byte>, tc: TextCodec): Parsed<Scene>
  {
    var (id, t1) :- ParseInt(s);
    var (name, t2) :- ParseText(t1, tc);
    Some((Scene(id, name), t2))
  }

  function CharacterBytes(ch: Character, tc: TextCodec): seq<byte>
  {
    Int32Bytes(ch.id) + TextBytes(ch.name, tc)
  }

  function ParseCharacter(s: seq<byte>, tc: TextCodec): Parsed<Character>
  {
    var (id, t1) :- ParseInt(s);
    var (name, t2) :- ParseText(t1, tc);
    Some((Character(id, name), t2))
  }

  lemma {:induction false} ParseSceneRoundTrip(x: Scene, tc: TextCodec, rest: seq<byte>)
    requires TextCodecSound(tc)
    ensures ParseScene(SceneBytes(x, tc) + rest, tc) == Some((x, rest))
  {
    ConcatAssoc(Int32Bytes(x.id), TextBytes(x.name, tc), rest);
    ParseIntRoundTrip(x.id, TextBytes(x.name, tc) + rest);
    ParseTextRoundTrip(x.name, tc, rest);
  }

  lemma {:induction false} ParseCharacterRoundTrip(x: Character, tc: TextCodec, rest: seq<byte>)
    requires TextCodecSound(tc)
    ensures ParseCharacter(CharacterBytes(x, tc) + rest, tc) == Some((x, rest))
  {
    ConcatAssoc(Int32Bytes(x.id), TextBytes(x.name, tc), rest);
    ParseIntRoundTrip(x.id, TextBytes(x.name, tc) + rest);
    ParseTextRoundTrip(x.name, tc, rest);
  }

  function VariableEncoder(c: Codec): TimelineVariable -> seq<byte> { v => VariableBytes(v, c) }
  function VariableParser(c: Codec): seq<byte> -> Parsed<TimelineVariable> { s => ParseVariable(s, c) }
  function SceneEncoder(tc: TextCodec): Scene -> seq<byte> { x => SceneBytes(x, tc) }
  function SceneParser(tc: TextCodec): seq<byte> -> Parsed<Scene> { s => ParseScene(s, tc) }
  function CharacterEncoder(tc: TextCodec): Character -> seq<byte> { x => CharacterBytes(x, tc) }
  function CharacterParser(tc: TextCodec): seq<byte> -> Parsed<Character> { s => ParseCharacter(s, tc) }
  function NodeEncoder(c: Codec): TimelineNode -> seq<byte> { n => NodeBytes(n, c) }
  function NodeParser(c: Codec): seq<byte> -> Parsed<TimelineNode> { s => ParseNode(s, c) }

  /** The key each section stores a record under: the record's ID. */
  function VariableKey(): TimelineVariable -> int32 { (v: TimelineVariable) => v.id }
  function SceneKey(): Scene -> int32 { (x: Scene) => x.id }
  function CharacterKey(): Character -> int32 { (x: Character) => x.id }
  function NodeKey(): TimelineNode -> int32 { (n: TimelineNode) => n.id }

  lemma {:induction false} VariablesItems(items: seq<TimelineVariable>, c: Codec)
    requires Sound(c)
    ensures ItemsRoundTrip(items, VariableEncoder(c), VariableParser(c))
  {
    forall x, rest | x in items
      ensures VariableParser(c)(VariableEncoder(c)(x) + rest) == Some((x, rest))
    {
      ParseVariableRoundTrip(x, c, rest);
    }
  }

  lemma {:induction false} ScenesItems(items: seq<Scene>, tc: TextCodec)
    requires TextCodecSound(tc)
    ensures ItemsRoundTrip(items, SceneEncoder(tc), SceneParser(tc))
  {
    forall x, rest | x in items
      ensures SceneParser(tc)(SceneEncoder(tc)(x) + rest) == Some((x, rest))
    {
      ParseSceneRoundTrip(x, tc, rest);
    }
  }

  lemma {:induction false} CharactersItems(items: seq<Character>, tc: TextCodec)
    requires TextCodecSound(tc)
    ensures ItemsRoundTrip(items, CharacterEncoder(tc), CharacterParser(tc))
  {
    forall x, rest | x in items
      ensures CharacterParser(tc)(CharacterEncoder(tc)(x) + rest) == Some((x, rest))
    {
      ParseCharacterRoundTrip(x, tc, rest);
    }
  }

  lemma {:induction false} NodesItems(items: seq<TimelineNode>, c: Codec)
    requires Sound(c) && forall n :: n in items ==> Packable(n)
    ensures ItemsRoundTrip(items, NodeEncoder(c), NodeParser(c))
  {
    forall x, rest | x in items
      ensures NodeParser(c)(NodeEncoder(c)(x) + rest) == Some((x, rest))
    {
      NodeRoundTrip(x, c, rest);
    }
  }

  // ---------------------------------------------------------------------------
  // Sections

  /** The reading loop of a section: `n` records, each stored under its key as soon as it is read. */
  function ParseInto<T>(m: map<int32, T>, s: seq<byte>, n: nat, item: seq<byte> -> Parsed<T>, key: T -> int32): Parsed<map<int32, T>>
    decreases n
  {
    if n == 0 then Some((m, s))
    else
      var (x, t) :- item(s);
      ParseInto(m[key(x) := x], t, n - 1, item, key)
  }

  /** A section: the count, then that many records stored into `m`. */
  function ParseSection<T>(m: map<int32, T>, s: seq<byte>, item: seq<byte> -> Parsed<T>, key: T -> int32): Parsed<map<int32, T>>
  {
    var (count, t) :- ParseInt(s);
    ParseInto(m, t, LoopCount(count), item, key)
  }

  /** The entries of `m` whose keys `ks` visits. */
  function Restrict<T>(m: map<int32, T>, ks: seq<int32>): map<int32, T>
  {
    map k | k in ks && k in m :: m[k]
  }

  /** Storing the first record, then the rest, stores them all. */
  lemma RestrictCons<T>(acc: map<int32, T>, m: map<int32, T>, ks: seq<int32>)
    requires |ks| > 0 && ks[0] in m
    ensures acc[ks[0] := m[ks[0]]] + Restrict(m, ks[1..]) == acc + Restrict(m, ks)
  {
    InConsAll(ks);
  }

  /** Reading back the records of `m` in the order `ks` stores each under its own key. */
  lemma {:induction false} ParseIntoRoundTrip<T>(acc: map<int32, T>, m: map<int32, T>, ks: seq<int32>,
                                                 enc: T -> seq<byte>, item: seq<byte> -> Parsed<T>, key: T -> int32, rest: seq<byte>)
    requires forall k :: k in ks ==> k in m && key(m[k]) == k
    requires ItemsRoundTrip(InOrder(m, ks), enc, item)
    ensures ParseInto(acc, ManyBytes(InOrder(m, ks), enc) + rest, |ks|, item, key) == Some((acc + Restrict(m, ks), rest))
    decreases |ks|
  {
    var xs := InOrder(m, ks);
    if |ks| > 0 {
      var k0, tail := ks[0], ks[1..];
      InConsAll(ks);
      assert xs[1..] == InOrder(m, tail);
      ConcatAssoc(enc(xs[0]), ManyBytes(xs[1..], enc), rest);
      assert xs[0] in xs;
      assert item(enc(xs[0]) + (ManyBytes(xs[1..], enc) + rest)) == Some((xs[0], ManyBytes(xs[1..], enc) + rest));
      assert ItemsRoundTrip(InOrder(m, tail), enc, item) by {
        forall x | x in xs[1..] ensures x in xs { }
      }
      ParseIntoRoundTrip(acc[k0 := m[k0]], m, tail, enc, item, key, rest);
      RestrictCons(acc, m, ks);
    } else {
      assert ManyBytes(xs, enc) + rest == rest;
      assert acc + Restrict(m, ks) == acc;
    }
  }

  /** Unpacking a packed section into `prior` adds every record of `m` under its own key. */
  lemma {:induction false} SectionRoundTrip<T>(prior: map<int32, T>, m: map<int32, T>, ks: seq<int32>,
                                               enc: T -> seq<byte>, item: seq<byte> -> Parsed<T>, key: T -> int32, rest: seq<byte>)
    requires VisitsAll(ks, m) && (forall k :: k in m ==> key(m[k]) == k)
    requires ItemsRoundTrip(InOrder(m, ks), enc, item)
    ensures ParseSection(prior, ListBytes(InOrder(m, ks), enc) + rest, item, key) == Some((prior + m, rest))
  {
    var xs := InOrder(m, ks);
    ConcatAssoc(Int32Bytes(|xs|), ManyBytes(xs, enc), rest);
    ParseIntRoundTrip(|xs|, ManyBytes(xs, enc) + rest);
    ParseIntoRoundTrip(prior, m, ks, enc, item, key, rest);
    assert Restrict(m, ks) == m;
  }

  // ---------------------------------------------------------------------------
  // The timeline

  function HeadBytes(t: TimelineData, tc: TextCodec): seq<byte>
  {
    Int32Bytes(t.idCount) + (TextBytes(t.name, tc) + (Int32Bytes(t.originNodeID)
    + (Int32Bytes(t.narratorID) + Int32Bytes(t.defaultSceneID))))
  }

  function VariablesBytes(t: TimelineData, e: Enumeration, c: Codec): seq<byte>
    requires Enumerates(e, t)
  {
    ListBytes(InOrder(t.variables, e.variables), VariableEncoder(c))
  }

  function ScenesBytes(t: TimelineData, e: Enumeration, c: Codec): seq<byte>
    requires Enumerates(e, t)
  {
    ListBytes(InOrder(t.scenes, e.scenes), SceneEncoder(c.text))
  }

  function CharactersBytes(t: TimelineData, e: Enumeration, c: Codec): seq<byte>
    requires Enumerates(e, t)
  {
    ListBytes(InOrder(t.characters, e.characters), CharacterEncoder(c.text))
  }

  function NodesBytes(t: TimelineData, e: Enumeration, c: Codec): seq<byte>
    requires Enumerates(e, t)
  {
    ListBytes(InOrder(t.nodes, e.nodes), NodeEncoder(c))
  }

  /** HamTimeline.Pack(packer), with the Dictionaries visited in the order `e`. */
  function TimelineBytes(t: TimelineData, e: Enumeration, c: Codec): seq<byte>
    requires Enumerates(e, t)
  {
    HeadBytes(t, c.text) + (VariablesBytes(t, e, c) + (ScenesBytes(t, e, c)
    + (CharactersBytes(t, e, c) + NodesBytes(t, e, c))))
  }

  /** What Unpack reads before the sections. */
  datatype Head = Head(idCount: int32, name: string, originNodeID: int32, narratorID: int32, defaultSceneID: int32)

  function ParseHead(s: seq<byte>, tc: TextCodec): Parsed<Head>
  {
    var (idCount, t1) :- ParseInt(s);
    var (name, t2) :- ParseText(t1, tc);
    var (origin, t3) :- ParseInt(t2);
    var (narrator, t4) :- ParseInt(t3);
    var (scene, t5) :- ParseInt(t4);
    Some((Head(idCount, name, origin, narrator, scene), t5))
  }

  /** The nodes section, read into the nodes `t` already has. A node of unknown type is null, and storing it throws. */
  function ReadNodesInto(t: TimelineData, s: seq<byte>, c: Codec): Parsed<TimelineData>
  {
    var (ns, rest) :- ParseSection(t.nodes, s, NodeParser(c), NodeKey());
    Some((t.(nodes := ns), rest))
  }

  /** The characters section, then the rest. */
  function ReadCharactersInto(t: TimelineData, s: seq<byte>, c: Codec): Parsed<TimelineData>
  {
    var (cs, rest) :- ParseSection(t.characters, s, CharacterParser(c.text), CharacterKey());
    ReadNodesInto(t.(characters := cs), rest, c)
  }

  /** The scenes section, then the rest. */
  function ReadScenesInto(t: TimelineData, s: seq<byte>, c: Codec): Parsed<TimelineData>
  {
    var (ss, rest) :- ParseSection(t.scenes, s, SceneParser(c.text), SceneKey());
    ReadCharactersInto(t.(scenes := ss), rest, c)
  }

  /** The variables section, then the rest. */
  function ReadVariablesInto(t: TimelineData, s: seq<byte>, c: Codec): Parsed<TimelineData>
  {
    var (vs, rest) :- ParseSection(t.variables, s, VariableParser(c), VariableKey());
    ReadScenesInto(t.(variables := vs), rest, c)
  }

  /** `t` with the head fields read. */
  function WithHead(t: TimelineData, h: Head): TimelineData
  {
    t.(idCount := h.idCount, name := h.name, originNodeID := h.originNodeID,
       narratorID := h.narratorID, defaultSceneID := h.defaultSceneID)
  }

  /**
   * HamTimeline.Unpack(unpacker) on a timeline that held `prior`: the head fields are
   * overwritten, and each record read is added to the map that was already there.
   */
  function ParseTimelineInto(prior: TimelineData, s: seq<byte>, c: Codec): Parsed<TimelineData>
  {
    var (h, t5) :- ParseHead(s, c.text);
    ReadVariablesInto(WithHead(prior, h), t5, c)
  }

  lemma {:induction false} HeadRoundTrip(t: TimelineData, tc: TextCodec, rest: seq<byte>)
    requires TextCodecSound(tc)
    ensures ParseHead(HeadBytes(t, tc) + rest, tc) ==
      Some((Head(t.idCount, t.name, t.originNodeID, t.narratorID, t.defaultSceneID), rest))
  {
    var a, b, o, n, d := Int32Bytes(t.idCount), TextBytes(t.name, tc), Int32Bytes(t.originNodeID),
                         Int32Bytes(t.narratorID), Int32Bytes(t.defaultSceneID);
    ConcatAssoc(n, d, rest);
    ConcatAssoc(o, n + d, rest);
    ConcatAssoc(b, o + (n + d), rest);
    ConcatAssoc(a, b + (o + (n + d)), rest);
    ParseIntRoundTrip(t.idCount, b + (o + (n + d)) + rest);
    ParseTextRoundTrip(t.name, tc, o + (n + d) + rest);
    ParseIntRoundTrip(t.originNodeID, n + d + rest);
    ParseIntRoundTrip(t.narratorID, d + rest);
    ParseIntRoundTrip(t.defaultSceneID, rest);
  }

  /** The nodes Pack visits are nodes of the map, so each of them can be packed when all of the map's can. */
  lemma InOrderPackable(m: NodeMap, ks: seq<int32>)
    requires (forall k :: k in ks ==> k in m) && forall k :: k in m ==> Packable(m[k])
    ensures forall n :: n in InOrder(m, ks) ==> Packable(n)
  {
    var xs := InOrder(m, ks);
    forall x | x in xs
      ensures Packable(x)
    {
      var i :| 0 <= i < |xs| && xs[i] == x;
      assert ks[i] in m;
    }
  }

  /** Each section reads back what it wrote, stored under the records' IDs. */
  lemma {:induction false} VariablesSection(prior: map<int32, TimelineVariable>, m: map<int32, TimelineVariable>, ks: seq<int32>, c: Codec, rest: seq<byte>)
    requires Sound(c) && VisitsAll(ks, m) && forall k :: k in m ==> m[k].id == k
    ensures ParseSection(prior, ListBytes(InOrder(m, ks), VariableEncoder(c)) + rest, VariableParser(c), VariableKey()) == Some((prior + m, rest))
  {
    VariablesItems(InOrder(m, ks), c);
    SectionRoundTrip(prior, m, ks, VariableEncoder(c), VariableParser(c), VariableKey(), rest);
  }

  lemma {:induction false} ScenesSection(prior: map<int32, Scene>, m: map<int32, Scene>, ks: seq<int32>, tc: TextCodec, rest: seq<byte>)
    requires TextCodecSound(tc) && VisitsAll(ks, m) && forall k :: k in m ==> m[k].id == k
    ensures ParseSection(prior, ListBytes(InOrder(m, ks), SceneEncoder(tc)) + rest, SceneParser(tc), SceneKey()) == Some((prior + m, rest))
  {
    ScenesItems(InOrder(m, ks), tc);
    SectionRoundTrip(prior, m, ks, SceneEncoder(tc), SceneParser(tc), SceneKey(), rest);
  }

  lemma {:induction false} CharactersSection(prior: map<int32, Character>, m: map<int32, Character>, ks: seq<int32>, tc: TextCodec, rest: seq<byte>)
    requires TextCodecSound(tc) && VisitsAll(ks, m) && forall k :: k in m ==> m[k].id == k
    ensures ParseSection(prior, ListBytes(InOrder(m, ks), CharacterEncoder(tc)) + rest, CharacterParser(tc), CharacterKey()) == Some((prior + m, rest))
  {
    CharactersItems(InOrder(m, ks), tc);
    SectionRoundTrip(prior, m, ks, CharacterEncoder(tc), CharacterParser(tc), CharacterKey(), rest);
  }

  lemma {:induction false} NodesSection(prior: NodeMap, m: NodeMap, ks: seq<int32>, c: Codec, rest: seq<byte>)
    requires Sound(c) && VisitsAll(ks, m) && KeysMatch(m) && forall k :: k in m ==> Packable(m[k])
    ensures ParseSection(prior, ListBytes(InOrder(m, ks), NodeEncoder(c)) + rest, NodeParser(c), NodeKey()) == Some((prior + m, rest))
  {
    var xs := InOrder(m, ks);
    InOrderPackable(m, ks);
    NodesItems(xs, c);
    SectionRoundTrip(prior, m, ks, NodeEncoder(c), NodeParser(c), NodeKey(), rest);
  }

  /**
   * Unpack(Pack(t)) into a timeline that held `prior` restores IDCount, Name, OriginNodeID,
   * NarratorID and DefaultSceneID, and adds every variable, scene, character and node of
   * `t` to the maps `prior` had, each under its own ID.
   */
  lemma {:induction false} TimelineRoundTripInto(prior: TimelineData, t: TimelineData, e: Enumeration, c: Codec, rest: seq<byte>)
    requires Sound(c) && Enumerates(e, t) && StoredUnderIds(t)
    requires forall k :: k in t.nodes ==> Packable(t.nodes[k])
    ensures ParseTimelineInto(prior, TimelineBytes(t, e, c) + rest, c) ==
      Some((t.(variables := prior.variables + t.variables, scenes := prior.scenes + t.scenes,
               characters := prior.characters + t.characters, nodes := prior.nodes + t.nodes), rest))
  {
    var h, v, s, ch, n := HeadBytes(t, c.text), VariablesBytes(t, e, c), ScenesBytes(t, e, c),
                          CharactersBytes(t, e, c), NodesBytes(t, e, c);
    ConcatAssoc(ch, n, rest);
    ConcatAssoc(s, ch + n, rest);
    ConcatAssoc(v, s + (ch + n), rest);
    ConcatAssoc(h, v + (s + (ch + n)), rest);
    HeadRoundTrip(t, c.text, v + (s + (ch + n)) + rest);
    VariablesSection(prior.variables, t.variables, e.variables, c, s + (ch + n) + rest);
    ScenesSection(prior.scenes, t.scenes, e.scenes, c.text, ch + n + rest);
    CharactersSection(prior.characters, t.characters, e.characters, c.text, n + rest);
    NodesSection(prior.nodes, t.nodes, e.nodes, c, rest);
  }

  /** The timeline `new HamTimeline()` builds, which Load unpacks into: empty maps, zero ints. */
  function EmptyTimeline(): (t: TimelineData)
    ensures t.variables == map[] && t.scenes == map[] && t.characters == map[] && t.nodes == map[]
    ensures t.idCount == 0
  {
    TimelineData(0, "", 0, 0, 0, map[], map[], map[], map[])
  }

  lemma EmptyUnion<T>(m: map<int32, T>)
    ensures map[] + m == m
  {
  }

  /** Load(Save(t)): a fresh timeline unpacks exactly what was packed. */
  lemma {:induction false} TimelineRoundTrip(t: TimelineData, e: Enumeration, c: Codec, rest: seq<byte>)
    requires Sound(c) && Enumerates(e, t) && StoredUnderIds(t)
    requires forall k :: k in t.nodes ==> Packable(t.nodes[k])
    ensures ParseTimelineInto(EmptyTimeline(), TimelineBytes(t, e, c) + rest, c) == Some((t, rest))
  {
    var prior := EmptyTimeline();
    TimelineRoundTripInto(prior, t, e, c, rest);
    EmptyUnion(t.variables);
    EmptyUnion(t.scenes);
    EmptyUnion(t.characters);
    EmptyUnion(t.nodes);
  }

  // ---------------------------------------------------------------------------
  // Packing and unpacking the records

  /** Five appends one after another append their concatenation. */
  lemma AppendFive(o: seq<byte>, a: seq<byte>, b: seq<byte>, c: seq<byte>, d: seq<byte>, e: seq<byte>)
    ensures ((((o + a) + b) + c) + d) + e == o + (a + (b + (c + (d + e))))
  {
    ConcatAssoc(o + a + b + c, d, e);
    ConcatAssoc(o + a + b, c, d + e);
    ConcatAssoc(o + a, b, c + (d + e));
    ConcatAssoc(o, a, b + (c + (d + e)));
  }

  /** HamTimelineVariable.Pack(packer). */
  method PackVariable(packer: Packer, v: TimelineVariable, c: Codec)
    modifies packer
    ensures packer.buffer == old(packer.buffer) + VariableBytes(v, c)
  {
    packer.PackInt(v.id);
    PackValue(packer, v.value, c.value);
    packer.PackText(v.name, c.text);
    ConcatAssoc(old(packer.buffer) + Int32Bytes(v.id), c.value.encode(v.value), TextBytes(v.name, c.text));
    ConcatAssoc(old(packer.buffer), Int32Bytes(v.id), c.value.encode(v.value));
    ConcatAssoc(old(packer.buffer), Int32Bytes(v.id) + c.value.encode(v.value), TextBytes(v.name, c.text));
  }

  method PackScene(packer: Packer, x: Scene, tc: TextCodec)
    modifies packer
    ensures packer.buffer == old(packer.buffer) + SceneBytes(x, tc)
  {
    packer.PackInt(x.id);
    packer.PackText(x.name, tc);
    ConcatAssoc(old(packer.buffer), Int32Bytes(x.id), TextBytes(x.name, tc));
  }

  method PackCharacter(packer: Packer, x: Character, tc: TextCodec)
    modifies packer
    ensures packer.buffer == old(packer.buffer) + CharacterBytes(x, tc)
  {
    packer.PackInt(x.id);
    packer.PackText(x.name, tc);
    ConcatAssoc(old(packer.buffer), Int32Bytes(x.id), TextBytes(x.name, tc));
  }

  method UnpackVariable(u: Unpacker, c: Codec) returns (r: Option<TimelineVariable>)
    requires u.Valid()
    modifies u
    ensures u.Valid() && ReadAs(ParseVariable(old(u.Remaining()), c), r, u.Remaining())
  {
    var id := u.UnpackInt();
    if id.None? { return None; }
    var value := UnpackValue(u, c.value);
    if value.None? { return None; }
    var name := u.UnpackText(c.text);
    if name.None? { return None; }
    r := Some(TimelineVariable(id.value, name.value, value.value));
  }

  method UnpackScene(u: Unpacker, tc: TextCodec) returns (r: Option<Scene>)
    requires u.Valid()
    modifies u
    ensures u.Valid() && ReadAs(ParseScene(old(u.Remaining()), tc), r, u.Remaining())
  {
    var id := u.UnpackInt();
    if id.None? { return None; }
    var name := u.UnpackText(tc);
    if name.None? { return None; }
    r := Some(Scene(id.value, name.value));
  }

  method UnpackCharacter(u: Unpacker, tc: TextCodec) returns (r: Option<Character>)
    requires u.Valid()
    modifies u
    ensures u.Valid() && ReadAs(ParseCharacter(old(u.Remaining()), tc), r, u.Remaining())
  {
    var id := u.UnpackInt();
    if id.None? { return None; }
    var name := u.UnpackText(tc);
    if name.None? { return None; }
    r := Some(Character(id.value, name.value));
  }

  /** The head fields, read in the order Pack wrote them. */
  method UnpackHead(u: Unpacker, tc: TextCodec) returns (r: Option<Head>)
    requires u.Valid()
    modifies u
    ensures u.Valid() && ReadAs(ParseHead(old(u.Remaining()), tc), r, u.Remaining())
  {
    var idCount := u.UnpackInt();
    if idCount.None? { return None; }
    var name := u.UnpackText(tc);
    if name.None? { return None; }
    var origin := u.UnpackInt();
    if origin.None? { return None; }
    var narrator := u.UnpackInt();
    if narrator.None? { return None; }
    var scene := u.UnpackInt();
    if scene.None? { return None; }
    r := Some(Head(idCount.value, name.value, origin.value, narrator.value, scene.value));
  }

  // ---------------------------------------------------------------------------
  // The section loops

  method PackVariables(packer: Packer, items: Many<TimelineVariable>, c: Codec)
    modifies packer
    ensures packer.buffer == old(packer.buffer) + ListBytes(items, VariableEncoder(c))
  {
    ghost var total := old(packer.buffer) + ListBytes(items, VariableEncoder(c));
    PackLoopStart(packer.buffer, items, VariableEncoder(c));
    packer.PackInt(|items|);
    var i := 0;
    while i < |items|
      invariant 0 <= i <= |items|
      invariant packer.buffer + ManyBytes(items[i..], VariableEncoder(c)) == total
    {
      ManyBytesStep(packer.buffer, items, i, VariableEncoder(c), total);
      PackVariable(packer, items[i], c);
      i := i + 1;
    }
    PackLoopEnd(packer.buffer, items, VariableEncoder(c), total);
  }

  method PackScenes(packer: Packer, items: Many<Scene>, tc: TextCodec)
    modifies packer
    ensures packer.buffer == old(packer.buffer) + ListBytes(items, SceneEncoder(tc))
  {
    ghost var total := old(packer.buffer) + ListBytes(items, SceneEncoder(tc));
    PackLoopStart(packer.buffer, items, SceneEncoder(tc));
    packer.PackInt(|items|);
    var i := 0;
    while i < |items|
      invariant 0 <= i <= |items|
      invariant packer.buffer + ManyBytes(items[i..], SceneEncoder(tc)) == total
    {
      ManyBytesStep(packer.buffer, items, i, SceneEncoder(tc), total);
      PackScene(packer, items[i], tc);
      i := i + 1;
    }
    PackLoopEnd(packer.buffer, items, SceneEncoder(tc), total);
  }

  method PackCharacters(packer: Packer, items: Many<Character>, tc: TextCodec)
    modifies packer
    ensures packer.buffer == old(packer.buffer) + ListBytes(items, CharacterEncoder(tc))
  {
    ghost var total := old(packer.buffer) + ListBytes(items, CharacterEncoder(tc));
    PackLoopStart(packer.buffer, items, CharacterEncoder(tc));
    packer.PackInt(|items|);
    var i := 0;
    while i < |items|
      invariant 0 <= i <= |items|
      invariant packer.buffer + ManyBytes(items[i..], CharacterEncoder(tc)) == total
    {
      ManyBytesStep(packer.buffer, items, i, CharacterEncoder(tc), total);
      PackCharacter(packer, items[i], tc);
      i := i + 1;
    }
    PackLoopEnd(packer.buffer, items, CharacterEncoder(tc), total);
  }

  method PackNodes(packer: Packer, items: Many<TimelineNode>, c: Codec)
    requires forall n :: n in items ==> Packable(n)
    modifies packer
    ensures packer.buffer == old(packer.buffer) + ListBytes(items, NodeEncoder(c))
  {
    ghost var total := old(packer.buffer) + ListBytes(items, NodeEncoder(c));
    PackLoopStart(packer.buffer, items, NodeEncoder(c));
    packer.PackInt(|items|);
    var i := 0;
    while i < |items|
      invariant 0 <= i <= |items|
      invariant packer.buffer + ManyBytes(items[i..], NodeEncoder(c)) == total
    {
      ManyBytesStep(packer.buffer, items, i, NodeEncoder(c), total);
      assert items[i] in items;
      PackNode(items[i], packer, c);
      i := i + 1;
    }
    PackLoopEnd(packer.buffer, items, NodeEncoder(c), total);
  }

  /** The loop invariant of a section's reading loop, carried over one more record; `acc'` and `k'` are the updated variables. */
  lemma {:induction false} ReadIntoNext<T>(before: seq<byte>, k: nat, item: seq<byte> -> Parsed<T>, key: T -> int32, acc: map<int32, T>, x: T, t: seq<byte>,
                                           whole: Parsed<map<int32, T>>, acc': map<int32, T>, k': nat)
    requires k > 0 && item(before) == Some((x, t)) && ParseInto(acc, before, k, item, key) == whole
    requires acc' == acc[key(x) := x] && k' == k - 1
    ensures ParseInto(acc', t, k', item, key) == whole
  {
  }

  /** A record that cannot be read fails the section. */
  lemma {:induction false} ReadIntoFail<T>(acc: map<int32, T>, s: seq<byte>, n: nat, item: seq<byte> -> Parsed<T>, key: T -> int32, whole: Parsed<map<int32, T>>)
    requires n > 0 && item(s).None? && ParseInto(acc, s, n, item, key) == whole
    ensures whole.None?
  {
  }

  /** After the last record, what was stored is the whole section. */
  lemma {:induction false} ReadIntoEnd<T>(acc: map<int32, T>, s: seq<byte>, item: seq<byte> -> Parsed<T>, key: T -> int32, whole: Parsed<map<int32, T>>)
    requires ParseInto(acc, s, 0, item, key) == whole
    ensures whole == Some((acc, s))
  {
  }

  /** `for (i = 0; i < count; ++i) { read a variable; Variables[variable.ID] = variable; }` */
  method UnpackVariables(u: Unpacker, m: map<int32, TimelineVariable>, c: Codec) returns (r: Option<map<int32, TimelineVariable>>)
    requires u.Valid()
    modifies u
    ensures u.Valid() && ReadAs(ParseSection(m, old(u.Remaining()), VariableParser(c), VariableKey()), r, u.Remaining())
  {
    var count := u.UnpackInt();
    if count.None? {
      return None;
    }
    var n := LoopCount(count.value);
    ghost var whole := ParseInto(m, u.Remaining(), n, VariableParser(c), VariableKey());
    var acc: map<int32, TimelineVariable> := m;
    var k := n;
    while k > 0
      invariant u.Valid() && 0 <= k <= n
      invariant ParseInto(acc, u.Remaining(), k, VariableParser(c), VariableKey()) == whole
    {
      ghost var before := u.Remaining();
      var x := UnpackVariable(u, c);
      assert VariableParser(c)(before) == ParseVariable(before, c);
      if x.None? {
        ReadIntoFail(acc, before, k, VariableParser(c), VariableKey(), whole);
        return None;
      }
      assert VariableKey()(x.value) == x.value.id;
      ghost var acc0, k0 := acc, k;
      acc := acc[x.value.id := x.value];
      k := k - 1;
      ReadIntoNext(before, k0, VariableParser(c), VariableKey(), acc0, x.value, u.Remaining(), whole, acc, k);
    }
    ReadIntoEnd(acc, u.Remaining(), VariableParser(c), VariableKey(), whole);
    r := Some(acc);
  }

  method UnpackScenes(u: Unpacker, m: map<int32, Scene>, tc: TextCodec) returns (r: Option<map<int32, Scene>>)
    requires u.Valid()
    modifies u
    ensures u.Valid() && ReadAs(ParseSection(m, old(u.Remaining()), SceneParser(tc), SceneKey()), r, u.Remaining())
  {
    var count := u.UnpackInt();
    if count.None? {
      return None;
    }
    var n := LoopCount(count.value);
    ghost var whole := ParseInto(m, u.Remaining(), n, SceneParser(tc), SceneKey());
    var acc: map<int32, Scene> := m;
    var k := n;
    while k > 0
      invariant u.Valid() && 0 <= k <= n
      invariant ParseInto(acc, u.Remaining(), k, SceneParser(tc), SceneKey()) == whole
    {
      ghost var before := u.Remaining();
      var x := UnpackScene(u, tc);
      assert SceneParser(tc)(before) == ParseScene(before, tc);
      if x.None? {
        ReadIntoFail(acc, before, k, SceneParser(tc), SceneKey(), whole);
        return None;
      }
      assert SceneKey()(x.value) == x.value.id;
      ghost var acc0, k0 := acc, k;
      acc := acc[x.value.id := x.value];
      k := k - 1;
      ReadIntoNext(before, k0, SceneParser(tc), SceneKey(), acc0, x.value, u.Remaining(), whole, acc, k);
    }
    ReadIntoEnd(acc, u.Remaining(), SceneParser(tc), SceneKey(), whole);
    r := Some(acc);
  }

  method UnpackCharacters(u: Unpacker, m: map<int32, Character>, tc: TextCodec) returns (r: Option<map<int32, Character>>)
    requires u.Valid()
    modifies u
    ensures u.Valid() && ReadAs(ParseSection(m, old(u.Remaining()), CharacterParser(tc), CharacterKey()), r, u.Remaining())
  {
    var count := u.UnpackInt();
    if count.None? {
      return None;
    }
    var n := LoopCount(count.value);
    ghost var whole := ParseInto(m, u.Remaining(), n, CharacterParser(tc), CharacterKey());
    var acc: map<int32, Character> := m;
    var k := n;
    while k > 0
      invariant u.Valid() && 0 <= k <= n
      invariant ParseInto(acc, u.Remaining(), k, CharacterParser(tc), CharacterKey()) == whole
    {
      ghost var before := u.Remaining();
      var x := UnpackCharacter(u, tc);
      assert CharacterParser(tc)(before) == ParseCharacter(before, tc);
      if x.None? {
        ReadIntoFail(acc, before, k, CharacterParser(tc), CharacterKey(), whole);
        return None;
      }
      assert CharacterKey()(x.value) == x.value.id;
      ghost var acc0, k0 := acc, k;
      acc := acc[x.value.id := x.value];
      k := k - 1;
      ReadIntoNext(before, k0, CharacterParser(tc), CharacterKey(), acc0, x.value, u.Remaining(), whole, acc, k);
    }
    ReadIntoEnd(acc, u.Remaining(), CharacterParser(tc), CharacterKey(), whole);
    r := Some(acc);
  }

  /** A node of unknown type unpacks to null, and `Nodes[node.ID] = node` then throws. */
  method UnpackNodes(u: Unpacker, m: map<int32, TimelineNode>, c: Codec) returns (r: Option<map<int32, TimelineNode>>)
    requires u.Valid()
    modifies u
    ensures u.Valid() && ReadAs(ParseSection(m, old(u.Remaining()), NodeParser(c), NodeKey()), r, u.Remaining())
  {
    var count := u.UnpackInt();
    if count.None? {
      return None;
    }
    var n := LoopCount(count.value);
    ghost var whole := ParseInto(m, u.Remaining(), n, NodeParser(c), NodeKey());
    var acc: map<int32, TimelineNode> := m;
    var k := n;
    while k > 0
      invariant u.Valid() && 0 <= k <= n
      invariant ParseInto(acc, u.Remaining(), k, NodeParser(c), NodeKey()) == whole
    {
      ghost var before := u.Remaining();
      var x := UnpackNode(u, c);
      assert NodeParser(c)(before) == ParseNode(before, c);
      if x.None? {
        ReadIntoFail(acc, before, k, NodeParser(c), NodeKey(), whole);
        return None;
      }
      assert NodeKey()(x.value) == x.value.id;
      ghost var acc0, k0 := acc, k;
      acc := acc[x.value.id := x.value];
      k := k - 1;
      ReadIntoNext(before, k0, NodeParser(c), NodeKey(), acc0, x.value, u.Remaining(), whole, acc, k);
    }
    ReadIntoEnd(acc, u.Remaining(), NodeParser(c), NodeKey(), whole);
    r := Some(acc);
  }

  /** HamTimeline.Pack(packer) on a timeline holding `t`, visiting its Dictionaries in the order `e`. */
  method PackTimeline(packer: Packer, t: TimelineData, e: Enumeration, c: Codec)
    requires Enumerates(e, t) && forall k :: k in t.nodes ==> Packable(t.nodes[k])
    modifies packer
    ensures packer.buffer == old(packer.buffer) + TimelineBytes(t, e, c)
  {
    ghost var start := packer.buffer;
    packer.PackInt(t.idCount);
    packer.PackText(t.name, c.text);
    packer.PackInt(t.originNodeID);
    packer.PackInt(t.narratorID);
    packer.PackInt(t.defaultSceneID);
    AppendFive(start, Int32Bytes(t.idCount), TextBytes(t.name, c.text), Int32Bytes(t.originNodeID),
               Int32Bytes(t.narratorID), Int32Bytes(t.defaultSceneID));
    var vs, ss, cs, ns := InOrder(t.variables, e.variables), InOrder(t.scenes, e.scenes),
                          InOrder(t.characters, e.characters), InOrder(t.nodes, e.nodes);
    PackVariables(packer, vs, c);
    PackScenes(packer, ss, c.text);
    PackCharacters(packer, cs, c.text);
    InOrderPackable(t.nodes, e.nodes);
    PackNodes(packer, ns, c);
    AppendFive(start, HeadBytes(t, c.text), VariablesBytes(t, e, c), ScenesBytes(t, e, c),
               CharactersBytes(t, e, c), NodesBytes(t, e, c));
  }

  /** The nodes section read into `t`. */
  method UnpackNodesInto(u: Unpacker, t: TimelineData, c: Codec) returns (r: Option<TimelineData>)
    requires u.Valid()
    modifies u
    ensures u.Valid() && ReadAs(ReadNodesInto(t, old(u.Remaining()), c), r, u.Remaining())
  {
    var ns := UnpackNodes(u, t.nodes, c);
    if ns.None? {
      return None;
    }
    r := Some(t.(nodes := ns.value));
  }

  /** The characters section read into `t`, then the nodes. */
  method UnpackCharactersInto(u: Unpacker, t: TimelineData, c: Codec) returns (r: Option<TimelineData>)
    requires u.Valid()
    modifies u
    ensures u.Valid() && ReadAs(ReadCharactersInto(t, old(u.Remaining()), c), r, u.Remaining())
  {
    var cs := UnpackCharacters(u, t.characters, c.text);
    if cs.None? {
      return None;
    }
    r := UnpackNodesInto(u, t.(characters := cs.value), c);
  }

  /** The scenes section read into `t`, then the rest. */
  method UnpackScenesInto(u: Unpacker, t: TimelineData, c: Codec) returns (r: Option<TimelineData>)
    requires u.Valid()
    modifies u
    ensures u.Valid() && ReadAs(ReadScenesInto(t, old(u.Remaining()), c), r, u.Remaining())
  {
    var ss := UnpackScenes(u, t.scenes, c.text);
    if ss.None? {
      return None;
    }
    r := UnpackCharactersInto(u, t.(scenes := ss.value), c);
  }

  /** The variables section read into `t`, then the rest. */
  method UnpackVariablesInto(u: Unpacker, t: TimelineData, c: Codec) returns (r: Option<TimelineData>)
    requires u.Valid()
    modifies u
    ensures u.Valid() && ReadAs(ReadVariablesInto(t, old(u.Remaining()), c), r, u.Remaining())
  {
    var vs := UnpackVariables(u, t.variables, c);
    if vs.None? {
      return None;
    }
    r := UnpackScenesInto(u, t.(variables := vs.value), c);
  }

  /** HamTimeline.Unpack on a timeline holding `prior`: the head, then the four sections. */
  method UnpackTimelineInto(u: Unpacker, prior: TimelineData, c: Codec) returns (r: Option<TimelineData>)
    requires u.Valid()
    modifies u
    ensures u.Valid() && ReadAs(ParseTimelineInto(prior, old(u.Remaining()), c), r, u.Remaining())
  {
    var head := UnpackHead(u, c.text);
    if head.None? {
      return None;
    }
    r := UnpackVariablesInto(u, WithHead(prior, head.value), c);
  }
}
