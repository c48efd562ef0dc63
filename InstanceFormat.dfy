/**
 * The layout HamTimelineInstance.Pack writes: the whole timeline, then the instance's
 * variable values as a count followed by (key, value) pairs, the current node, the current
 * scene, and the count-prefixed lists of characters in scene and of visited nodes. Unpack
 * reads a fresh timeline, but adds the values and appends both lists to what the instance
 * already holds.
 */
module InstanceFormat {
  import opened Wrappers
  import opened Serializer
  import opened Values
  import opened Lists
  import opened Nodes
  import opened NodePacking
  import opened TimelineFormat
  import opened Playback

  /** What HamTimelineInstance.Pack saves: the timeline it plays and its own fields. */
  datatype Saved = Saved(timeline: TimelineData, state: InstanceState)

  /** The instance's Dictionary entries in the order `ks` visits them. */
  function Entries(m: map<int32, VariableValue>, ks: seq<int32>): (r: seq<(int32, VariableValue)>)
    requires forall k :: k in ks ==> k in m
    ensures |r| == |ks| && forall i :: 0 <= i < |ks| ==> r[i] == (ks[i], m[ks[i]])
    decreases |ks|
  {
    if |ks| == 0 then [] else [(ks[0], m[ks[0]])] + Entries(m, ks[1..])
  }

  function EntryEncoder(vc: ValueCodec): ((int32, VariableValue)) -> seq<byte>
  {
    (e: (int32, VariableValue)) => Int32Bytes(e.0) + vc.encode(e.1)
  }

  /** One entry: the key, then the value. */
  function ParseEntry(s: seq<byte>, vc: ValueCodec): Parsed<(int32, VariableValue)>
  {
    var (k, t) :- ParseInt(s);
    var (v, t2) :- DecodeValue(t, vc);
    Some(((k, v), t2))
  }

  /** The variables part: the entry count, then each entry. */
  function ValuesBytes(m: map<int32, VariableValue>, ks: seq<int32>, vc: ValueCodec): seq<byte>
    requires VisitsAll(ks, m)
  {
    ListBytes(Entries(m, ks), EntryEncoder(vc))
  }

  /** The instance's own fields, after the timeline. */
  function StateBytes(s: InstanceState, order: seq<int32>, vc: ValueCodec): seq<byte>
    requires VisitsAll(order, s.variables)
    requires |s.charactersInScene| <= MaxInt32 && |s.nodeHistory| <= MaxInt32
  {
    ValuesBytes(s.variables, order, vc) + (Int32Bytes(s.currentNodeID) + (Int32Bytes(s.currentSceneID)
    + (ListBytes(s.charactersInScene, Int32Bytes) + ListBytes(s.nodeHistory, Int32Bytes))))
  }

  /** HamTimelineInstance.Pack(packer), with the Dictionaries visited in the orders `e` and `order`. */
  function InstanceBytes(sv: Saved, e: Enumeration, order: seq<int32>, c: Codec): seq<byte>
    requires Enumerates(e, sv.timeline) && VisitsAll(order, sv.state.variables)
    requires |sv.state.charactersInScene| <= MaxInt32 && |sv.state.nodeHistory| <= MaxInt32
  {
    TimelineBytes(sv.timeline, e, c) + StateBytes(sv.state, order, c.value)
  }

  // ---------------------------------------------------------------------------
  // Reading

  /** The reading loop for the values: `n` entries, each stored under its key as soon as it is read. */
  function ParseEntriesInto(m: map<int32, VariableValue>, s: seq<byte>, n: nat, vc: ValueCodec): Parsed<map<int32, VariableValue>>
    decreases n
  {
    if n == 0 then Some((m, s))
    else
      var (e, t) :- ParseEntry(s, vc);
      ParseEntriesInto(m[e.0 := e.1], t, n - 1, vc)
  }

  function ParseValuesInto(m: map<int32, VariableValue>, s: seq<byte>, vc: ValueCodec): Parsed<map<int32, VariableValue>>
  {
    var (count, t) :- ParseInt(s);
    ParseEntriesInto(m, t, LoopCount(count), vc)
  }

  /** The two lists, appended to those of `s`. */
  function ParseListsInto(s: InstanceState, bytes: seq<byte>): Parsed<InstanceState>
  {
    var (chars, t1) :- ParseList(bytes, ParseInt);
    var (history, t2) :- ParseList(t1, ParseInt);
    Some((s.(charactersInScene := s.charactersInScene + chars, nodeHistory := s.nodeHistory + history), t2))
  }

  /** The instance's own fields read into `prior`: values added to its map, the two ints overwritten, the lists appended. */
  function ParseStateInto(prior: InstanceState, s: seq<byte>, vc: ValueCodec): Parsed<InstanceState>
  {
    var (vars, t1) :- ParseValuesInto(prior.variables, s, vc);
    var (cur, t2) :- ParseInt(t1);
    var (scene, t3) :- ParseInt(t2);
    ParseListsInto(prior.(variables := vars, currentNodeID := cur, currentSceneID := scene), t3)
  }

  /** HamTimelineInstance.Unpack(unpacker) on an instance holding `prior`: a fresh timeline, then its own fields. */
  function ParseInstanceInto(prior: InstanceState, s: seq<byte>, c: Codec): Parsed<Saved>
  {
    var (t, t1) :- ParseTimelineInto(EmptyTimeline(), s, c);
    var (st, t2) :- ParseStateInto(prior, t1, c.value);
    Some((Saved(t, st), t2))
  }

  // ---------------------------------------------------------------------------
  // Round trips

  lemma {:induction false} EntryRoundTrip(k: int32, v: VariableValue, vc: ValueCodec, rest: seq<byte>)
    requires ValueCodecSound(vc)
    ensures ParseEntry(EntryEncoder(vc)((k, v)) + rest, vc) == Some(((k, v), rest))
  {
    ConcatAssoc(Int32Bytes(k), vc.encode(v), rest);
    ParseIntRoundTrip(k, vc.encode(v) + rest);
  }

  /** Reading back the entries of `m` in the order `ks` stores each value under its key. */
  lemma {:induction false} EntriesRoundTrip(acc: map<int32, VariableValue>, m: map<int32, VariableValue>, ks: seq<int32>, vc: ValueCodec, rest: seq<byte>)
    requires ValueCodecSound(vc) && forall k :: k in ks ==> k in m
    ensures ParseEntriesInto(acc, ManyBytes(Entries(m, ks), EntryEncoder(vc)) + rest, |ks|, vc) == Some((acc + Restrict(m, ks), rest))
    decreases |ks|
  {
    var xs := Entries(m, ks);
    if |ks| > 0 {
      var k0, tail := ks[0], ks[1..];
      InConsAll(ks);
      assert xs[1..] == Entries(m, tail);
      ConcatAssoc(EntryEncoder(vc)(xs[0]), ManyBytes(xs[1..], EntryEncoder(vc)), rest);
      EntryRoundTrip(k0, m[k0], vc, ManyBytes(xs[1..], EntryEncoder(vc)) + rest);
      EntriesRoundTrip(acc[k0 := m[k0]], m, tail, vc, rest);
      RestrictCons(acc, m, ks);
    } else {
      assert ManyBytes(xs, EntryEncoder(vc)) + rest == rest;
      assert acc + Restrict(m, ks) == acc;
    }
  }

  /** Unpacking the packed values into `prior` adds every entry of `m`, replacing any value `prior` had under that key. */
  lemma {:induction false} ValuesRoundTrip(prior: map<int32, VariableValue>, m: map<int32, VariableValue>, ks: seq<int32>, vc: ValueCodec, rest: seq<byte>)
    requires ValueCodecSound(vc) && VisitsAll(ks, m)
    ensures ParseValuesInto(prior, ValuesBytes(m, ks, vc) + rest, vc) == Some((prior + m, rest))
  {
    var xs := Entries(m, ks);
    ConcatAssoc(Int32Bytes(|xs|), ManyBytes(xs, EntryEncoder(vc)), rest);
    ParseIntRoundTrip(|xs|, ManyBytes(xs, EntryEncoder(vc)) + rest);
    EntriesRoundTrip(prior, m, ks, vc, rest);
    assert Restrict(m, ks) == m;
  }

  lemma {:induction false} ListsRoundTrip(prior: InstanceState, chars: Many<int32>, history: Many<int32>, rest: seq<byte>)
    ensures ParseListsInto(prior, ListBytes(chars, Int32Bytes) + ListBytes(history, Int32Bytes) + rest) ==
      Some((prior.(charactersInScene := prior.charactersInScene + chars, nodeHistory := prior.nodeHistory + history), rest))
  {
    ConcatAssoc(ListBytes(chars, Int32Bytes), ListBytes(history, Int32Bytes), rest);
    IntsRoundTrip(chars, ListBytes(history, Int32Bytes) + rest);
    IntsRoundTrip(history, rest);
  }

  lemma {:induction false} StateRoundTrip(prior: InstanceState, s: InstanceState, order: seq<int32>, vc: ValueCodec, rest: seq<byte>)
    requires ValueCodecSound(vc) && VisitsAll(order, s.variables)
    requires |s.charactersInScene| <= MaxInt32 && |s.nodeHistory| <= MaxInt32
    ensures ParseStateInto(prior, StateBytes(s, order, vc) + rest, vc) ==
      Some((InstanceState(prior.variables + s.variables, s.currentNodeID, s.currentSceneID,
                          prior.charactersInScene + s.charactersInScene, prior.nodeHistory + s.nodeHistory), rest))
  {
    var v, a, b := ValuesBytes(s.variables, order, vc), Int32Bytes(s.currentNodeID), Int32Bytes(s.currentSceneID);
    var l := ListBytes(s.charactersInScene, Int32Bytes) + ListBytes(s.nodeHistory, Int32Bytes);
    ConcatAssoc(v, a + (b + l), rest);
    ConcatAssoc(a, b + l, rest);
    ConcatAssoc(b, l, rest);
    ValuesRoundTrip(prior.variables, s.variables, order, vc, a + (b + (l + rest)));
    ParseIntRoundTrip(s.currentNodeID, b + (l + rest));
    ParseIntRoundTrip(s.currentSceneID, l + rest);
    ListsRoundTrip(prior.(variables := prior.variables + s.variables, currentNodeID := s.currentNodeID, currentSceneID := s.currentSceneID),
                   s.charactersInScene, s.nodeHistory, rest);
  }

  /**
   * Unpack(Pack()) on an instance holding `prior`: the saved timeline and current node and
   * scene come back exactly; the saved values are added to the instance's and the saved
   * lists appended to its own.
   */
  lemma {:induction false} InstanceRoundTripInto(prior: InstanceState, sv: Saved, e: Enumeration, order: seq<int32>, c: Codec, rest: seq<byte>)
    requires Sound(c) && Enumerates(e, sv.timeline) && StoredUnderIds(sv.timeline)
    requires forall k :: k in sv.timeline.nodes ==> Packable(sv.timeline.nodes[k])
    requires VisitsAll(order, sv.state.variables)
    requires |sv.state.charactersInScene| <= MaxInt32 && |sv.state.nodeHistory| <= MaxInt32
    ensures ParseInstanceInto(prior, InstanceBytes(sv, e, order, c) + rest, c) ==
      Some((Saved(sv.timeline, InstanceState(prior.variables + sv.state.variables, sv.state.currentNodeID, sv.state.currentSceneID,
                                            prior.charactersInScene + sv.state.charactersInScene,
                                            prior.nodeHistory + sv.state.nodeHistory)), rest))
  {
    var tb, sb := TimelineBytes(sv.timeline, e, c), StateBytes(sv.state, order, c.value);
    ConcatAssoc(tb, sb, rest);
    TimelineRoundTrip(sv.timeline, e, c, sb + rest);
    StateRoundTrip(prior, sv.state, order, c.value, rest);
    ReadBoth(prior, tb + (sb + rest), sb + rest, rest, c, sv.timeline, ParseStateInto(prior, sb + rest, c.value).value.0);
  }

  /** The instance read as its two parts. */
  lemma ReadBoth(prior: InstanceState, s: seq<byte>, mid: seq<byte>, rest: seq<byte>, c: Codec, t: TimelineData, st: InstanceState)
    requires ParseTimelineInto(EmptyTimeline(), s, c) == Some((t, mid))
    requires ParseStateInto(prior, mid, c.value) == Some((st, rest))
    ensures ParseInstanceInto(prior, s, c) == Some((Saved(t, st), rest))
  {
  }

  /**
   * Unpacking into an instance with empty lists whose values are all under keys the saved
   * instance has too (one just built from its timeline, for a save whose values cover the
   * timeline's variables) restores exactly what was saved.
   */
  lemma InstanceRoundTrip(prior: InstanceState, sv: Saved, e: Enumeration, order: seq<int32>, c: Codec, rest: seq<byte>)
    requires Sound(c) && Enumerates(e, sv.timeline) && StoredUnderIds(sv.timeline)
    requires forall k :: k in sv.timeline.nodes ==> Packable(sv.timeline.nodes[k])
    requires VisitsAll(order, sv.state.variables)
    requires |sv.state.charactersInScene| <= MaxInt32 && |sv.state.nodeHistory| <= MaxInt32
    requires prior.charactersInScene == [] && prior.nodeHistory == [] && prior.variables.Keys <= sv.state.variables.Keys
    ensures ParseInstanceInto(prior, InstanceBytes(sv, e, order, c) + rest, c) == Some((sv, rest))
  {
    InstanceRoundTripInto(prior, sv, e, order, c, rest);
    Overwrites(prior, sv.state);
  }

  /** Adding `s` to an instance with empty lists and no keys of its own gives `s`. */
  lemma Overwrites(prior: InstanceState, s: InstanceState)
    requires prior.charactersInScene == [] && prior.nodeHistory == [] && prior.variables.Keys <= s.variables.Keys
    ensures InstanceState(prior.variables + s.variables, s.currentNodeID, s.currentSceneID,
                          prior.charactersInScene + s.charactersInScene, prior.nodeHistory + s.nodeHistory) == s
  {
    assert prior.variables + s.variables == s.variables;
    assert prior.charactersInScene + s.charactersInScene == s.charactersInScene;
    assert prior.nodeHistory + s.nodeHistory == s.nodeHistory;
  }

  // ---------------------------------------------------------------------------
  // Packing

  /** `foreach (int key in variables.Keys) { Pack(key); variables[key].Pack(packer); }`, after the count. */
  method PackValues(packer: Packer, m: map<int32, VariableValue>, order: seq<int32>, vc: ValueCodec)
    requires VisitsAll(order, m)
    modifies packer
    ensures packer.buffer == old(packer.buffer) + ValuesBytes(m, order, vc)
  {
    var items := Entries(m, order);
    ghost var total := old(packer.buffer) + ListBytes(items, EntryEncoder(vc));
    PackLoopStart(packer.buffer, items, EntryEncoder(vc));
    packer.PackInt(|items|);
    var i := 0;
    while i < |items|
      invariant 0 <= i <= |items|
      invariant packer.buffer + ManyBytes(items[i..], EntryEncoder(vc)) == total
    {
      ManyBytesStep(packer.buffer, items, i, EntryEncoder(vc), total);
      ConcatAssoc(packer.buffer, Int32Bytes(items[i].0), vc.encode(items[i].1));
      packer.PackInt(items[i].0);
      PackValue(packer, items[i].1, vc);
      i := i + 1;
    }
    PackLoopEnd(packer.buffer, items, EntryEncoder(vc), total);
  }

  /** The instance's own fields, as HamTimelineInstance.Pack writes them after the timeline. */
  method PackState(packer: Packer, s: InstanceState, order: seq<int32>, vc: ValueCodec)
    requires VisitsAll(order, s.variables)
    requires |s.charactersInScene| <= MaxInt32 && |s.nodeHistory| <= MaxInt32
    modifies packer
    ensures packer.buffer == old(packer.buffer) + StateBytes(s, order, vc)
  {
    ghost var start := packer.buffer;
    PackValues(packer, s.variables, order, vc);
    packer.PackInt(s.currentNodeID);
    packer.PackInt(s.currentSceneID);
    PackInts(packer, s.charactersInScene);
    PackInts(packer, s.nodeHistory);
    AppendFive(start, ValuesBytes(s.variables, order, vc), Int32Bytes(s.currentNodeID), Int32Bytes(s.currentSceneID),
               ListBytes(s.charactersInScene, Int32Bytes), ListBytes(s.nodeHistory, Int32Bytes));
  }

  /** HamTimelineInstance.Pack(packer) for the saved state `sv`. */
  method PackInstance(packer: Packer, sv: Saved, e: Enumeration, order: seq<int32>, c: Codec)
    requires Enumerates(e, sv.timeline) && forall k :: k in sv.timeline.nodes ==> Packable(sv.timeline.nodes[k])
    requires VisitsAll(order, sv.state.variables)
    requires |sv.state.charactersInScene| <= MaxInt32 && |sv.state.nodeHistory| <= MaxInt32
    modifies packer
    ensures packer.buffer == old(packer.buffer) + InstanceBytes(sv, e, order, c)
  {
    ghost var start := packer.buffer;
    PackTimeline(packer, sv.timeline, e, c);
    PackState(packer, sv.state, order, c.value);
    ConcatAssoc(start, TimelineBytes(sv.timeline, e, c), StateBytes(sv.state, order, c.value));
  }

  // ---------------------------------------------------------------------------
  // Unpacking

  method UnpackEntry(u: Unpacker, vc: ValueCodec) returns (r: Option<(int32, VariableValue)>)
    requires u.Valid()
    modifies u
    ensures u.Valid() && ReadAs(ParseEntry(old(u.Remaining()), vc), r, u.Remaining())
  {
    var k := u.UnpackInt();
    if k.None? {
      return None;
    }
    var v := UnpackValue(u, vc);
    if v.None? {
      return None;
    }
    r := Some((k.value, v.value));
  }

  /** The loop invariant of the values loop, carried over one more entry; `acc'` and `k'` are the updated variables. */
  lemma {:induction false} EntriesNext(before: seq<byte>, k: nat, vc: ValueCodec, acc: map<int32, VariableValue>, x: (int32, VariableValue), t: seq<byte>,
                                       whole: Parsed<map<int32, VariableValue>>, acc': map<int32, VariableValue>, k': nat)
    requires k > 0 && ParseEntry(before, vc) == Some((x, t)) && ParseEntriesInto(acc, before, k, vc) == whole
    requires acc' == acc[x.0 := x.1] && k' == k - 1
    ensures ParseEntriesInto(acc', t, k', vc) == whole
  {
  }

  /** `for (i = 0; i < varSize; ++i) { Unpack(out key); val.Unpack(unpacker); variables[key] = val; }`, after the count. */
  method UnpackValuesInto(u: Unpacker, m: map<int32, VariableValue>, vc: ValueCodec) returns (r: Option<map<int32, VariableValue>>)
    requires u.Valid()
    modifies u
    ensures u.Valid() && ReadAs(ParseValuesInto(m, old(u.Remaining()), vc), r, u.Remaining())
  {
    var count := u.UnpackInt();
    if count.None? {
      return None;
    }
    var n := LoopCount(count.value);
    ghost var whole := ParseEntriesInto(m, u.Remaining(), n, vc);
    var acc: map<int32, VariableValue> := m;
    var k := n;
    while k > 0
      invariant u.Valid() && 0 <= k <= n
      invariant ParseEntriesInto(acc, u.Remaining(), k, vc) == whole
    {
      ghost var before := u.Remaining();
      var x := UnpackEntry(u, vc);
      if x.None? {
        return None;
      }
      ghost var acc0, k0 := acc, k;
      acc := acc[x.value.0 := x.value.1];
      k := k - 1;
      EntriesNext(before, k0, vc, acc0, x.value, u.Remaining(), whole, acc, k);
    }
    r := Some(acc);
  }

  /** The two list loops, each adding to the instance's list. */
  method UnpackListsInto(u: Unpacker, s: InstanceState) returns (r: Option<InstanceState>)
    requires u.Valid()
    modifies u
    ensures u.Valid() && ReadAs(ParseListsInto(s, old(u.Remaining())), r, u.Remaining())
  {
    var chars := UnpackInts(u);
    if chars.None? {
      return None;
    }
    var history := UnpackInts(u);
    if history.None? {
      return None;
    }
    r := Some(s.(charactersInScene := s.charactersInScene + chars.value, nodeHistory := s.nodeHistory + history.value));
  }

  method UnpackStateInto(u: Unpacker, prior: InstanceState, vc: ValueCodec) returns (r: Option<InstanceState>)
    requires u.Valid()
    modifies u
    ensures u.Valid() && ReadAs(ParseStateInto(prior, old(u.Remaining()), vc), r, u.Remaining())
  {
    var vars := UnpackValuesInto(u, prior.variables, vc);
    if vars.None? {
      return None;
    }
    var cur := u.UnpackInt();
    if cur.None? {
      return None;
    }
    var scene := u.UnpackInt();
    if scene.None? {
      return None;
    }
    r := UnpackListsInto(u, prior.(variables := vars.value, currentNodeID := cur.value, currentSceneID := scene.value));
  }

  /** HamTimelineInstance.Unpack(unpacker) on an instance holding `prior`. */
  method UnpackInstanceInto(u: Unpacker, prior: InstanceState, c: Codec) returns (r: Option<Saved>)
    requires u.Valid()
    modifies u
    ensures u.Valid() && ReadAs(ParseInstanceInto(prior, old(u.Remaining()), c), r, u.Remaining())
  {
    var t := UnpackTimelineInto(u, EmptyTimeline(), c);
    if t.None? {
      return None;
    }
    var st := UnpackStateInto(u, prior, c.value);
    if st.None? {
      return None;
    }
    r := Some(Saved(t.value, st.value));
  }
}
