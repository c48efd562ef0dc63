/**
 * The binary wire format of Util/Serializer.cs: a packer that appends to a growing
 * byte buffer, and an unpacker that reads a fixed byte array from an advancing offset.
 *
 * Every value written by the packer has a byte layout given here as a function
 * (`Int32Bytes`, `BoolBytes`, `LengthPrefixed`, ...), and every read of the unpacker
 * has a parse function over the bytes still to be read, yielding the value and the
 * bytes left after it, or None where the C# code throws. The round-trip lemmas say
 * that a parse function finds again whatever its layout put in front of any rest.
 */
module Serializer {
  import opened Wrappers

  type byte = b: int | 0 <= b < 0x100

  /** A C# `int`. */
  type int32 = i: int | -0x8000_0000 <= i < 0x8000_0000

  const MaxInt32: int := 0x7FFF_FFFF

  /** A C# List or array: its Count or Length is an `int`, so it never holds more than MaxInt32 items. */
  type Many<T> = s: seq<T> | |s| <= 0x7FFF_FFFF

  /** A parse result: the value read and the bytes after it. */
  type Parsed<T> = Option<(T, seq<byte>)>

  /** The text encoding behind the string wrappers of DataPacker/DataUnpacker, kept abstract. */
  datatype TextCodec = TextCodec(encode: string -> Many<byte>, decode: seq<byte> -> string)

  /** What the model assumes of the encoding: decoding undoes encoding. */
  ghost predicate TextCodecSound(tc: TextCodec)
  {
    forall s :: tc.decode(tc.encode(s)) == s
  }

  // ---------------------------------------------------------------------------
  // Layouts

  /** The bytes of BitConverter.GetBytes(int): 32-bit two's complement, least significant first. */
  function Int32Bytes(i: int32): (r: seq<byte>)
    ensures |r| == 4
  {
    var u := if i < 0 then i + 0x1_0000_0000 else i;
    [u % 0x100, (u / 0x100) % 0x100, (u / 0x1_0000) % 0x100, u / 0x100_0000]
  }

  /** The int32 whose little-endian bytes are b0, b1, b2, b3 (BitConverter.ToInt32). */
  function Int32Of(b0: byte, b1: byte, b2: byte, b3: byte): int32
  {
    var u := b0 + 0x100 * b1 + 0x1_0000 * b2 + 0x100_0000 * b3;
    if u >= 0x8000_0000 then u - 0x1_0000_0000 else u
  }

  /** BitConverter.GetBytes(bool): one byte, 1 for true and 0 for false. */
  function BoolBytes(b: bool): (r: seq<byte>)
    ensures |r| == 1
  {
    [if b then 1 else 0]
  }

  /** Pack(byte[]): the 4-byte length, then the bytes verbatim. */
  function LengthPrefixed(b: Many<byte>): (r: seq<byte>)
    ensures |r| == 4 + |b| && r[4..] == b
  {
    Int32Bytes(|b|) + b
  }

  /** Pack(string): the encoded string as a byte[]. */
  function TextBytes(s: string, tc: TextCodec): (r: seq<byte>)
  {
    LengthPrefixed(tc.encode(s))
  }

  /** The items' layouts one after another, as a packing loop writes them. */
  function ManyBytes<T>(items: seq<T>, enc: T -> seq<byte>): (r: seq<byte>)
  {
    if |items| == 0 then [] else enc(items[0]) + ManyBytes(items[1..], enc)
  }

  /** A count-prefixed list: the count as an int, then the items. */
  function ListBytes<T>(items: Many<T>, enc: T -> seq<byte>): (r: seq<byte>)
  {
    Int32Bytes(|items|) + ManyBytes(items, enc)
  }

  // ---------------------------------------------------------------------------
  // Parsing: each function reads from the front of `s`

  function ParseByte(s: seq<byte>): (r: Parsed<byte>)
  {
    if |s| >= 1 then Some((s[0], s[1..])) else None
  }

  /** BitConverter.ToBoolean: true exactly when the byte is non-zero. */
  function ParseBool(s: seq<byte>): (r: Parsed<bool>)
    ensures r.Some? <==> |s| >= 1
    ensures r.Some? ==> r.value == (s[0] != 0, s[1..])
  {
    if |s| >= 1 then Some((s[0] != 0, s[1..])) else None
  }

  function ParseInt(s: seq<byte>): (r: Parsed<int32>)
  {
    if |s| >= 4 then Some((Int32Of(s[0], s[1], s[2], s[3]), s[4..])) else None
  }

  /**
   * Unpack(out byte[]): the size, then that many bytes. A zero size yields an empty
   * array; a negative size (new byte[size]) or too few bytes left (Array.Copy) fails.
   */
  function ParseBytes(s: seq<byte>): (r: Parsed<Many<byte>>)
    ensures r.Some? ==> |s| == 4 + |r.value.0| + |r.value.1|
  {
    var (size, t) :- ParseInt(s);
    if size == 0 then Some(([], t))
    else if size < 0 || size > |t| then None
    else Some((t[..size], t[size..]))
  }

  /** Unpack(out string): a byte[], then decoded. */
  function ParseText(s: seq<byte>, tc: TextCodec): (r: Parsed<string>)
  {
    var (b, t) :- ParseBytes(s);
    Some((tc.decode(b), t))
  }

  /** n items read one after another. */
  function ParseMany<T>(s: seq<byte>, n: nat, item: seq<byte> -> Parsed<T>): (r: Parsed<seq<T>>)
    ensures r.Some? ==> |r.value.0| == n
    decreases n
  {
    if n == 0 then Some(([], s))
    else
      var (x, t) :- item(s);
      var (xs, u) :- ParseMany(t, n - 1, item);
      Some(([x] + xs, u))
  }

  /** A loop `for (i = 0; i < count; ++i)` runs no iteration for a negative count. */
  function LoopCount(count: int32): nat
  {
    if count < 0 then 0 else count
  }

  /** A count-prefixed list. */
  function ParseList<T>(s: seq<byte>, item: seq<byte> -> Parsed<T>): (r: Parsed<Many<T>>)
  {
    var (count, t) :- ParseInt(s);
    var (xs, u) :- ParseMany(t, LoopCount(count), item);
    Some((xs, u))
  }

  /** Puts xs in front of the items of a parse result. */
  function Prepend<T>(xs: seq<T>, r: Parsed<seq<T>>): Parsed<seq<T>>
  {
    match r
    case None => None
    case Some((ys, t)) => Some((xs + ys, t))
  }

  // ---------------------------------------------------------------------------
  // Round trips

  /** Appending in two steps appends the concatenation. */
  lemma ConcatAssoc(a: seq<byte>, b: seq<byte>, c: seq<byte>)
    ensures (a + b) + c == a + (b + c)
  {
  }

  lemma {:induction false} Int32BytesRoundTrip(i: int32)
    ensures var r := Int32Bytes(i); Int32Of(r[0], r[1], r[2], r[3]) == i
  {
    var u := if i < 0 then i + 0x1_0000_0000 else i;
    var q1, q2, q3 := u / 0x100, u / 0x1_0000, u / 0x100_0000;
    assert u == u % 0x100 + 0x100 * q1;
    assert q1 == q1 % 0x100 + 0x100 * (q1 / 0x100);
    assert q1 / 0x100 == q2;
    assert q2 == q2 % 0x100 + 0x100 * (q2 / 0x100);
    assert q2 / 0x100 == q3;
  }

  lemma {:induction false} ParseIntRoundTrip(i: int32, rest: seq<byte>)
    ensures ParseInt(Int32Bytes(i) + rest) == Some((i, rest))
  {
    var r := Int32Bytes(i);
    var s := r + rest;
    assert s[0] == r[0] && s[1] == r[1] && s[2] == r[2] && s[3] == r[3];
    Int32BytesRoundTrip(i);
  }

  lemma {:induction false} ParseByteRoundTrip(b: byte, rest: seq<byte>)
    ensures ParseByte([b] + rest) == Some((b, rest))
  {
    assert ([b] + rest)[0] == b;
  }

  lemma {:induction false} ParseBoolRoundTrip(b: bool, rest: seq<byte>)
    ensures ParseBool(BoolBytes(b) + rest) == Some((b, rest))
  {
    assert (BoolBytes(b) + rest)[0] == BoolBytes(b)[0];
  }

  lemma {:induction false} ParseBytesRoundTrip(b: Many<byte>, rest: seq<byte>)
    ensures ParseBytes(LengthPrefixed(b) + rest) == Some((b, rest))
  {
    ConcatAssoc(Int32Bytes(|b|), b, rest);
    ParseIntRoundTrip(|b|, b + rest);
    if |b| == 0 {
      assert b == [];
    } else {
      assert (b + rest)[..|b|] == b;
    }
  }

  lemma {:induction false} ParseTextRoundTrip(s: string, tc: TextCodec, rest: seq<byte>)
    requires TextCodecSound(tc)
    ensures ParseText(TextBytes(s, tc) + rest, tc) == Some((s, rest))
  {
    ParseBytesRoundTrip(tc.encode(s), rest);
  }

  /** Every item of `items`, in front of any rest, parses back to itself. */
  ghost predicate ItemsRoundTrip<T>(items: seq<T>, enc: T -> seq<byte>, item: seq<byte> -> Parsed<T>)
  {
    forall x, rest :: x in items ==> item(enc(x) + rest) == Some((x, rest))
  }

  /**
   * If every item parses back from its own layout, the items parse back from the
   * layout of the whole sequence.
   */
  lemma {:induction false} ParseManyRoundTrip<T>(items: seq<T>, enc: T -> seq<byte>, item: seq<byte> -> Parsed<T>, rest: seq<byte>)
    requires ItemsRoundTrip(items, enc, item)
    ensures ParseMany(ManyBytes(items, enc) + rest, |items|, item) == Some((items, rest))
    decreases |items|
  {
    if |items| > 0 {
      var head, tail := enc(items[0]), ManyBytes(items[1..], enc);
      ConcatAssoc(head, tail, rest);
      assert items[0] in items;
      assert item(head + (tail + rest)) == Some((items[0], tail + rest));
      assert ItemsRoundTrip(items[1..], enc, item) by {
        forall x | x in items[1..] ensures x in items { }
      }
      ParseManyRoundTrip(items[1..], enc, item, rest);
      assert [items[0]] + items[1..] == items;
    } else {
      assert ManyBytes(items, enc) + rest == rest;
      assert items == [];
    }
  }

  lemma {:induction false} ParseListRoundTrip<T>(items: Many<T>, enc: T -> seq<byte>, item: seq<byte> -> Parsed<T>, rest: seq<byte>)
    requires ItemsRoundTrip(items, enc, item)
    ensures ParseList(ListBytes(items, enc) + rest, item) == Some((items, rest))
  {
    ConcatAssoc(Int32Bytes(|items|), ManyBytes(items, enc), rest);
    ParseIntRoundTrip(|items|, ManyBytes(items, enc) + rest);
    ParseManyRoundTrip(items, enc, item, rest);
  }

  /** Before a reading loop's first iteration nothing has been read. */
  lemma {:induction false} ReadLoopStart<T>(s: seq<byte>, n: nat, item: seq<byte> -> Parsed<T>)
    ensures Prepend([], ParseMany(s, n, item)) == ParseMany(s, n, item)
  {
    match ParseMany(s, n, item)
    case None =>
    case Some((xs, t)) => assert [] + xs == xs;
  }

  /** One more item read at the front of ParseMany: the step a reading loop takes. */
  lemma {:induction false} ParseManyStep<T>(s: seq<byte>, n: nat, item: seq<byte> -> Parsed<T>, acc: seq<T>, x: T, t: seq<byte>)
    requires n > 0 && item(s) == Some((x, t))
    ensures Prepend(acc, ParseMany(s, n, item)) == Prepend(acc + [x], ParseMany(t, n - 1, item))
  {
    match ParseMany(t, n - 1, item)
    case None =>
    case Some((xs, u)) => assert acc + ([x] + xs) == (acc + [x]) + xs;
  }

  /** The loop invariant of a reading loop, carried over one more item read; `acc'` and `k'` are the updated variables. */
  lemma {:induction false} ReadLoopNext<T>(before: seq<byte>, k: nat, item: seq<byte> -> Parsed<T>, acc: seq<T>, x: T, t: seq<byte>,
                                           whole: Parsed<seq<T>>, acc': seq<T>, k': nat)
    requires k > 0 && item(before) == Some((x, t)) && Prepend(acc, ParseMany(before, k, item)) == whole
    requires acc' == acc + [x] && k' == k - 1
    ensures Prepend(acc', ParseMany(t, k', item)) == whole
  {
    ParseManyStep(before, k, item, acc, x, t);
  }

  /** An item that fails to read fails the rest of the loop. */
  lemma {:induction false} ReadLoopFail<T>(s: seq<byte>, n: nat, item: seq<byte> -> Parsed<T>, acc: seq<T>)
    requires n > 0 && item(s).None?
    ensures Prepend(acc, ParseMany(s, n, item)).None?
  {
  }

  /** After the last iteration, the items read are the whole result. */
  lemma {:induction false} ReadLoopEnd<T>(s: seq<byte>, item: seq<byte> -> Parsed<T>, acc: seq<T>)
    ensures Prepend(acc, ParseMany(s, 0, item)) == Some((acc, s))
  {
    assert acc + [] == acc;
  }

  /** One more item written at the back: the step a packing loop takes. */
  lemma {:induction false} ManyBytesStep<T>(prefix: seq<byte>, items: seq<T>, i: nat, enc: T -> seq<byte>, total: seq<byte>)
    requires i < |items| && prefix + ManyBytes(items[i..], enc) == total
    ensures (prefix + enc(items[i])) + ManyBytes(items[i + 1..], enc) == total
  {
    assert items[i..][1..] == items[i + 1..];
    ConcatAssoc(prefix, enc(items[i]), ManyBytes(items[i + 1..], enc));
  }

  /** After the count, the whole list is still to be written. */
  lemma {:induction false} PackLoopStart<T>(prefix: seq<byte>, items: Many<T>, enc: T -> seq<byte>)
    ensures (prefix + Int32Bytes(|items|)) + ManyBytes(items[0..], enc) == prefix + ListBytes(items, enc)
  {
    assert items[0..] == items;
    ConcatAssoc(prefix, Int32Bytes(|items|), ManyBytes(items, enc));
  }

  /** After the last item, nothing is left to write. */
  lemma {:induction false} PackLoopEnd<T>(prefix: seq<byte>, items: seq<T>, enc: T -> seq<byte>, total: seq<byte>)
    requires prefix + ManyBytes(items[|items|..], enc) == total
    ensures prefix == total
  {
    assert |items[|items|..]| == 0;
    assert prefix + [] == prefix;
  }

  // ---------------------------------------------------------------------------
  // BinaryDataPacker

  class Packer {
    var buffer: seq<byte>

    constructor ()
      ensures buffer == []
    {
      buffer := [];
    }

    /** GetBytes: the appended bytes, in append order. */
    method GetBytes() returns (r: seq<byte>)
      ensures r == buffer
    {
      r := buffer;
    }

    method PackByte(b: byte)
      modifies this
      ensures buffer == old(buffer) + [b]
    {
      buffer := buffer + [b];
    }

    method PackBool(b: bool)
      modifies this
      ensures buffer == old(buffer) + BoolBytes(b)
    {
      buffer := buffer + BoolBytes(b);
    }

    method PackInt(i: int32)
      modifies this
      ensures buffer == old(buffer) + Int32Bytes(i)
    {
      buffer := buffer + Int32Bytes(i);
    }

    method PackBytes(b: Many<byte>)
      modifies this
      ensures buffer == old(buffer) + LengthPrefixed(b)
    {
      buffer := buffer + Int32Bytes(|b|);
      if |b| > 0 {
        buffer := buffer + b;
      }
    }

    /** Pack(string): a byte[] holding the string's encoding. */
    method PackText(s: string, tc: TextCodec)
      modifies this
      ensures buffer == old(buffer) + TextBytes(s, tc)
    {
      PackBytes(tc.encode(s));
    }
  }

  // ---------------------------------------------------------------------------
  // BinaryDataUnpacker

  /** A read `r` left the bytes `after` unread, exactly as the parse result `p` says; a failed read moves nothing. */
  ghost predicate Consumed<T>(p: Parsed<T>, r: Option<T>, before: seq<byte>, after: seq<byte>)
  {
    match p
    case None => r.None? && after == before
    case Some((x, t)) => r == Some(x) && after == t
  }

  /** As Consumed, except that what is left unread after a failed read is not specified. */
  ghost predicate ReadAs<T>(p: Parsed<T>, r: Option<T>, after: seq<byte>)
  {
    match p
    case None => r.None?
    case Some((x, t)) => r == Some(x) && after == t
  }

  class Unpacker {
    const buffer: seq<byte>
    var offset: nat

    /** The offset never passes the end: every read checks its bytes before moving. */
    ghost predicate Valid()
      reads this
    {
      offset <= |buffer|
    }

    /** The bytes still to be read. */
    ghost function Remaining(): seq<byte>
      reads this
      requires Valid()
    {
      buffer[offset..]
    }

    constructor (buffer: seq<byte>)
      ensures this.buffer == buffer && offset == 0
      ensures Valid() && Remaining() == buffer
    {
      this.buffer := buffer;
      offset := 0;
    }

    method UnpackByte() returns (r: Option<byte>)
      requires Valid()
      modifies this
      ensures Valid() && Consumed(ParseByte(old(Remaining())), r, old(Remaining()), Remaining())
    {
      if offset < |buffer| {
        r := Some(buffer[offset]);
        offset := offset + 1;
      } else {
        r := None;
      }
    }

    method UnpackBool() returns (r: Option<bool>)
      requires Valid()
      modifies this
      ensures Valid() && Consumed(ParseBool(old(Remaining())), r, old(Remaining()), Remaining())
    {
      if offset < |buffer| {
        r := Some(buffer[offset] != 0);
        offset := offset + 1;
      } else {
        r := None;
      }
    }

    method UnpackInt() returns (r: Option<int32>)
      requires Valid()
      modifies this
      ensures Valid() && Consumed(ParseInt(old(Remaining())), r, old(Remaining()), Remaining())
    {
      if offset + 4 <= |buffer| {
        r := Some(Int32Of(buffer[offset], buffer[offset + 1], buffer[offset + 2], buffer[offset + 3]));
        offset := offset + 4;
      } else {
        r := None;
      }
    }

    /** After a size was read but the array could not be, the offset stays past the size. */
    method UnpackBytes() returns (r: Option<Many<byte>>)
      requires Valid()
      modifies this
      ensures Valid() && ReadAs(ParseBytes(old(Remaining())), r, Remaining())
      ensures r.None? ==> offset == (if old(offset) + 4 <= |buffer| then old(offset) + 4 else old(offset))
    {
      var size := UnpackInt();
      if size.None? {
        return None;
      }
      if size.value == 0 {
        r := Some([]);
      } else if size.value < 0 || offset + size.value > |buffer| {
        r := None;
      } else {
        assert buffer[offset..offset + size.value] == buffer[offset..][..size.value];
        r := Some(buffer[offset..offset + size.value]);
        offset := offset + size.value;
      }
    }

    method UnpackText(tc: TextCodec) returns (r: Option<string>)
      requires Valid()
      modifies this
      ensures Valid() && ReadAs(ParseText(old(Remaining()), tc), r, Remaining())
    {
      var b := UnpackBytes();
      r := if b.Some? then Some(tc.decode(b.value)) else None;
    }
  }
}
