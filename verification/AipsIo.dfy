/** src/aipsio_writer.cpp and src/aipsio_reader.cpp: the canonical big-endian stream. */
module AipsIo {
  import opened Arithmetic
  import opened Wrappers
  import opened Bytes

  /** kAipsIoMagic; the same in either byte order. */
  const MAGIC: uint32 := 0xBEBEBEBE

  /** A value and the bytes after it, or nothing where the source throws. */
  type Parsed<T> = Option<(T, ByteSeq)>

  // ---- what the stream means ----

  function U32(v: nat): (b: ByteSeq)
    ensures |b| == 4
  {
    EncodeBe(v, 4)
  }

  /** write_string truncates the length to 32 bits. */
  function StringBytes(s: ByteSeq): (b: ByteSeq)
    ensures |b| == 4 + |s|
  {
    U32(|s| % TWO32) + s
  }

  function ParseBytes(s: ByteSeq, n: nat): (r: Parsed<ByteSeq>)
    ensures r.Some? ==> s == r.value.0 + r.value.1 && |r.value.0| == n
  {
    if n > |s| then None else Some((s[..n], s[n..]))
  }

  function ParseUnsigned(s: ByteSeq, w: nat): (r: Parsed<nat>)
    ensures r.Some? ==> r.value.0 < Pow256(w) && |r.value.1| == |s| - w
  {
    if w > |s| then None
    else
      EncodeDecodeBe(s[..w]);
      Some((DecodeBe(s[..w]), s[w..]))
  }

  function ParseU32(s: ByteSeq): (r: Parsed<uint32>)
    ensures r.Some? ==> |r.value.1| == |s| - 4
  {
    Widths();
    var (v, rest) :- ParseUnsigned(s, 4);
    Some((v, rest))
  }

  function ParseI32(s: ByteSeq): (r: Parsed<int32>)
    ensures r.Some? ==> |r.value.1| == |s| - 4
  {
    Widths();
    var (v, rest) :- ParseUnsigned(s, 4);
    Some((Signed(v, 4), rest))
  }

  function ParseString(s: ByteSeq): (r: Parsed<ByteSeq>)
    ensures r.Some? ==> |r.value.1| + 4 + |r.value.0| == |s|
  {
    var (n, rest) :- ParseU32(s);
    ParseBytes(rest, n)
  }

  lemma ParseUnsignedEncode(v: nat, w: nat, rest: ByteSeq)
    requires v < Pow256(w)
    ensures ParseUnsigned(EncodeBe(v, w) + rest, w) == Some((v, rest))
  {
    var s := EncodeBe(v, w) + rest;
    assert s[..w] == EncodeBe(v, w) && s[w..] == rest;
    DecodeEncodeBe(v, w);
  }

  lemma ParseU32Encode(v: uint32, rest: ByteSeq)
    ensures ParseU32(U32(v) + rest) == Some((v, rest))
  {
    Widths();
    ParseUnsignedEncode(v, 4, rest);
  }

  lemma ParseI32Encode(v: int32, rest: ByteSeq)
    requires 0 <= v + Pow256(4)
    ensures ParseI32(EncodeBe(Unsigned(v, 4), 4) + rest) == Some((v, rest))
  {
    Widths();
    SignedUnsigned(v, 4);
    ParseUnsignedEncode(Unsigned(v, 4), 4, rest);
  }

  lemma ParseStringEncode(t: ByteSeq, rest: ByteSeq)
    requires |t| < TWO32
    ensures ParseString(StringBytes(t) + rest) == Some((t, rest))
  {
    hide U32, ParseU32;
    assert StringBytes(t) + rest == U32(|t|) + (t + rest);
    ParseU32Encode(|t|, t + rest);
    assert (t + rest)[..|t|] == t && (t + rest)[|t|..] == rest;
  }

  // ---- the writer ----

  /** value >> (8 * k) */
  function ShiftRight(value: nat, k: nat): nat {
    if k == 0 then value else ShiftRight(value, k - 1) / 256
  }

  lemma {:induction false} ShiftedOut(value: nat, k: nat, w: nat)
    requires k <= w && value < Pow256(w)
    ensures ShiftRight(value, k) < Pow256(w - k)
  {
    if k > 0 {
      ShiftedOut(value, k - 1, w);
    }
  }

  class AipsIoWriter {
    var buffer: ByteSeq

    constructor ()
      ensures buffer == []
    {
      buffer := [];
    }

    /** encode_unsigned_be: most significant byte first. */
    method WriteUnsigned(value: nat, width: nat)
      requires value < Pow256(width)
      modifies this
      ensures buffer == old(buffer) + EncodeBe(value, width)
    {
      var index := 0;
      ShiftedOut(value, width, width);
      while index < width
        invariant 0 <= index <= width
        invariant buffer == old(buffer) + EncodeBe(ShiftRight(value, width - index), index)
      {
        buffer := buffer + [ShiftRight(value, width - 1 - index) % 256];
        index := index + 1;
      }
    }

    method WriteU32(value: uint32)
      modifies this
      ensures buffer == old(buffer) + U32(value)
    {
      Widths();
      WriteUnsigned(value, 4);
    }

    method WriteSigned(value: int, width: nat)
      requires 0 <= 2 * value + Pow256(width) && 2 * value < Pow256(width)
      modifies this
      ensures buffer == old(buffer) + EncodeBe(Unsigned(value, width), width)
    {
      WriteUnsigned(Unsigned(value, width), width);
    }

    method WriteString(value: ByteSeq)
      modifies this
      ensures buffer == old(buffer) + StringBytes(value)
    {
      hide U32;
      WriteU32(|value| % TWO32);
      if value != [] {
        buffer := buffer + value;
      }
    }

    /** Overwrites four bytes in place; false where the source throws. */
    method PatchU32(position: nat, value: uint32) returns (ok: bool)
      modifies this
      ensures ok == (position + 4 <= |old(buffer)|)
      ensures buffer == if ok then old(buffer[..position]) + U32(value) + old(buffer[position + 4..]) else old(buffer)
    {
      if position + 4 > |buffer| {
        return false;
      }
      Widths();
      ShiftedOut(value, 4, 4);
      var index := 0;
      while index < 4
        invariant 0 <= index <= 4
        invariant buffer == Overwritten(old(buffer), position, EncodeBe(ShiftRight(value, 4 - index), index))
      {
        OverwriteOne(old(buffer), position, EncodeBe(ShiftRight(value, 4 - index), index),
                     ShiftRight(value, 3 - index) % 256);
        buffer := buffer[position + index := ShiftRight(value, 3 - index) % 256];
        index := index + 1;
      }
      return true;
    }
  }

  ghost function Overwritten(s: ByteSeq, position: nat, t: ByteSeq): ByteSeq
    requires position + |t| <= |s|
  {
    s[..position] + t + s[position + |t|..]
  }

  lemma OverwriteOne(s: ByteSeq, position: nat, t: ByteSeq, b: Byte)
    requires position + |t| < |s|
    ensures Overwritten(s, position, t)[position + |t| := b] == Overwritten(s, position, t + [b])
  {
  }

  // ---- the reader ----

  class AipsIoReader {
    const bytes: ByteSeq
    var offset: nat

    ghost predicate Valid()
      reads this
    {
      offset <= |bytes|
    }

    /** The bytes still to be read. */
    ghost function Rest(): ByteSeq
      requires Valid()
      reads this
    {
      bytes[offset..]
    }

    constructor (b: ByteSeq)
      ensures Valid() && bytes == b && Rest() == b
    {
      bytes := b;
      offset := 0;
    }

    function Remaining(): nat
      requires Valid()
      reads this
    {
      |bytes| - offset
    }

    method ReadBytes(count: nat) returns (r: Option<ByteSeq>)
      requires Valid()
      modifies this
      ensures Valid() && Yields(ParseBytes(old(Rest()), count), r, Rest())
    {
      if count > Remaining() {
        return None;
      }
      assert Rest()[..count] == bytes[offset..offset + count];
      assert Rest()[count..] == bytes[offset + count..];
      r := Some(bytes[offset..offset + count]);
      offset := offset + count;
    }

    /** decode_unsigned_be over the next `width` bytes. */
    method ReadUnsigned(width: nat) returns (r: Option<nat>)
      requires Valid()
      modifies this
      ensures Valid() && Yields(ParseUnsigned(old(Rest()), width), r, Rest())
      ensures r.Some? ==> r.value < Pow256(width)
    {
      ghost var start := Rest();
      var chunk :- ReadBytes(width);
      assert chunk == start[..width];
      var value := 0;
      var i := 0;
      while i < |chunk|
        invariant 0 <= i <= |chunk| && value == DecodeBe(chunk[..i])
        invariant Valid() && Rest() == start[width..]
      {
        NoWrap(chunk, i, width);
        value := (value * 256 + chunk[i]) % Pow256(width);
        i := i + 1;
      }
      assert chunk[..i] == chunk;
      EncodeDecodeBe(chunk);
      return Some(value);
    }

    method ReadU32() returns (r: Option<uint32>)
      requires Valid()
      modifies this
      ensures Valid() && Yields(ParseU32(old(Rest())), r, Rest())
    {
      Widths();
      var v :- ReadUnsigned(4);
      return Some(v);
    }

    method ReadI32() returns (r: Option<int32>)
      requires Valid()
      modifies this
      ensures Valid() && Yields(ParseI32(old(Rest())), r, Rest())
    {
      Widths();
      var v :- ReadUnsigned(4);
      return Some(Signed(v, 4));
    }

    method ReadString() returns (r: Option<ByteSeq>)
      requires Valid()
      modifies this
      ensures Valid() && Yields(ParseString(old(Rest())), r, Rest())
    {
      var size :- ReadU32();
      if size > Remaining() {
        return None;
      }
      r := ReadBytes(size);
    }
  }

  /** The items read so far, followed by what the rest of the stream gives. */
  ghost function Continue<T>(done: seq<T>, p: Parsed<seq<T>>): Parsed<seq<T>> {
    match p
    case None => None
    case Some((items, rest)) => Some((done + items, rest))
  }

  lemma ContinueEmpty<T>(p: Parsed<seq<T>>)
    ensures Continue([], p) == p
  {
    assert p.Some? ==> [] + p.value.0 == p.value.0;
  }

  lemma ContinueMore<T>(done: seq<T>, x: T, p: Parsed<seq<T>>)
    ensures Continue(done, Continue([x], p)) == Continue(done + [x], p)
  {
    assert p.Some? ==> done + ([x] + p.value.0) == done + [x] + p.value.0;
  }

  lemma ContinueLast<T>(done: seq<T>, rest: ByteSeq)
    ensures Continue(done, Some(([], rest))) == Some((done, rest))
  {
    assert done + [] == done;
  }

  /** A read came out as its specification says: same failure, same value, same rest. */
  ghost predicate Yields<T>(spec: Parsed<T>, r: Option<T>, rest: ByteSeq) {
    match spec
    case None => r.None?
    case Some((v, s)) => r == Some(v) && rest == s
  }

  lemma NoWrap(chunk: ByteSeq, i: nat, width: nat)
    requires i < |chunk| == width
    ensures DecodeBe(chunk[..i + 1]) == (DecodeBe(chunk[..i]) * 256 + chunk[i]) % Pow256(width)
  {
    EncodeDecodeBe(chunk[..i + 1]);
    PowMonotone(i + 1, width);
    assert chunk[..i + 1][..i] == chunk[..i];
    SmallMod(DecodeBe(chunk[..i + 1]), Pow256(width));
  }

  lemma {:induction false} PowMonotone(a: nat, b: nat)
    requires a <= b
    ensures Pow256(a) <= Pow256(b)
    decreases b
  {
    if a < b {
      PowMonotone(a, b - 1);
    }
  }
}
