/**
 Bytes, fixed-width integers and NUL-terminated text: the layer that `AddItem` and
 `ReadItem` of vcookiestore.cpp work on. Integers are copied with memcpy, here in
 little-endian order; text is copied with its terminating NUL.
 */
module Bytes {
  import opened Arithmetic

  type Byte = b: int | 0 <= b < 256
  type Text = seq<Byte>
  type UInt16 = n: int | 0 <= n < 0x1_0000
  type UInt32 = n: int | 0 <= n < 0x1_0000_0000
  type UInt64 = n: int | 0 <= n < 0x1_0000_0000_0000_0000
  type Time = t: int | -0x8000_0000_0000_0000 <= t < 0x8000_0000_0000_0000  // a 64-bit time_t

  const U32 := 0x1_0000_0000
  const U64 := 0x1_0000_0000_0000_0000

  datatype Option<+T> = None | Some(value: T)

  // ---- Fixed-width integers ------------------------------------------------

  function Pow256(width: nat): (p: nat)
    ensures p > 0
  {
    if width == 0 then 1 else 256 * Pow256(width - 1)
  }

  /** The low `width` bytes of `n`, least significant byte first. */
  function LE(n: nat, width: nat): (bs: seq<Byte>)
    ensures |bs| == width
  {
    if width == 0 then [] else [n % 256] + LE(n / 256, width - 1)
  }

  function FromLE(bs: seq<Byte>): (n: nat)
    ensures n < Pow256(|bs|)
  {
    if bs == [] then 0 else bs[0] + 256 * FromLE(bs[1..])
  }

  lemma {:induction false} LERoundTrip(n: nat, width: nat)
    requires n < Pow256(width)
    ensures FromLE(LE(n, width)) == n
  {
    if width > 0 {
      LERoundTrip(n / 256, width - 1);
      assert LE(n, width)[1..] == LE(n / 256, width - 1);
    }
  }

  /** Byte `i` of an integer, counted from its least significant one. */
  lemma {:induction false} LEAt(n: nat, width: nat, i: nat)
    requires i < width
    ensures LE(n, width)[i] == n / Pow256(i) % 256
  {
    if i > 0 {
      LEAt(n / 256, width - 1, i - 1);
      ByteQuotient(n, Pow256(i - 1));
    }
  }

  /** Any bytes are those of the integer they are read as. */
  lemma {:induction false} LEOfFromLE(bs: seq<Byte>)
    ensures LE(FromLE(bs), |bs|) == bs
  {
    if bs != [] {
      var n, rest := FromLE(bs), FromLE(bs[1..]);
      LEOfFromLE(bs[1..]);
      assert n % 256 == bs[0] && n / 256 == rest;
      assert bs == [bs[0]] + bs[1..];
    }
  }

  lemma Widths()
    ensures Pow256(0) == 1 && Pow256(1) == 256 && Pow256(2) == 0x1_0000 && Pow256(4) == U32 && Pow256(8) == U64
    ensures U32 == 0x1_0000_0000 && U64 == 0x1_0000_0000_0000_0000
  {
    assert Pow256(3) == 0x100_0000;
    assert Pow256(5) == 0x100_0000_0000;
    assert Pow256(6) == 0x1_0000_0000_0000;
    assert Pow256(7) == 0x100_0000_0000_0000;
  }

  /** The 64-bit two's complement image of a time. */
  function TimeBits(t: Time): UInt64 {
    if t < 0 then t + U64 else t
  }

  function BitsTime(u: UInt64): Time {
    if u < 0x8000_0000_0000_0000 then u else u - U64
  }

  /** A time is stored modulo 2^64, which no two times share. */
  lemma TimeIsModular(t: Time)
    ensures TimeBits(t) == t % 0x1_0000_0000_0000_0000 && BitsTime(TimeBits(t)) == t
  {
  }

  lemma BitsOfTime(u: UInt64)
    ensures TimeBits(BitsTime(u)) == u
  {
  }

  // ---- Reading -------------------------------------------------------------

  /** `ReadItem` for an integer type of `width` bytes. */
  function ReadInt(buf: seq<Byte>, pos: nat, width: nat): (r: Option<nat>)
    ensures r.Some? <==> pos + width <= |buf|
    ensures r.Some? ==> r.value < Pow256(width)
  {
    if pos + width <= |buf| then Some(FromLE(buf[pos..pos + width])) else None
  }

  /** `memchr(buf + pos, 0, …)`: the first NUL at or after `pos`, or the end of the buffer. */
  function FindNul(buf: seq<Byte>, pos: nat): (i: nat)
    requires pos <= |buf|
    ensures pos <= i <= |buf|
    ensures forall k | pos <= k < i :: buf[k] != 0
    ensures i < |buf| ==> buf[i] == 0
    decreases |buf| - pos
  {
    if pos == |buf| || buf[pos] == 0 then pos else FindNul(buf, pos + 1)
  }

  /** `ReadItem` for a string: the bytes up to the next NUL, which is consumed too. */
  function ReadText(buf: seq<Byte>, pos: nat): (r: Option<Text>)
    ensures r.Some? ==> pos + |r.value| < |buf| && NulFree(r.value)
  {
    if pos >= |buf| then None
    else
      var i := FindNul(buf, pos);
      if i < |buf| then Some(buf[pos..i]) else None
  }

  predicate NulFree(s: Text) {
    forall i | 0 <= i < |s| :: s[i] != 0
  }

  /** `s` lies in `buf` at `pos`. */
  ghost predicate At(buf: seq<Byte>, pos: nat, s: seq<Byte>) {
    pos + |s| <= |buf| && forall i | 0 <= i < |s| :: buf[pos + i] == s[i]
  }

  lemma Assoc<T>(s: seq<T>, t: seq<T>, u: seq<T>)
    ensures s + t + u == s + (t + u)
  {
  }

  lemma AtFront(s: seq<Byte>, tail: seq<Byte>)
    ensures At(s + tail, 0, s)
  {
    assert forall i | 0 <= i < |s| :: (s + tail)[0 + i] == s[i];
  }

  lemma AtSplit(buf: seq<Byte>, pos: nat, s: seq<Byte>, t: seq<Byte>)
    requires At(buf, pos, s + t)
    ensures At(buf, pos, s) && At(buf, pos + |s|, t)
  {
    assert forall i | 0 <= i < |s| :: (s + t)[i] == s[i];
    forall i | 0 <= i < |t|
      ensures buf[pos + |s| + i] == t[i]
    {
      assert (s + t)[|s| + i] == t[i];
    }
  }

  lemma {:induction false} ReadPrintedInt(buf: seq<Byte>, pos: nat, n: nat, width: nat)
    requires n < Pow256(width) && At(buf, pos, LE(n, width))
    ensures ReadInt(buf, pos, width) == Some(n)
  {
    LERoundTrip(n, width);
    assert buf[pos..pos + width] == LE(n, width);
  }

  /** Text survives being written with its terminator, provided it holds no NUL itself. */
  lemma ReadPrintedText(buf: seq<Byte>, pos: nat, s: Text)
    requires NulFree(s) && At(buf, pos, s + [0])
    ensures ReadText(buf, pos) == Some(s)
  {
    AtSplit(buf, pos, s, [0]);
    assert buf[pos + |s|] == [0][0];
    assert forall k | pos <= k < pos + |s| :: buf[k] == s[k - pos];
    assert FindNul(buf, pos) == pos + |s|;
    assert buf[pos..pos + |s|] == s;
  }

  // ---- Reading does not depend on what follows -----------------------------

  lemma ReadIntStable(buf: seq<Byte>, tail: seq<Byte>, pos: nat, width: nat)
    requires ReadInt(buf, pos, width).Some?
    ensures ReadInt(buf + tail, pos, width) == ReadInt(buf, pos, width)
  {
    assert (buf + tail)[pos..pos + width] == buf[pos..pos + width];
  }

  lemma ReadTextStable(buf: seq<Byte>, tail: seq<Byte>, pos: nat)
    requires ReadText(buf, pos).Some?
    ensures ReadText(buf + tail, pos) == ReadText(buf, pos)
  {
    var i, j := FindNul(buf, pos), FindNul(buf + tail, pos);
    assert (buf + tail)[i] == 0;
    assert i == j;
    assert (buf + tail)[pos..i] == buf[pos..i];
  }
}
