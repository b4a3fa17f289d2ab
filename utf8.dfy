/**
 * UTF-8 as Go's `unicode/utf8` package and the string-to-`[]rune` conversion
 * use it: the encoding of a Unicode scalar value in one to four bytes
 * (section 3 of RFC 3629), the decoding of a byte string into code points
 * (an ill-formed sequence decodes to U+FFFD and consumes one byte), and the
 * prefix sums that map code-point positions to byte offsets.
 */
module Utf8 {

  type byte = x: int | 0 <= x < 256

  const RuneError: int := 0xFFFD
  const MaxRune: int := 0x10FFFF

  /** A Unicode scalar value: a code point that is not a surrogate. */
  predicate IsScalar(r: int) {
    0 <= r <= MaxRune && !(0xD800 <= r <= 0xDFFF)
  }

  predicate AllScalars(rs: seq<int>) {
    forall i | 0 <= i < |rs| :: IsScalar(rs[i])
  }

  /** A continuation byte 10xxxxxx. */
  predicate IsCont(b: byte) {
    0x80 <= b <= 0xBF
  }

  /** Go's utf8.RuneLen: the number of bytes that encode `r`, or -1. */
  function RuneLen(r: int): (n: int)
    ensures IsScalar(r) ==> 1 <= n <= 4
    ensures !IsScalar(r) ==> n == -1
    ensures n == 1 <==> 0 <= r < 0x80
  {
    if r < 0 then -1
    else if r < 0x80 then 1
    else if r < 0x800 then 2
    else if 0xD800 <= r <= 0xDFFF then -1
    else if r < 0x10000 then 3
    else if r <= MaxRune then 4
    else -1
  }

  /** The shortest encoding of a scalar value (table 3 of RFC 3629). */
  function EncodeRune(r: int): (bs: seq<byte>)
    requires IsScalar(r)
    ensures |bs| == RuneLen(r)
  {
    if r < 0x80 then [r]
    else if r < 0x800 then [0xC0 + r / 64, 0x80 + r % 64]
    else if r < 0x10000 then [0xE0 + r / 4096, 0x80 + (r / 64) % 64, 0x80 + r % 64]
    else [0xF0 + r / 262144, 0x80 + (r / 4096) % 64, 0x80 + (r / 64) % 64, 0x80 + r % 64]
  }

  /** One decoding step: the code point, the bytes it took, and whether the bytes were well formed. */
  datatype Step = Step(rune: int, size: nat, ok: bool)

  /**
   * Go's utf8.DecodeRune on a non-empty byte string. A lead byte is followed
   * by the continuation bytes its class asks for, the second of them in the
   * narrower range that rules out overlong forms, surrogates and values past
   * U+10FFFF; anything else yields (RuneError, 1).
   */
  function DecodeRune(b: seq<byte>): (d: Step)
    requires |b| > 0
    ensures 1 <= d.size <= |b| && d.size <= 4 && IsScalar(d.rune)
    ensures !d.ok ==> d == Step(RuneError, 1, false)
  {
    var b0: int := b[0];
    if b0 < 0x80 then Step(b0, 1, true)
    else if 0xC2 <= b0 <= 0xDF && |b| >= 2 && IsCont(b[1]) then
      Step((b0 - 0xC0) * 64 + (b[1] - 0x80), 2, true)
    else if 0xE0 <= b0 <= 0xEF && |b| >= 3 && SecondLo(b0) <= b[1] <= SecondHi(b0) && IsCont(b[2]) then
      Step(Rune3(b0, b[1], b[2]), 3, true)
    else if 0xF0 <= b0 <= 0xF4 && |b| >= 4 && SecondLo(b0) <= b[1] <= SecondHi(b0) && IsCont(b[2]) && IsCont(b[3]) then
      Step(Rune4(b0, b[1], b[2], b[3]), 4, true)
    else Step(RuneError, 1, false)
  }

  /** The least second byte accepted after lead byte `b0`. */
  function SecondLo(b0: int): int {
    if b0 == 0xE0 then 0xA0 else if b0 == 0xF0 then 0x90 else 0x80
  }

  /** The greatest second byte accepted after lead byte `b0`. */
  function SecondHi(b0: int): int {
    if b0 == 0xED then 0x9F else if b0 == 0xF4 then 0x8F else 0xBF
  }

  function Rune3(b0: int, b1: int, b2: int): int {
    (b0 - 0xE0) * 4096 + (b1 - 0x80) * 64 + (b2 - 0x80)
  }

  function Rune4(b0: int, b1: int, b2: int, b3: int): int {
    (b0 - 0xF0) * 262144 + (b1 - 0x80) * 4096 + (b2 - 0x80) * 64 + (b3 - 0x80)
  }

  /**
   * The code points decoded from byte position `p` to the end, left to right;
   * positions are used rather than suffixes so that every step is a plain
   * offset into the same bytes.
   */
  function DecodeFrom(b: seq<byte>, p: nat): (rs: seq<int>)
    requires p <= |b|
    ensures |rs| <= |b| - p
    ensures |rs| == 0 <==> p == |b|
    ensures AllScalars(rs)
    decreases |b| - p
  {
    if p == |b| then []
    else
      var d := DecodeRune(b[p..]);
      [d.rune] + DecodeFrom(b, p + d.size)
  }

  /** `[]rune(s)`: the code points of a byte string, left to right. */
  function Decode(b: seq<byte>): (rs: seq<int>)
    ensures |rs| <= |b|
    ensures |rs| == 0 <==> |b| == 0
    ensures AllScalars(rs)
  {
    DecodeFrom(b, 0)
  }

  /** Every decoding step from position `p` on succeeds. */
  predicate WellFormedFrom(b: seq<byte>, p: nat)
    requires p <= |b|
    decreases |b| - p
  {
    p == |b| || (DecodeRune(b[p..]).ok && WellFormedFrom(b, p + DecodeRune(b[p..]).size))
  }

  /** Well-formed UTF-8: every decoding step succeeds. */
  predicate WellFormed(b: seq<byte>) {
    WellFormedFrom(b, 0)
  }

  /** The UTF-8 encoding of a sequence of scalar values. */
  function Encode(rs: seq<int>): (b: seq<byte>)
    requires AllScalars(rs)
  {
    if rs == [] then [] else EncodeRune(rs[0]) + Encode(rs[1..])
  }

  /** The byte length of the encoding of `rs`: the sum of the RuneLen of its code points. */
  function Width(rs: seq<int>): (n: nat)
    requires AllScalars(rs)
  {
    if rs == [] then 0 else RuneLen(rs[0]) + Width(rs[1..])
  }

  lemma {:induction false} EncodeLength(rs: seq<int>)
    requires AllScalars(rs)
    ensures |Encode(rs)| == Width(rs)
  {
    if rs != [] {
      EncodeLength(rs[1..]);
    }
  }

  lemma {:induction false} WidthAppend(a: seq<int>, b: seq<int>)
    requires AllScalars(a) && AllScalars(b)
    ensures AllScalars(a + b)
    ensures Width(a + b) == Width(a) + Width(b)
  {
    if a == [] {
      assert a + b == b;
    } else {
      assert (a + b)[1..] == a[1..] + b;
      WidthAppend(a[1..], b);
    }
  }

  /** Appending one code point to a prefix adds its RuneLen to the byte width. */
  lemma WidthStep(rs: seq<int>, i: nat)
    requires AllScalars(rs) && i < |rs|
    ensures Width(rs[..i + 1]) == Width(rs[..i]) + RuneLen(rs[i])
  {
    assert rs[..i + 1] == rs[..i] + [rs[i]];
    WidthAppend(rs[..i], [rs[i]]);
  }

  /** The bit fields of a two-byte code point put back together. */
  lemma Fields2(r: int)
    requires 0x80 <= r < 0x800
    ensures 2 <= r / 64 <= 31 && (r / 64) * 64 + r % 64 == r
  {
  }

  lemma Fields3(r: int)
    requires 0x800 <= r < 0x10000
    ensures 0 <= r / 4096 <= 15
    ensures (r / 4096) * 4096 + ((r / 64) % 64) * 64 + r % 64 == r
  {
    assert r / 64 == (r / 4096) * 64 + (r / 64) % 64;
  }

  lemma Fields4(r: int)
    requires 0x10000 <= r <= MaxRune
    ensures 0 <= r / 262144 <= 4
    ensures (r / 262144) * 262144 + ((r / 4096) % 64) * 4096 + ((r / 64) % 64) * 64 + r % 64 == r
  {
    assert r / 4096 == (r / 262144) * 64 + (r / 4096) % 64;
    assert r / 64 == (r / 4096) * 64 + (r / 64) % 64;
  }

  lemma Unfields2(x: int, y: int)
    requires 0 <= y < 64
    ensures (x * 64 + y) / 64 == x && (x * 64 + y) % 64 == y
  {
  }

  lemma Unfields3(x: int, y: int, z: int)
    requires 0 <= y < 64 && 0 <= z < 64
    ensures (x * 4096 + y * 64 + z) / 4096 == x
    ensures ((x * 4096 + y * 64 + z) / 64) % 64 == y
    ensures (x * 4096 + y * 64 + z) % 64 == z
  {
    var r := x * 4096 + y * 64 + z;
    assert r == (x * 64 + y) * 64 + z;
    Unfields2(x * 64 + y, z);
    Unfields2(x, y);
  }

  lemma Unfields4(w: int, x: int, y: int, z: int)
    requires 0 <= x < 64 && 0 <= y < 64 && 0 <= z < 64
    ensures (w * 262144 + x * 4096 + y * 64 + z) / 262144 == w
    ensures ((w * 262144 + x * 4096 + y * 64 + z) / 4096) % 64 == x
    ensures ((w * 262144 + x * 4096 + y * 64 + z) / 64) % 64 == y
    ensures (w * 262144 + x * 4096 + y * 64 + z) % 64 == z
  {
    var r := w * 262144 + x * 4096 + y * 64 + z;
    assert r == ((w * 64 + x) * 64 + y) * 64 + z;
    Unfields2((w * 64 + x) * 64 + y, z);
    Unfields2(w * 64 + x, y);
    Unfields2(w, x);
  }

  /** Decoding the encoding of a scalar value gives it back, and the step is well formed. */
  lemma DecodeEncodeRune(r: int, rest: seq<byte>)
    requires IsScalar(r)
    ensures DecodeRune(EncodeRune(r) + rest) == Step(r, RuneLen(r), true)
  {
    var b := EncodeRune(r) + rest;
    if r < 0x80 {
      assert b[0] == r;
    } else if r < 0x800 {
      Encode2Fields(r);
      assert b[0] == 0xC0 + r / 64 && b[1] == 0x80 + r % 64;
    } else if r < 0x10000 {
      Encode3Fields(r);
      assert b[0] == 0xE0 + r / 4096 && b[1] == 0x80 + (r / 64) % 64 && b[2] == 0x80 + r % 64;
    } else {
      Encode4Fields(r);
      assert b[0] == 0xF0 + r / 262144 && b[1] == 0x80 + (r / 4096) % 64;
      assert b[2] == 0x80 + (r / 64) % 64 && b[3] == 0x80 + r % 64;
    }
  }

  /** The two bytes encoding `r` pass the decoder's checks and give `r` back. */
  lemma Encode2Fields(r: int)
    requires 0x80 <= r < 0x800
    ensures 0xC2 <= 0xC0 + r / 64 <= 0xDF && IsCont(0x80 + r % 64)
    ensures (r / 64) * 64 + r % 64 == r
  {
    Fields2(r);
  }

  lemma Encode3Fields(r: int)
    requires IsScalar(r) && 0x800 <= r < 0x10000
    ensures var b0, b1, b2 := 0xE0 + r / 4096, 0x80 + (r / 64) % 64, 0x80 + r % 64;
      && 0xE0 <= b0 <= 0xEF && SecondLo(b0) <= b1 <= SecondHi(b0) && IsCont(b2)
      && Rune3(b0, b1, b2) == r
  {
    Fields3(r);
    assert r / 64 == (r / 4096) * 64 + (r / 64) % 64;
  }

  lemma Encode4Fields(r: int)
    requires IsScalar(r) && 0x10000 <= r
    ensures var b0, b1, b2, b3 := 0xF0 + r / 262144, 0x80 + (r / 4096) % 64, 0x80 + (r / 64) % 64, 0x80 + r % 64;
      && 0xF0 <= b0 <= 0xF4 && SecondLo(b0) <= b1 <= SecondHi(b0) && IsCont(b2) && IsCont(b3)
      && Rune4(b0, b1, b2, b3) == r
  {
    Fields4(r);
    assert r / 4096 == (r / 262144) * 64 + (r / 4096) % 64;
  }

  /** A well-formed decoding step read exactly the encoding of the code point it returned. */
  lemma EncodeDecodeRune(b: seq<byte>)
    requires |b| > 0 && DecodeRune(b).ok
    ensures EncodeRune(DecodeRune(b).rune) == b[..DecodeRune(b).size]
  {
    var b0: int := b[0];
    if b0 < 0x80 {
      assert b[..1] == [b[0]];
    } else if b0 <= 0xDF {
      assert DecodeRune(b) == Step((b0 - 0xC0) * 64 + (b[1] - 0x80), 2, true);
      Decode2Fields(b[0], b[1]);
      assert b[..2] == [b[0], b[1]];
    } else if b0 <= 0xEF {
      assert DecodeRune(b) == Step(Rune3(b0, b[1], b[2]), 3, true);
      Decode3Fields(b[0], b[1], b[2]);
      assert b[..3] == [b[0], b[1], b[2]];
    } else {
      assert DecodeRune(b) == Step(Rune4(b0, b[1], b[2], b[3]), 4, true);
      Decode4Fields(b[0], b[1], b[2], b[3]);
      assert b[..4] == [b[0], b[1], b[2], b[3]];
    }
  }

  /** The code point a two-byte step accepts re-encodes to the same two bytes. */
  lemma Decode2Fields(b0: byte, b1: byte)
    requires 0xC2 <= b0 <= 0xDF && IsCont(b1)
    ensures var r := (b0 - 0xC0) * 64 + (b1 - 0x80);
      IsScalar(r) && EncodeRune(r) == [b0, b1]
  {
    var r := (b0 - 0xC0) * 64 + (b1 - 0x80);
    Unfields2(b0 - 0xC0, b1 - 0x80);
    assert 0x80 <= r < 0x800;
  }

  lemma Decode3Fields(b0: byte, b1: byte, b2: byte)
    requires 0xE0 <= b0 <= 0xEF && SecondLo(b0) <= b1 <= SecondHi(b0) && IsCont(b2)
    ensures var r := Rune3(b0, b1, b2);
      IsScalar(r) && EncodeRune(r) == [b0, b1, b2]
  {
    var x, y, z := b0 - 0xE0, b1 - 0x80, b2 - 0x80;
    var r := x * 4096 + y * 64 + z;
    assert 0 <= x < 16 && 0 <= y < 64 && 0 <= z < 64;
    assert x == 0 ==> y >= 0x20;
    assert x == 13 ==> y < 0x20;
    assert 0x800 <= r < 0x10000 && !(0xD800 <= r <= 0xDFFF);
    Unfields3(x, y, z);
    assert EncodeRune(r) == [0xE0 + r / 4096, 0x80 + (r / 64) % 64, 0x80 + r % 64];
  }

  lemma Decode4Fields(b0: byte, b1: byte, b2: byte, b3: byte)
    requires 0xF0 <= b0 <= 0xF4 && SecondLo(b0) <= b1 <= SecondHi(b0) && IsCont(b2) && IsCont(b3)
    ensures var r := Rune4(b0, b1, b2, b3);
      IsScalar(r) && EncodeRune(r) == [b0, b1, b2, b3]
  {
    var w, x, y, z := b0 - 0xF0, b1 - 0x80, b2 - 0x80, b3 - 0x80;
    var r := w * 262144 + x * 4096 + y * 64 + z;
    assert 0 <= w < 5 && 0 <= x < 64 && 0 <= y < 64 && 0 <= z < 64;
    assert w == 0 ==> x >= 0x10;
    assert w == 4 ==> x < 0x10;
    assert 0x10000 <= r <= MaxRune;
    Unfields4(w, x, y, z);
    assert EncodeRune(r) == [0xF0 + r / 262144, 0x80 + (r / 4096) % 64, 0x80 + (r / 64) % 64, 0x80 + r % 64];
  }

  lemma DropDrop(b: seq<byte>, p: nat, k: nat)
    requires p + k <= |b|
    ensures b[p..][k..] == b[p + k..]
  {
  }

  lemma TakeDrop(b: seq<byte>, x: nat, y: nat)
    requires x <= y <= |b|
    ensures b[x..y] == b[..y][x..]
  {
  }

  /** Decoding the encoding from where it starts gives the code points back, every step succeeding. */
  lemma {:induction false} DecodeEncodeFrom(b: seq<byte>, p: nat, rs: seq<int>)
    requires AllScalars(rs) && p <= |b| && b[p..] == Encode(rs)
    ensures DecodeFrom(b, p) == rs
    ensures WellFormedFrom(b, p)
    decreases rs
  {
    if rs != [] {
      var r, t := rs[0], rs[1..];
      var n := RuneLen(r);
      assert rs == [r] + t;
      EncodeCons(r, t);
      DecodeEncodeRune(r, Encode(t));
      assert DecodeRune(b[p..]) == Step(r, n, true);
      SplitAt(b, p, n);
      assert b[p + n..] == Encode(t);
      DecodeEncodeFrom(b, p + n, t);
      assert DecodeFrom(b, p) == [r] + DecodeFrom(b, p + n);
    }
  }

  /** Round trip one way: a sequence of scalar values survives encoding then decoding, and its encoding is well formed. */
  lemma DecodeEncode(rs: seq<int>)
    requires AllScalars(rs)
    ensures Decode(Encode(rs)) == rs
    ensures WellFormed(Encode(rs))
  {
    var b := Encode(rs);
    assert b[0..] == b;
    DecodeEncodeFrom(b, 0, rs);
  }

  lemma {:induction false} EncodeDecodeFrom(b: seq<byte>, p: nat)
    requires p <= |b| && WellFormedFrom(b, p)
    ensures Encode(DecodeFrom(b, p)) == b[p..]
    decreases |b| - p
  {
    if p < |b| {
      var d := DecodeRune(b[p..]);
      var t := DecodeFrom(b, p + d.size);
      assert DecodeFrom(b, p) == [d.rune] + t;
      EncodeDecodeRune(b[p..]);
      EncodeDecodeFrom(b, p + d.size);
      EncodeCons(d.rune, t);
      SplitAt(b, p, d.size);
    }
  }

  lemma EncodeCons(r: int, t: seq<int>)
    requires IsScalar(r) && AllScalars(t)
    ensures AllScalars([r] + t)
    ensures Encode([r] + t) == EncodeRune(r) + Encode(t)
  {
    var rs := [r] + t;
    assert rs[0] == r && rs[1..] == t;
  }

  lemma SplitAt(b: seq<byte>, p: nat, k: nat)
    requires p + k <= |b|
    ensures b[p..] == b[p..][..k] + b[p + k..]
  {
    DropDrop(b, p, k);
    assert b[p..] == b[p..][..k] + b[p..][k..];
  }

  /** Round trip the other way: well-formed UTF-8 is the encoding of its own decoding. */
  lemma EncodeDecode(b: seq<byte>)
    requires WellFormed(b)
    ensures Encode(Decode(b)) == b
  {
    assert b[0..] == b;
    EncodeDecodeFrom(b, 0);
  }

  /**
   * The byte position reached from position `p` after decoding `i` more code
   * points (or the end of `b`, if it comes first), each step taking the size
   * the decoder consumed: an invalid byte is one byte wide here.
   */
  function OffsetFrom(b: seq<byte>, p: nat, i: nat): (o: nat)
    requires p <= |b|
    ensures p <= o <= |b|
    decreases i
  {
    if i == 0 || p == |b| then p else OffsetFrom(b, p + DecodeRune(b[p..]).size, i - 1)
  }

  /** The byte offset at which code point `i` of Decode(b) starts; for `i == |Decode(b)|`, the length of `b`. */
  function Offset(b: seq<byte>, i: nat): (o: nat)
    ensures o <= |b|
  {
    OffsetFrom(b, 0, i)
  }

  /** Decoding `s + j` code points is decoding `s`, then `j` more. */
  lemma {:induction false} OffsetAdd(b: seq<byte>, p: nat, s: nat, j: nat)
    requires p <= |b|
    ensures OffsetFrom(b, p, s + j) == OffsetFrom(b, OffsetFrom(b, p, s), j)
    decreases s
  {
    if s > 0 && p < |b| {
      OffsetAdd(b, p + DecodeRune(b[p..]).size, s - 1, j);
    }
  }

  /** Skipping `i` code points from `p` leaves the rest of the decoding. */
  lemma {:induction false} OffsetDrop(b: seq<byte>, p: nat, i: nat)
    requires p <= |b| && i <= |DecodeFrom(b, p)|
    ensures DecodeFrom(b, OffsetFrom(b, p, i)) == DecodeFrom(b, p)[i..]
    decreases i
  {
    if i > 0 {
      var rs := DecodeFrom(b, p);
      var k := DecodeRune(b[p..]).size;
      OffsetDrop(b, p + k, i - 1);
      assert rs[i..] == rs[1..][i - 1..];
    }
  }

  /** Decoding every code point from `p` reaches the end of the bytes. */
  lemma {:induction false} OffsetEndFrom(b: seq<byte>, p: nat)
    requires p <= |b|
    ensures OffsetFrom(b, p, |DecodeFrom(b, p)|) == |b|
    decreases |b| - p
  {
    if p < |b| {
      OffsetEndFrom(b, p + DecodeRune(b[p..]).size);
    }
  }

  /** The last offset is the end of the bytes. */
  lemma OffsetEnd(b: seq<byte>)
    ensures Offset(b, |Decode(b)|) == |b|
  {
    OffsetEndFrom(b, 0);
  }

  /** One more code point advances the offset by the size the decoder consumes there. */
  lemma OffsetStep(b: seq<byte>, i: nat)
    requires i < |Decode(b)|
    ensures Offset(b, i) < |b|
    ensures Offset(b, i + 1) == Offset(b, i) + DecodeRune(b[Offset(b, i)..]).size
  {
    OffsetDrop(b, 0, i);
    OffsetAdd(b, 0, i, 1);
  }

  /** Offsets strictly increase with the code-point index. */
  lemma OffsetMonotone(b: seq<byte>, i: nat, j: nat)
    requires i < j <= |Decode(b)|
    ensures Offset(b, i) < Offset(b, j)
  {
    OffsetStep(b, i);
    OffsetAdd(b, 0, i + 1, j - i - 1);
  }

  /**
   * The decoder looks no further than the bytes it consumes: cutting the
   * input after them does not change the step.
   */
  lemma DecodeRunePrefix(x: seq<byte>, n: nat)
    requires 1 <= n <= |x| && DecodeRune(x).size <= n
    ensures DecodeRune(x[..n]) == DecodeRune(x)
  {
    var y := x[..n];
    assert y[0] == x[0];
    if n >= 2 { assert y[1] == x[1]; }
    if n >= 3 { assert y[2] == x[2]; }
    if n >= 4 { assert y[3] == x[3]; }
  }

  /** Decoding bytes that start at position `x` of `b` is decoding `b` from there. */
  lemma {:induction false} DecodeShift(b: seq<byte>, x: nat, p: nat)
    requires x + p <= |b|
    ensures DecodeFrom(b[x..], p) == DecodeFrom(b, x + p)
    decreases |b| - x - p
  {
    if x + p < |b| {
      DropDrop(b, x, p);
      DecodeShift(b, x, p + DecodeRune(b[x + p..]).size);
    }
  }

  /** Cutting the bytes at the offset `i` code points after `p` leaves those `i` code points to decode from `p`. */
  lemma {:induction false} DecodeTruncate(b: seq<byte>, p: nat, i: nat)
    requires p <= |b| && i <= |DecodeFrom(b, p)|
    ensures DecodeFrom(b[..OffsetFrom(b, p, i)], p) == DecodeFrom(b, p)[..i]
    decreases i
  {
    if i == 0 {
      assert |b[..p]| == p;
    } else {
      var q := OffsetFrom(b, p, i);
      var d := DecodeRune(b[p..]);
      var rs := DecodeFrom(b, p);
      assert q == OffsetFrom(b, p + d.size, i - 1);
      var t := DecodeFrom(b, p + d.size);
      TruncateStep(b, p, q);
      DecodeTruncate(b, p + d.size, i - 1);
      assert rs == [d.rune] + t;
      ConsTake(d.rune, t, i);
    }
  }

  lemma ConsTake(r: int, t: seq<int>, i: nat)
    requires 0 < i <= |t| + 1
    ensures ([r] + t)[..i] == [r] + t[..i - 1]
  {
  }

  /** The first step from `p` is the same in `b` and in `b` cut at `q`, when the step ends by `q`. */
  lemma TruncateStep(b: seq<byte>, p: nat, q: nat)
    requires p < q <= |b| && DecodeRune(b[p..]).size <= q - p
    ensures var d := DecodeRune(b[p..]);
      DecodeFrom(b[..q], p) == [d.rune] + DecodeFrom(b[..q], p + d.size)
  {
    assert b[..q][p..] == b[p..][..q - p];
    DecodeRunePrefix(b[p..], q - p);
  }

  /**
   * The bytes between two code-point offsets decode to the code points
   * between them, whether or not `b` is well formed.
   */
  lemma DecodeSlice(b: seq<byte>, s: nat, e: nat)
    requires s <= e <= |Decode(b)|
    ensures Offset(b, s) <= Offset(b, e) <= |b|
    ensures Decode(b[Offset(b, s)..Offset(b, e)]) == Decode(b)[s..e]
  {
    OffsetAdd(b, 0, s, e - s);
    SliceFromOffsets(b, s, e, Offset(b, s), Offset(b, e));
    DecodeCut(b, Offset(b, s), Offset(b, e));
  }

  /** Decoding a slice of `b` is decoding `b` cut at the slice's end, from the slice's start. */
  lemma DecodeCut(b: seq<byte>, x: nat, y: nat)
    requires x <= y <= |b|
    ensures Decode(b[x..y]) == DecodeFrom(b[..y], x)
  {
    TakeDrop(b, x, y);
    DecodeShift(b[..y], x, 0);
  }

  lemma DropTake(rs: seq<int>, s: nat, e: nat)
    requires s <= e <= |rs|
    ensures rs[s..][..e - s] == rs[s..e]
  {
  }

  lemma SliceFromOffsets(b: seq<byte>, s: nat, e: nat, x: nat, y: nat)
    requires s <= e <= |Decode(b)| && x == Offset(b, s) && y == OffsetFrom(b, x, e - s)
    ensures x <= y
    ensures DecodeFrom(b[..y], x) == Decode(b)[s..e]
  {
    OffsetDrop(b, 0, s);
    DecodeTruncate(b, x, e - s);
    DropTake(Decode(b), s, e);
  }

  /** A well-formed step consumes exactly the RuneLen of the code point it returns. */
  lemma DecodeRuneLen(b: seq<byte>)
    requires |b| > 0 && DecodeRune(b).ok
    ensures RuneLen(DecodeRune(b).rune) == DecodeRune(b).size
  {
    EncodeDecodeRune(b);
  }

  lemma WidthCons(rs: seq<int>, i: nat)
    requires AllScalars(rs) && 0 < i <= |rs|
    ensures Width(rs[..i]) == RuneLen(rs[0]) + Width(rs[1..][..i - 1])
  {
    assert rs[..i][0] == rs[0];
    assert rs[..i][1..] == rs[1..][..i - 1];
  }

  /** Well-formedness holds from every offset on. */
  lemma {:induction false} WellFormedOffset(b: seq<byte>, p: nat, i: nat)
    requires p <= |b| && WellFormedFrom(b, p)
    ensures WellFormedFrom(b, OffsetFrom(b, p, i))
    decreases i
  {
    if i > 0 && p < |b| {
      WellFormedOffset(b, p + DecodeRune(b[p..]).size, i - 1);
    }
  }

  /** On well-formed UTF-8 the decoder's offsets are the encoded widths of the code points before them. */
  lemma {:induction false} OffsetWidth(b: seq<byte>, i: nat)
    requires WellFormed(b) && i <= |Decode(b)|
    ensures Offset(b, i) == Width(Decode(b)[..i])
    decreases i
  {
    if i > 0 {
      var rs := Decode(b);
      var o := Offset(b, i - 1);
      OffsetWidth(b, i - 1);
      OffsetStep(b, i - 1);
      OffsetDrop(b, 0, i - 1);
      WellFormedOffset(b, 0, i - 1);
      assert DecodeFrom(b, o)[0] == rs[i - 1];
      DecodeRuneLen(b[o..]);
      WidthStep(rs, i - 1);
    }
  }
}
