/** Numbers on the wire as nanopb reads and writes them (pb_encode.c, pb_decode.c).

    Varints, fixed integers and length prefixes are those of module Coding; this module adds
    the signed forms, the casts to the field size, keys, and skipping. */
module PbWire {
  import opened Wrappers
  import opened Coding

  const TWO_63 := 0x8000_0000_0000_0000

  // Wire types
  const WT_VARINT := 0
  const WT_64BIT := 1
  const WT_STRING := 2
  const WT_32BIT := 5

  /** `(uint64_t)value` and back. */
  function Unsigned64(n: int): int {
    if n < 0 then n + TWO_64 else n
  }

  function Signed64(u: nat): int {
    if u >= TWO_63 then u - TWO_64 else u
  }

  /** `(int32_t)value`: the low 32 bits, as a signed number. */
  function Signed32(u: nat): int {
    var low := u % TWO_32;
    if low >= TWO_31 then low - TWO_32 else low
  }

  function ZigZag(n: int): nat {
    if n < 0 then -2 * n - 1 else 2 * n
  }

  function UnZigZag(u: nat): int {
    if u % 2 == 1 then -(u / 2) - 1 else u / 2
  }

  /** What fits a signed or unsigned field of `size` bytes. */
  predicate FitsSigned(n: int, size: nat) {
    || (size == 1 && -0x80 <= n < 0x80)
    || (size == 2 && -0x8000 <= n < 0x8000)
    || (size == 4 && -TWO_31 <= n < TWO_31)
    || (size == 8 && -TWO_63 <= n < TWO_63)
  }

  predicate FitsUnsigned(n: int, size: nat) {
    || (size == 1 && 0 <= n < 0x100)
    || (size == 2 && 0 <= n < 0x1_0000)
    || (size == 4 && 0 <= n < TWO_32)
    || (size == 8 && 0 <= n < TWO_64)
  }

  /** A number is doubled in 64 bits, and a negative one complemented. */
  lemma ZigZagExact(n: int)
    requires FitsSigned(n, 8)
    ensures ZigZag(n) == if n < 0 then TWO_64 - 1 - (2 * (n + TWO_64)) % TWO_64 else 2 * n
  {
    if n < 0 {
      assert 2 * (n + TWO_64) == TWO_64 + (2 * n + TWO_64) && 0 <= 2 * n + TWO_64 < TWO_64;
    }
  }

  lemma ZigZagRoundTrip(n: int)
    requires FitsSigned(n, 8)
    ensures ZigZag(n) < TWO_64 && UnZigZag(ZigZag(n)) == n
  {
    var m := if n < 0 then -n - 1 else n;
    assert (2 * m) % 2 == 0 && (2 * m) / 2 == m && (2 * m + 1) % 2 == 1 && (2 * m + 1) / 2 == m;
  }

  /** A negative number of a narrow field is written with 64 bits and read with 32. */
  lemma SignedRoundTrip(n: int, size: nat)
    requires FitsSigned(n, size)
    ensures 0 <= Unsigned64(n) < TWO_64
    ensures (if size == 8 then Signed64(Unsigned64(n)) else Signed32(Unsigned64(n))) == n
  {
    if n < 0 && size != 8 {
      assert Unsigned64(n) == (TWO_32 - 1) * TWO_32 + (n + TWO_32);
      assert Unsigned64(n) % TWO_32 == n + TWO_32;
    }
  }

  // ---------------------------------------------------------------------- reading

  function Pow2(n: nat): (r: nat)
    ensures r > 0
  {
    if n == 0 then 1 else 2 * Pow2(n - 1)
  }

  /** `a | b`. */
  function BitOr(a: nat, b: nat): nat {
    if a == 0 then b else (if a % 2 == 1 || b % 2 == 1 then 1 else 0) + 2 * BitOr(a / 2, b / 2)
  }

  lemma {:induction false} OrBounded(a: nat, b: nat, k: nat)
    requires a < Pow2(k) && b < Pow2(k)
    ensures BitOr(a, b) < Pow2(k)
  {
    if a > 0 {
      OrBounded(a / 2, b / 2, k - 1);
    }
  }

  /** Bits that do not meet are added. */
  lemma {:induction false} OrDisjoint(a: nat, d: nat, k: nat)
    requires a < Pow2(k)
    ensures BitOr(a, d * Pow2(k)) == a + d * Pow2(k)
  {
    if a > 0 {
      OrDisjoint(a / 2, d, k - 1);
      assert d * Pow2(k) == 2 * (d * Pow2(k - 1));
    }
  }

  /** `(uint32_t)d << bitpos`. */
  function Shifted(d: nat, bitpos: nat): nat {
    d * Pow2(bitpos) % TWO_32
  }

  /** The byte may not stand at a bit position from 32 on: it is neither zero nor the sign of a
      negative number. */
  predicate Overflows(byte: Byte, result: nat, bitpos: nat) {
    bitpos >= 32 && byte % 128 != 0 && (result < TWO_31 || byte != if bitpos < 63 then 255 else 1)
  }

  function Take7(byte: Byte, result: nat, bitpos: nat): nat {
    if bitpos >= 32 then result else BitOr(result, Shifted(byte % 128, bitpos))
  }

  /** `bitpos` has eight bits. */
  function NextPos(bitpos: nat): nat {
    (bitpos + 7) % 256
  }

  /** The loop of `pb_decode_varint32_eof`. */
  function UInt32Loop(input: Bytes, result: nat, bitpos: nat): (r: Option<(nat, Bytes)>)
    ensures r.Some? ==> |r.value.1| < |input|
  {
    if input == [] || Overflows(input[0], result, bitpos) then None
    else
      var result', bitpos' := Take7(input[0], result, bitpos), NextPos(bitpos);
      if input[0] >= 128 then UInt32Loop(input[1..], result', bitpos')
      else if bitpos' == 35 && input[0] >= 16 then None
      else Some((result', input[1..]))
  }

  /** `pb_decode_varint32`. */
  function GetUInt32(input: Bytes): (r: Option<(nat, Bytes)>)
    ensures r.Some? ==> |r.value.1| < |input| && r.value.0 < TWO_32
  {
    if input == [] then None
    else if input[0] < 128 then Some((input[0], input[1..]))
    else
      LoopBounded(input[1..], input[0] - 128, 7);
      UInt32Loop(input[1..], input[0] - 128, 7)
  }

  lemma Pow2Is32()
    ensures Pow2(32) == TWO_32 && Pow2(28) == 0x1000_0000 && Pow2(21) == 0x20_0000 && Pow2(14) == 0x4000 && Pow2(7) == 0x80
  {
    assert Pow2(4) == 16;
    assert Pow2(7) == 8 * Pow2(4);
    assert Pow2(11) == 16 * Pow2(7);
    assert Pow2(14) == 8 * Pow2(11);
    assert Pow2(18) == 16 * Pow2(14);
    assert Pow2(21) == 8 * Pow2(18);
    assert Pow2(25) == 16 * Pow2(21);
    assert Pow2(28) == 8 * Pow2(25);
    assert Pow2(32) == 16 * Pow2(28);
  }

  lemma {:induction false} LoopBounded(input: Bytes, result: nat, bitpos: nat)
    requires result < TWO_32
    ensures var r := UInt32Loop(input, result, bitpos); r.Some? ==> r.value.0 < TWO_32
  {
    hide Pow2, BitOr, Overflows;
    if input != [] {
      Pow2Is32();
      OrBounded(result, Shifted(input[0] % 128, bitpos), 32);
      LoopBounded(input[1..], Take7(input[0], result, bitpos), NextPos(bitpos));
    }
  }

  /** Up to five bytes, the varint is read if and only if it fits 32 bits. */
  lemma UInt32Exact(input: Bytes)
    requires ReadVarint(input, 5).Some?
    ensures var (v, n) := ReadVarint(input, 5).value;
            n <= |input| && GetUInt32(input) == if v < TWO_32 then Some((v, input[n..])) else None
  {
    hide UInt32Loop, Pow2;
    ReadVarintLength(input, 5);
    if input[0] >= 128 {
      Pow2Is32();
      ReadVarintLength(input[1..], 4);
      LoopExact(input[1..], input[0] - 128, 1);
      var (v, n) := ReadVarint(input[1..], 4).value;
      assert input[1..][n..] == input[n + 1..];
    }
  }

  lemma {:induction false} LoopExact(input: Bytes, result: nat, j: nat)
    requires 1 <= j <= 4 && result < Pow2(7 * j) && ReadVarint(input, 5 - j).Some?
    ensures var (v, n) := ReadVarint(input, 5 - j).value;
            var w: nat := result + v * Pow2(7 * j);
            n <= |input| && UInt32Loop(input, result, 7 * j) == if w < TWO_32 then Some((w, input[n..])) else None
    decreases 5 - j
  {
    hide Pow2, UInt32Loop;
    ReadVarintLength(input, 5 - j);
    if j == 4 {
      Pow2Is32();
      LastByte(input, result);
    } else {
      OneByte(input, result, j);
      if input[0] >= 128 {
        var low, p := input[0] - 128, Pow2(7 * j);
        LoopExact(input[1..], result + low * p, j + 1);
        var (v, n) := ReadVarint(input[1..], 4 - j).value;
        assert input[1..][n..] == input[n + 1..];
        Regroup(result, low, v, p);
      }
    }
  }

  lemma Regroup(result: nat, low: nat, v: nat, p: nat)
    ensures result + (low + 128 * v) * p == (result + low * p) + v * (128 * p)
  {
  }

  /** One of the first four bytes after the first adds seven bits. */
  lemma OneByte(input: Bytes, result: nat, j: nat)
    requires 1 <= j < 4 && input != [] && result < Pow2(7 * j)
    ensures Pow2(7 * (j + 1)) == 128 * Pow2(7 * j)
    ensures var w: nat := result + input[0] % 128 * Pow2(7 * j);
            && w < Pow2(7 * (j + 1)) <= TWO_32
            && UInt32Loop(input, result, 7 * j) == if input[0] >= 128 then UInt32Loop(input[1..], w, 7 * (j + 1)) else Some((w, input[1..]))
  {
    hide Pow2, BitOr;
    Pow2Is32();
    OrDisjoint(result, input[0] % 128, 7 * j);
    if j == 1 {
      SmallShift(input[0] % 128, 7);
    } else if j == 2 {
      SmallShift(input[0] % 128, 14);
    } else {
      SmallShift(input[0] % 128, 21);
    }
  }

  lemma SmallShift(low: nat, k: nat)
    requires low < 128 && Pow2(k) <= 0x20_0000
    ensures Shifted(low, k) == low * Pow2(k)
  {
    assert low * Pow2(k) < TWO_32;
  }

  /** Of the fifth byte four bits fit. */
  lemma LastByte(input: Bytes, result: nat)
    requires input != [] && input[0] < 128 && result < 0x1000_0000
    ensures var byte: nat := input[0];
            var w: nat := result + byte * 0x1000_0000;
            UInt32Loop(input, result, 28) == if w < TWO_32 then Some((w, input[1..])) else None
  {
    hide Pow2, BitOr;
    Pow2Is32();
    OrDisjoint(result, input[0], 28);
  }

  /** `pb_decode_varint`: up to ten bytes, cut to 64 bits. */
  function GetUInt64(input: Bytes): (r: Option<(nat, Bytes)>)
    ensures r.Some? ==> |r.value.1| < |input|
  {
    ReadVarintLength(input, 10);
    GetVarint64(input)
  }

  lemma UInt32RoundTrip(v: nat, rest: Bytes)
    requires v < TWO_32
    ensures GetUInt32(PutVarint(v) + rest) == Some((v, rest))
  {
    hide GetUInt32;
    VarintLimits();
    VarintRoundTrip(v, rest, 5);
    UInt32Exact(PutVarint(v) + rest);
    assert (PutVarint(v) + rest)[|PutVarint(v)|..] == rest;
  }

  // Longer varints: a negative number that was written with 64 bits is read back, and some
  // numbers are accepted that do not fit.

  /** A negative 32-bit number, written with 64 bits, is read as its low 32 bits. */
  lemma NegativeAccepted(m: nat, rest: Bytes)
    requires 0 < m <= TWO_31
    ensures GetUInt32(PutVarint(TWO_64 - m) + rest) == Some((TWO_32 - m, rest))
  {
    hide PutVarint, UInt32Loop, Pow2;
    var u0 := TWO_64 - m;
    var u1, u2, u3 := u0 / 128, u0 / 128 / 128, u0 / 128 / 128 / 128;
    var w := u3 / 128;
    Pow2Is32();
    FirstByte(u0, rest);
    NextByte(u1, u0 % 128, 1, rest);
    NextByte(u2, u0 % 128 + u1 % 128 * 0x80, 2, rest);
    NextByte(u3, u0 % 128 + u1 % 128 * 0x80 + u2 % 128 * 0x4000, 3, rest);
    SignBytes(w, u0 % 128 + u1 % 128 * 0x80 + u2 % 128 * 0x4000 + u3 % 128 * 0x20_0000, rest);
  }

  lemma FirstByte(u: nat, rest: Bytes)
    requires u >= 128
    ensures GetUInt32(PutVarint(u) + rest) == UInt32Loop(PutVarint(u / 128) + rest, u % 128, 7)
  {
    MoreBytes(u, rest);
  }

  lemma MoreBytes(u: nat, rest: Bytes)
    requires u >= 128
    ensures var input := PutVarint(u) + rest; input[0] == u % 128 + 128 && input[1..] == PutVarint(u / 128) + rest
  {
    assert ([u % 128 + 128] + PutVarint(u / 128) + rest)[1..] == PutVarint(u / 128) + rest;
  }

  lemma NextByte(u: nat, result: nat, j: nat, rest: Bytes)
    requires 1 <= j < 4 && u >= 128 && result < Pow2(7 * j)
    ensures var w: nat := result + u % 128 * Pow2(7 * j);
            w < Pow2(7 * (j + 1)) && UInt32Loop(PutVarint(u) + rest, result, 7 * j) == UInt32Loop(PutVarint(u / 128) + rest, w, 7 * (j + 1))
  {
    hide PutVarint, UInt32Loop, Pow2;
    MoreBytes(u, rest);
    OneByte(PutVarint(u) + rest, result, j);
  }

  /** From bit 28 on: four bits of the number, then its sign. */
  lemma SignBytes(w: nat, result: nat, rest: Bytes)
    requires 0xF_FFFF_FFF8 <= w < 0x10_0000_0000 && result < Pow2(28)
    ensures UInt32Loop(PutVarint(w) + rest, result, 28) == Some((result + w % 16 * Pow2(28), rest))
  {
    hide PutVarint, Pow2, BitOr, UInt32Loop;
    Pow2Is32();
    var low := w % 128;
    assert w / 128 == 0x1FFF_FFFF && low >= 120 && low % 16 == w % 16 >= 8;
    MoreBytes(w, rest);
    TopBits(low, result);
    LoopStep(PutVarint(w) + rest, result, 28);
    SignTail(result + w % 16 * Pow2(28), rest);
  }

  lemma LoopStep(input: Bytes, result: nat, bitpos: nat)
    requires input != [] && input[0] >= 128 && !Overflows(input[0], result, bitpos)
    ensures UInt32Loop(input, result, bitpos) == UInt32Loop(input[1..], Take7(input[0], result, bitpos), NextPos(bitpos))
  {
  }

  lemma TopBits(low: nat, result: nat)
    requires low < 128 && result < Pow2(28)
    ensures BitOr(result, Shifted(low, 28)) == result + low % 16 * Pow2(28)
  {
    hide Pow2, BitOr;
    Pow2Is32();
    OrDisjoint(result, low % 16, 28);
    assert low == low / 16 * 16 + low % 16;
    assert low * Pow2(28) == low / 16 * TWO_32 + low % 16 * Pow2(28);
  }

  /** Four bytes 0xff and one 0x01. */
  lemma SignTail(result: nat, rest: Bytes)
    requires TWO_31 <= result < TWO_32
    ensures UInt32Loop(PutVarint(0x1FFF_FFFF) + rest, result, 35) == Some((result, rest))
  {
    hide PutVarint, UInt32Loop, Pow2, BitOr;
    SignByte(0x1FFF_FFFF, result, 35, rest);
    SignByte(0x3F_FFFF, result, 42, rest);
    SignByte(0x7FFF, result, 49, rest);
    SignByte(0xFF, result, 56, rest);
    LastSign(result, rest);
  }

  lemma SignByte(u: nat, result: nat, bitpos: nat, rest: Bytes)
    requires u >= 128 && u % 128 == 127 && TWO_31 <= result && 32 <= bitpos < 63
    ensures UInt32Loop(PutVarint(u) + rest, result, bitpos) == UInt32Loop(PutVarint(u / 128) + rest, result, bitpos + 7)
  {
    hide PutVarint, UInt32Loop;
    MoreBytes(u, rest);
    LoopStep(PutVarint(u) + rest, result, bitpos);
  }

  lemma LastSign(result: nat, rest: Bytes)
    requires TWO_31 <= result < TWO_32
    ensures UInt32Loop(PutVarint(1) + rest, result, 63) == Some((result, rest))
  {
    assert PutVarint(1) + rest == [1] + rest && ([1] + rest)[1..] == rest;
  }

  /** Six bytes for 2^35 - 1 are accepted, as 2^32 - 1: the bits above 32 are only looked at if
      the varint ends there. */
  lemma OverflowAccepted(rest: Bytes)
    ensures GetUInt32([255, 255, 255, 255, 255, 0] + rest) == Some((TWO_32 - 1, rest))
    ensures ReadVarint([255, 255, 255, 255, 255, 0] + rest, 10) == Some((0x7_FFFF_FFFF, 6))
  {
    hide Pow2, BitOr, UInt32Loop;
    Pow2Is32();
    var end := [0] + rest;
    var all: Bytes := [255, 255, 255, 255, 255] + end;
    assert all == [255, 255, 255, 255, 255, 0] + rest;
    assert all[1..] == [255, 255, 255, 255] + end && all[1..][1..] == [255, 255, 255] + end;
    assert all[1..][1..][1..] == [255, 255] + end && all[1..][1..][1..][1..] == [255] + end && ([255] + end)[1..] == end;
    assert end[1..] == rest;
    OneByte(all[1..], 127, 1);
    OneByte(all[1..][1..], 0x3FFF, 2);
    OneByte(all[1..][1..][1..], 0x1F_FFFF, 3);
    TopBits(127, 0xFFF_FFFF);
    LoopStep([255] + end, 0xFFF_FFFF, 28);
    LastZero(end, TWO_32 - 1, rest);
    assert ReadVarint(end, 5) == Some((0, 1));
    assert ReadVarint([255] + end, 6) == Some((127, 2));
    assert ReadVarint([255, 255] + end, 7) == Some((0x3FFF, 3));
    assert ReadVarint([255, 255, 255] + end, 8) == Some((0x1F_FFFF, 4));
    assert ReadVarint([255, 255, 255, 255] + end, 9) == Some((0xFFF_FFFF, 5));
  }

  lemma LastZero(end: Bytes, result: nat, rest: Bytes)
    requires end == [0] + rest
    ensures UInt32Loop(end, result, 35) == Some((result, rest))
  {
    assert end[1..] == rest;
  }

  lemma {:induction false} PaddingSkipped(n: nat, bitpos: nat, tail: Bytes)
    requires bitpos < 256
    ensures UInt32Loop(Padding(n) + tail, 0, bitpos) == UInt32Loop(tail, 0, (bitpos + 7 * n) % 256)
    decreases n
  {
    hide Pow2, UInt32Loop, NextPos, Take7;
    if n > 0 {
      var input := Padding(n) + tail;
      assert input[1..] == Padding(n - 1) + tail;
      LoopStep(input, 0, bitpos);
      NothingTaken(input[0], bitpos);
      PositionAfter(n, bitpos);
      PaddingSkipped(n - 1, NextPos(bitpos), tail);
    } else {
      assert Padding(0) + tail == tail;
    }
  }

  lemma PositionAfter(n: nat, bitpos: nat)
    requires n > 0
    ensures NextPos(bitpos) < 256 && (NextPos(bitpos) + 7 * (n - 1)) % 256 == (bitpos + 7 * n) % 256
  {
    var m: nat := NextPos(bitpos) + 7 * (n - 1);
    Remainder(bitpos + 7 * n, (bitpos + 7) / 256 + m / 256, m % 256);
  }

  lemma Remainder(x: nat, q: nat, r: nat)
    requires x == 256 * q + r && r < 256
    ensures x % 256 == r
  {
  }

  lemma NothingTaken(byte: Byte, bitpos: nat)
    requires byte == 128
    ensures Take7(byte, 0, bitpos) == 0
  {
  }

  function Padding(n: nat): (r: Bytes)
    ensures |r| == n
  {
    if n == 0 then [] else [128] + Padding(n - 1)
  }

  /** A varint of 38 bytes is read as 8: the bit position has come round to 3. */
  lemma PositionWraps(rest: Bytes)
    ensures GetUInt32(Padding(37) + ([1] + rest)) == Some((8, rest))
  {
    hide Pow2, UInt32Loop, BitOr;
    var tail := [1] + rest;
    var input := Padding(37) + tail;
    assert input[0] == 128 && input[1..] == Padding(36) + tail;
    PaddingSkipped(36, 7, tail);
    AtThree(rest);
  }

  lemma AtThree(rest: Bytes)
    ensures UInt32Loop([1] + rest, 0, 3) == Some((8, rest))
  {
    assert Pow2(3) == 8 && ([1] + rest)[1..] == rest;
  }

  function GetFixed(input: Bytes, n: nat): (r: Option<(nat, Bytes)>)
    ensures r.Some? ==> |r.value.1| <= |input|
  {
    if |input| < n then None else Some((DecodeFixed(input[..n]), input[n..]))
  }

  lemma GetFixedRoundTrip(v: nat, n: nat, rest: Bytes)
    requires v < Power256(n)
    ensures GetFixed(EncodeFixed(v, n) + rest, n) == Some((v, rest))
  {
    var bs := EncodeFixed(v, n) + rest;
    assert bs[..n] == EncodeFixed(v, n) && bs[n..] == rest;
    FixedRoundTrip(v, n);
  }

  /** A length and that many bytes: `pb_make_string_substream`, and strings. */
  function GetBlob(input: Bytes): (r: Option<(Bytes, Bytes)>)
    ensures r.Some? ==> |r.value.0| + |r.value.1| < |input|
  {
    match GetUInt32(input)
    case None => None
    case Some((size, rest)) => if |rest| < size then None else Some((rest[..size], rest[size..]))
  }

  lemma BlobRoundTrip(b: Bytes, rest: Bytes)
    requires |b| < TWO_32
    ensures GetBlob(PutLengthPrefixed(b) + rest) == Some((b, rest))
  {
    ConcatAssoc(PutVarint(|b|), b, rest);
    UInt32RoundTrip(|b|, b + rest);
    assert (b + rest)[..|b|] == b && (b + rest)[|b|..] == rest;
  }

  function Key(tag: nat, wireType: nat): Bytes {
    PutVarint(8 * tag + wireType)
  }

  datatype TagRead = Bad | Eof | Tag(wireType: nat, tag: nat, rest: Bytes)

  /** `pb_decode_tag`: a zero ends the message. */
  function ReadTag(input: Bytes): (r: TagRead)
    ensures r.Tag? ==> |r.rest| < |input|
  {
    match GetUInt32(input)
    case None => Bad
    case Some((key, rest)) => if key == 0 then Eof else Tag(key % 8, key / 8, rest)
  }

  lemma KeyRoundTrip(tag: nat, wireType: nat, rest: Bytes)
    requires 0 < tag < 0x2000_0000 && wireType < 8
    ensures ReadTag(Key(tag, wireType) + rest) == Tag(wireType, tag, rest)
  {
    UInt32RoundTrip(8 * tag + wireType, rest);
  }

  /** `pb_skip_varint`: no limit on the length. */
  function SkipVarint(input: Bytes): (r: Option<Bytes>)
    ensures r.Some? ==> |r.value| < |input|
  {
    if input == [] then None else if input[0] < 128 then Some(input[1..]) else SkipVarint(input[1..])
  }

  /** `pb_skip_field`. */
  function SkipField(wireType: nat, input: Bytes): (r: Option<Bytes>)
    ensures r.Some? ==> |r.value| <= |input|
  {
    if wireType == WT_VARINT then SkipVarint(input)
    else if wireType == WT_64BIT then (if |input| < 8 then None else Some(input[8..]))
    else if wireType == WT_STRING then (match GetBlob(input) case None => None case Some((_, rest)) => Some(rest))
    else if wireType == WT_32BIT then (if |input| < 4 then None else Some(input[4..]))
    else None
  }

  // --------------------------------------- what follows does not matter to a reader

  lemma {:induction false} ReadVarintMore(input: Bytes, more: Bytes, max: nat)
    requires ReadVarint(input, max).Some?
    ensures ReadVarint(input + more, max) == ReadVarint(input, max)
  {
    if input[0] >= 128 {
      ReadVarintMore(input[1..], more, max - 1);
      assert (input + more)[1..] == input[1..] + more;
    }
  }

  lemma {:induction false} LoopMore(input: Bytes, more: Bytes, result: nat, bitpos: nat)
    requires UInt32Loop(input, result, bitpos).Some?
    ensures var (v, rest) := UInt32Loop(input, result, bitpos).value; UInt32Loop(input + more, result, bitpos) == Some((v, rest + more))
  {
    hide Overflows, Take7, NextPos;
    assert (input + more)[1..] == input[1..] + more && (input + more)[0] == input[0];
    if input[0] >= 128 {
      LoopMore(input[1..], more, Take7(input[0], result, bitpos), NextPos(bitpos));
    }
  }

  lemma GetUInt32More(input: Bytes, more: Bytes)
    requires GetUInt32(input).Some?
    ensures var (v, rest) := GetUInt32(input).value; GetUInt32(input + more) == Some((v, rest + more))
  {
    assert (input + more)[1..] == input[1..] + more && (input + more)[0] == input[0];
    if input[0] >= 128 {
      LoopMore(input[1..], more, input[0] - 128, 7);
    }
  }

  lemma GetBlobMore(input: Bytes, more: Bytes)
    requires GetBlob(input).Some?
    ensures var (b, rest) := GetBlob(input).value; GetBlob(input + more) == Some((b, rest + more))
  {
    GetUInt32More(input, more);
    var (size, rest) := GetUInt32(input).value;
    assert (rest + more)[..size] == rest[..size] && (rest + more)[size..] == rest[size..] + more;
  }

  lemma {:induction false} SkipVarintMore(input: Bytes, more: Bytes)
    requires SkipVarint(input).Some?
    ensures SkipVarint(input + more) == Some(SkipVarint(input).value + more)
  {
    assert (input + more)[1..] == input[1..] + more;
    if input[0] >= 128 {
      SkipVarintMore(input[1..], more);
    }
  }

  lemma SkipFieldMore(wireType: nat, input: Bytes, more: Bytes)
    requires SkipField(wireType, input).Some?
    ensures SkipField(wireType, input + more) == Some(SkipField(wireType, input).value + more)
  {
    if wireType == WT_VARINT {
      SkipVarintMore(input, more);
    } else if wireType == WT_STRING {
      GetBlobMore(input, more);
    } else {
      var n := if wireType == WT_64BIT then 8 else 4;
      assert (input + more)[n..] == input[n..] + more;
    }
  }

  lemma ReadTagMore(input: Bytes, more: Bytes)
    requires ReadTag(input).Tag?
    ensures var t := ReadTag(input); ReadTag(input + more) == t.(rest := t.rest + more)
  {
    GetUInt32More(input, more);
  }
}
