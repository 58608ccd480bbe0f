/** Integer and string encodings (util/coding.h, util/coding.cc): little-endian fixed
    integers, base-128 varints and length-prefixed strings. */
module Coding {
  import opened Wrappers

  type Byte = b: nat | b < 256
  type Bytes = seq<Byte>

  const TWO_31 := 0x8000_0000
  const TWO_32 := 0x1_0000_0000
  const TWO_64 := 0x1_0000_0000_0000_0000

  /** The bytes at `pos` of a file. */
  ghost predicate Holds(file: Bytes, pos: nat, bs: Bytes) {
    pos + |bs| <= |file| && file[pos..pos + |bs|] == bs
  }

  lemma HoldsSplit(file: Bytes, pos: nat, a: Bytes, b: Bytes)
    requires Holds(file, pos, a + b)
    ensures Holds(file, pos, a) && Holds(file, pos + |a|, b)
  {
    var bs := file[pos..pos + |a + b|];
    assert bs == a + b;
    assert bs[..|a|] == a && bs[|a|..] == b;
    assert file[pos..pos + |a|] == bs[..|a|];
    assert file[pos + |a|..pos + |a| + |b|] == bs[|a|..];
  }

  /** The encodings of a list, one after the other. */
  function Flat<T>(encode: T -> Bytes, xs: seq<T>): Bytes {
    if xs == [] then [] else encode(xs[0]) + Flat(encode, xs[1..])
  }

  lemma {:induction false} FlatConcat<T>(encode: T -> Bytes, a: seq<T>, b: seq<T>)
    ensures Flat(encode, a + b) == Flat(encode, a) + Flat(encode, b)
  {
    if a == [] {
      assert a + b == b;
    } else {
      FlatConcat(encode, a[1..], b);
      assert (a + b)[1..] == a[1..] + b;
    }
  }

  lemma FlatSnoc<T>(encode: T -> Bytes, a: seq<T>, x: T)
    ensures Flat(encode, a + [x]) == Flat(encode, a) + encode(x)
  {
    FlatConcat(encode, a, [x]);
    assert Flat(encode, [x]) == encode(x) + Flat(encode, []);
  }

  /** A parser takes one item off the front of its input and leaves less of it. */
  ghost predicate Consuming<T>(parse: Bytes -> Option<(T, Bytes)>) {
    forall input: Bytes | input != [] && parse(input).Some? :: |parse(input).value.1| < |input|
  }

  /** The items of `input` up to the first malformed one. */
  ghost function ParseAll<T>(parse: Bytes -> Option<(T, Bytes)>, input: Bytes): (seq<T>, bool)
    requires Consuming(parse)
    decreases |input|
  {
    if input == [] then ([], true)
    else
      match parse(input)
      case None => ([], false)
      case Some((x, rest)) => var (xs, ok) := ParseAll(parse, rest); ([x] + xs, ok)
  }

  /** `parse` undoes `encode` on `x`, whatever follows. */
  ghost predicate ReadsBack<T(!new)>(encode: T -> Bytes, parse: Bytes -> Option<(T, Bytes)>, x: T, rest: Bytes) {
    encode(x) != [] && parse(encode(x) + rest) == Some((x, rest))
  }

  lemma {:induction false} ParseAllRoundTrip<T(!new)>(encode: T -> Bytes, parse: Bytes -> Option<(T, Bytes)>, xs: seq<T>)
    requires Consuming(parse)
    requires forall x, rest: Bytes :: x in xs ==> ReadsBack(encode, parse, x, rest)
    ensures ParseAll(parse, Flat(encode, xs)) == (xs, true)
  {
    if xs != [] {
      assert ReadsBack(encode, parse, xs[0], Flat(encode, xs[1..]));
      ParseAllRoundTrip(encode, parse, xs[1..]);
      assert [xs[0]] + xs[1..] == xs;
    }
  }

  /** The items were parsed one behind the other; what is left is nothing, or malformed. */
  ghost predicate ParsedInTurn<T(!new)>(parse: Bytes -> Option<(T, Bytes)>, input: Bytes, items: seq<T>, ok: bool)
    decreases |items|
  {
    if items == [] then if input == [] then ok else !ok && parse(input) == None
    else input != [] && parse(input).Some? && parse(input).value.0 == items[0] && ParsedInTurn(parse, parse(input).value.1, items[1..], ok)
  }

  lemma {:induction false} ParseAllInTurn<T(!new)>(parse: Bytes -> Option<(T, Bytes)>, input: Bytes, items: seq<T>, ok: bool)
    requires Consuming(parse)
    ensures ParseAll(parse, input) == (items, ok) <==> ParsedInTurn(parse, input, items, ok)
    decreases |input|
  {
    if input != [] && parse(input).Some? && items != [] {
      var (x, rest) := parse(input).value;
      ParseAllInTurn(parse, rest, items[1..], ok);
      var (later, ok') := ParseAll(parse, rest);
      assert ([x] + later)[1..] == later && [items[0]] + items[1..] == items;
    }
  }

  // ------------------------------------------------------------------------ fixed

  /** `EncodeFixed32` and `EncodeFixed64` for n = 4 and n = 8. */
  function EncodeFixed(v: nat, n: nat): (bs: Bytes)
    ensures |bs| == n
  {
    if n == 0 then [] else [v % 256] + EncodeFixed(v / 256, n - 1)
  }

  function DecodeFixed(bs: Bytes): nat {
    if bs == [] then 0 else bs[0] + 256 * DecodeFixed(bs[1..])
  }

  function Power256(n: nat): (r: nat)
    ensures r > 0
  {
    if n == 0 then 1 else 256 * Power256(n - 1)
  }

  lemma Powers()
    ensures Power256(2) == 0x1_0000 && Power256(4) == TWO_32 && Power256(8) == TWO_64
  {
    assert Power256(1) == 256;
    assert Power256(3) == 256 * Power256(2);
    assert Power256(5) == 256 * Power256(4);
    assert Power256(7) == 256 * Power256(6);
  }

  lemma {:induction false} FixedRoundTrip(v: nat, n: nat)
    requires v < Power256(n)
    ensures DecodeFixed(EncodeFixed(v, n)) == v
  {
    if n > 0 {
      FixedRoundTrip(v / 256, n - 1);
      assert EncodeFixed(v, n)[1..] == EncodeFixed(v / 256, n - 1);
    }
  }

  /** Little-endian: byte `i` has weight 256^i. */
  lemma {:induction false} FixedBytes(v: nat, n: nat, i: nat)
    requires i < n
    ensures EncodeFixed(v, n)[i] == v / Power256(i) % 256
  {
    if i > 0 {
      FixedBytes(v / 256, n - 1, i - 1);
      DivideTwice(v, Power256(i - 1));
    }
  }

  lemma DivideTwice(v: nat, p: nat)
    requires p > 0
    ensures v / 256 / p == v / (256 * p)
  {
    var q, r := v / 256 / p, v / 256 % p;
    assert v / 256 == q * p + r;
    assert v == 256 * (q * p + r) + v % 256 == q * (256 * p) + (256 * r + v % 256);
    Division(v, 256 * p, q, 256 * r + v % 256);
  }

  // ----------------------------------------------------------------------- varint

  /** `PutVarint32` and `PutVarint64`: seven bits a byte, low bits first. */
  function PutVarint(v: nat): (bs: Bytes)
    ensures |bs| > 0
  {
    if v < 128 then [v] else [128 + v % 128] + PutVarint(v / 128)
  }

  /** The value and length of the varint at the head of `bs`, read over at most `max`
      bytes; the value is not yet cut to the integer width. */
  function ReadVarint(bs: Bytes, max: nat): Option<(nat, nat)> {
    if max == 0 || bs == [] then None
    else if bs[0] < 128 then Some((bs[0], 1))
    else
      match ReadVarint(bs[1..], max - 1)
      case None => None
      case Some((v, n)) => Some((bs[0] - 128 + 128 * v, n + 1))
  }

  lemma {:induction false} ReadVarintLength(bs: Bytes, max: nat)
    ensures ReadVarint(bs, max).Some? ==> 0 < ReadVarint(bs, max).value.1 <= |bs| && ReadVarint(bs, max).value.1 <= max
  {
    if max > 0 && bs != [] && bs[0] >= 128 {
      ReadVarintLength(bs[1..], max - 1);
    }
  }

  /** `GetVarint32` (five bytes) and `GetVarint64` (ten): the value and what follows it. */
  function GetVarint32(input: Bytes): Option<(nat, Bytes)> {
    ReadVarintLength(input, 5);
    match ReadVarint(input, 5)
    case None => None
    case Some((v, n)) => Some((v % TWO_32, input[n..]))
  }

  function GetVarint64(input: Bytes): Option<(nat, Bytes)> {
    ReadVarintLength(input, 10);
    match ReadVarint(input, 10)
    case None => None
    case Some((v, n)) => Some((v % TWO_64, input[n..]))
  }

  function Power128(n: nat): nat {
    if n == 0 then 1 else 128 * Power128(n - 1)
  }

  /** What `EncodeVarint` wrote is read back, whatever follows, once the reader may take
      enough bytes. */
  lemma {:induction false} VarintRoundTrip(v: nat, rest: Bytes, max: nat)
    requires max > 0 && v < Power128(max)
    ensures ReadVarint(PutVarint(v) + rest, max) == Some((v, |PutVarint(v)|))
    ensures |PutVarint(v)| <= max
  {
    var bs := PutVarint(v) + rest;
    if v >= 128 {
      assert Power128(1) == 128;
      VarintRoundTrip(v / 128, rest, max - 1);
      assert bs[1..] == PutVarint(v / 128) + rest;
    }
  }

  lemma VarintLimits()
    ensures TWO_32 <= Power128(5) && TWO_64 <= Power128(10)
  {
    assert Power128(2) == 128 * Power128(1);
    assert Power128(4) == 128 * Power128(3);
    assert Power128(5) == 128 * Power128(4);
    assert Power128(7) == 128 * Power128(6);
    assert Power128(9) == 128 * Power128(8);
  }

  lemma Varint32RoundTrip(v: nat, rest: Bytes)
    requires v < TWO_32
    ensures GetVarint32(PutVarint(v) + rest) == Some((v, rest))
  {
    VarintLimits();
    VarintRoundTrip(v, rest, 5);
    assert (PutVarint(v) + rest)[|PutVarint(v)|..] == rest;
  }

  lemma Varint64RoundTrip(v: nat, rest: Bytes)
    requires v < TWO_64
    ensures GetVarint64(PutVarint(v) + rest) == Some((v, rest))
  {
    VarintLimits();
    VarintRoundTrip(v, rest, 10);
    assert (PutVarint(v) + rest)[|PutVarint(v)|..] == rest;
  }

  // ------------------------------------------------- what a reader accepts, exactly

  /** The continuation bit is set in all bytes but the last. */
  ghost predicate IsVarint(b: Bytes) {
    b != [] && b[|b| - 1] < 128 && forall i :: 0 <= i < |b| - 1 ==> b[i] >= 128
  }

  function VarintValue(b: Bytes): nat {
    if b == [] then 0 else b[0] % 128 + 128 * VarintValue(b[1..])
  }

  /** What is written is a varint for the value, and no longer than it must be. */
  lemma {:induction false} PutVarintExact(v: nat)
    ensures var b := PutVarint(v); IsVarint(b) && VarintValue(b) == v && (|b| > 1 ==> b[|b| - 1] != 0)
  {
    if v < 128 {
      assert [v][1..] == [] && VarintValue([]) == 0;
    } else {
      PutVarintExact(v / 128);
      var b, rest := PutVarint(v), PutVarint(v / 128);
      assert b[1..] == rest;
      assert forall i :: 1 <= i < |b| ==> b[i] == rest[i - 1];
    }
  }

  /** The varint at the head of `bs` has `n` bytes. */
  ghost predicate VarintAt(bs: Bytes, max: nat, n: nat) {
    n <= max && n <= |bs| && IsVarint(bs[..n])
  }

  lemma {:induction false} ReadVarintFinds(bs: Bytes, max: nat)
    requires ReadVarint(bs, max).Some?
    ensures var (v, n) := ReadVarint(bs, max).value; VarintAt(bs, max, n) && v == VarintValue(bs[..n])
  {
    if bs[0] >= 128 {
      ReadVarintFinds(bs[1..], max - 1);
      var (v, n) := ReadVarint(bs, max).value;
      assert bs[..n][1..] == bs[1..][..n - 1];
      assert forall i :: 1 <= i < n ==> bs[..n][i] == bs[1..][..n - 1][i - 1];
    } else {
      assert bs[..1] == [bs[0]] && VarintValue([]) == 0;
    }
  }

  lemma {:induction false} VarintIsRead(b: Bytes, rest: Bytes, max: nat)
    requires IsVarint(b) && |b| <= max
    ensures ReadVarint(b + rest, max) == Some((VarintValue(b), |b|))
    decreases |b|
  {
    if |b| > 1 {
      assert (b + rest)[1..] == b[1..] + rest;
      assert forall i :: 0 <= i < |b| - 1 ==> b[1..][i] == b[i + 1];
      VarintIsRead(b[1..], rest, max - 1);
    } else {
      assert b[1..] == [];
    }
  }

  /** A varint is read if and only if one of at most `max` bytes stands there. */
  lemma ReadVarintExact(bs: Bytes, max: nat, v: nat, n: nat)
    ensures ReadVarint(bs, max) == Some((v, n)) <==> VarintAt(bs, max, n) && v == VarintValue(bs[..n])
  {
    if ReadVarint(bs, max).Some? {
      ReadVarintFinds(bs, max);
    }
    if VarintAt(bs, max, n) {
      VarintIsRead(bs[..n], bs[n..], max);
      assert bs[..n] + bs[n..] == bs;
    }
  }

  /** The bytes are a varint that the 32-bit or the 64-bit reader takes for `v`; bits above are
      lost. */
  ghost predicate SpellsVarint32(b: Bytes, v: nat) {
    IsVarint(b) && |b| <= 5 && v == VarintValue(b) % TWO_32
  }

  ghost predicate SpellsVarint64(b: Bytes, v: nat) {
    IsVarint(b) && |b| <= 10 && v == VarintValue(b) % TWO_64
  }

  lemma SpelledVarint32(input: Bytes) returns (b: Bytes)
    requires GetVarint32(input).Some?
    ensures var (v, rest) := GetVarint32(input).value; SpellsVarint32(b, v) && input == b + rest
  {
    var n := ReadVarint(input, 5).value.1;
    ReadVarintFinds(input, 5);
    b := input[..n];
  }

  lemma Varint32IsRead(b: Bytes, v: nat, rest: Bytes)
    requires SpellsVarint32(b, v)
    ensures GetVarint32(b + rest) == Some((v, rest))
  {
    VarintIsRead(b, rest, 5);
    assert (b + rest)[|b|..] == rest;
  }

  lemma SpelledVarint64(input: Bytes) returns (b: Bytes)
    requires GetVarint64(input).Some?
    ensures var (v, rest) := GetVarint64(input).value; SpellsVarint64(b, v) && input == b + rest
  {
    var n := ReadVarint(input, 10).value.1;
    ReadVarintFinds(input, 10);
    b := input[..n];
  }

  lemma Varint64IsRead(b: Bytes, v: nat, rest: Bytes)
    requires SpellsVarint64(b, v)
    ensures GetVarint64(b + rest) == Some((v, rest))
  {
    VarintIsRead(b, rest, 10);
    assert (b + rest)[|b|..] == rest;
  }

  /** The unrolled `EncodeVarint32`. */
  function EncodeVarint32(v: nat): Bytes
    requires v < TWO_32
  {
    if v < 0x80 then [v]
    else if v < 0x4000 then [128 + v % 128, v / 0x80]
    else if v < 0x20_0000 then [128 + v % 128, 128 + v / 0x80 % 128, v / 0x4000]
    else if v < 0x1000_0000 then [128 + v % 128, 128 + v / 0x80 % 128, 128 + v / 0x4000 % 128, v / 0x20_0000]
    else [128 + v % 128, 128 + v / 0x80 % 128, 128 + v / 0x4000 % 128, 128 + v / 0x20_0000 % 128, v / 0x1000_0000]
  }

  lemma ShiftSevens(v: nat)
    ensures v / 0x4000 == v / 0x80 / 128
    ensures v / 0x20_0000 == v / 0x80 / 128 / 128
    ensures v / 0x1000_0000 == v / 0x80 / 128 / 128 / 128
  {
  }

  /** One unrolled step per byte. */
  lemma UnrolledVarint32(v: nat)
    requires v < TWO_32
    ensures EncodeVarint32(v) == PutVarint(v)
  {
    ShiftSevens(v);
    var a := v / 0x80;
    var b := a / 128;
    var c := b / 128;
    if v >= 0x80 {
      assert PutVarint(v) == [128 + v % 128] + PutVarint(a);
    }
    if a >= 0x80 {
      assert PutVarint(a) == [128 + a % 128] + PutVarint(b);
    }
    if b >= 0x80 {
      assert PutVarint(b) == [128 + b % 128] + PutVarint(c);
    }
    if c >= 0x80 {
      assert PutVarint(c) == [128 + c % 128] + PutVarint(c / 128);
    }
  }

  /** The loop of `EncodeVarint64`. */
  method EncodeVarint64(v: nat) returns (bs: Bytes)
    ensures bs == PutVarint(v)
  {
    bs := [];
    var left := v;
    while left >= 128
      invariant bs + PutVarint(left) == PutVarint(v)
    {
      assert PutVarint(left) == [128 + left % 128] + PutVarint(left / 128);
      bs := bs + [left % 128 + 128];
      left := left / 128;
    }
    bs := bs + [left];
  }

  /** A value read after `n` bytes that stand for `low`, at weight `factor`. */
  function Above(low: nat, factor: nat, n: nat, r: Option<(nat, nat)>): Option<(nat, nat)> {
    match r
    case None => None
    case Some((v, m)) => Some((low + factor * v, n + m))
  }

  /** One more byte with the continuation bit set. */
  lemma AboveStep(p: Bytes, max: nat, n: nat, low: nat, factor: nat)
    requires n < max && n < |p| && p[n] >= 128
    ensures Above(low, factor, n, ReadVarint(p[n..], max - n))
         == Above(low + factor * (p[n] - 128), factor * 128, n + 1, ReadVarint(p[n + 1..], max - (n + 1)))
  {
    assert p[n..][1..] == p[n + 1..];
    match ReadVarint(p[n + 1..], max - (n + 1))
    case None =>
    case Some((v, m)) =>
      var c: nat := p[n] - 128;
      assert factor * (c + 128 * v) == factor * c + (factor * 128) * v;
  }

  lemma AboveStart(r: Option<(nat, nat)>)
    ensures Above(0, 1, 0, r) == r
  {
  }

  lemma ReadNothing(bs: Bytes, max: nat)
    requires bs == [] || max == 0
    ensures ReadVarint(bs, max) == None
  {
  }

  /** The last byte, with the continuation bit clear. */
  lemma AboveLast(p: Bytes, max: nat, n: nat, low: nat, factor: nat)
    requires n < max && n < |p| && p[n] < 128
    ensures Above(low, factor, n, ReadVarint(p[n..], max - n)) == Some((low + factor * p[n], n + 1))
  {
    assert ReadVarint(p[n..], max - n) == Some((p[n], 1));
  }

  /** The loops of `GetVarint32PtrFallback` and `GetVarint64Ptr`: `max` bytes, shifting by
      seven; `None` stands for NULL. */
  method GetVarintPtr(p: Bytes, max: nat) returns (r: Option<(nat, nat)>)
    ensures r == ReadVarint(p, max)
  {
    hide ReadVarint;
    var result: nat, n: nat, factor: nat := 0, 0, 1;
    assert p[0..] == p;
    AboveStart(ReadVarint(p, max));
    while n < max && n < |p|
      invariant n <= max && n <= |p|
      invariant ReadVarint(p, max) == Above(result, factor, n, ReadVarint(p[n..], max - n))
    {
      if p[n] >= 128 {
        AboveStep(p, max, n, result, factor);
        var digit: nat := p[n] - 128;
        result, factor, n := result + factor * digit, factor * 128, n + 1;
      } else {
        AboveLast(p, max, n, result, factor);
        return Some((result + factor * p[n], n + 1));
      }
    }
    ReadNothing(p[n..], max - n);
    return None;
  }

  // --------------------------------------------------------------- length prefixes

  function PutLengthPrefixed(s: Bytes): Bytes {
    PutVarint(|s|) + s
  }

  function GetLengthPrefixed(input: Bytes): Option<(Bytes, Bytes)> {
    match GetVarint32(input)
    case None => None
    case Some((len, rest)) => if |rest| >= len then Some((rest[..len], rest[len..])) else None
  }

  lemma LengthPrefixedRoundTrip(s: Bytes, rest: Bytes)
    requires |s| < TWO_32
    ensures GetLengthPrefixed(PutLengthPrefixed(s) + rest) == Some((s, rest))
  {
    assert PutLengthPrefixed(s) + rest == PutVarint(|s|) + (s + rest);
    Varint32RoundTrip(|s|, s + rest);
    assert (s + rest)[..|s|] == s && (s + rest)[|s|..] == rest;
  }

  /** A length, then that many bytes. */
  ghost predicate SpellsSlice(bs: Bytes, s: Bytes) {
    exists b :: SpellsVarint32(b, |s|) && bs == b + s
  }

  lemma SpelledSlice(input: Bytes) returns (bs: Bytes)
    requires GetLengthPrefixed(input).Some?
    ensures var (s, rest) := GetLengthPrefixed(input).value; SpellsSlice(bs, s) && input == bs + rest
  {
    hide SpellsVarint32, GetVarint32;
    var b := SpelledVarint32(input);
    var (s, rest) := GetLengthPrefixed(input).value;
    bs := b + s;
    ConcatAssoc(b, s, rest);
  }

  lemma SliceIsRead(bs: Bytes, s: Bytes, rest: Bytes)
    requires SpellsSlice(bs, s)
    ensures GetLengthPrefixed(bs + rest) == Some((s, rest))
  {
    hide SpellsVarint32, GetVarint32;
    var b :| SpellsVarint32(b, |s|) && bs == b + s;
    ConcatAssoc(b, s, rest);
    Varint32IsRead(b, |s|, s + rest);
    assert (s + rest)[..|s|] == s && (s + rest)[|s|..] == rest;
  }
}
