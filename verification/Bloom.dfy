/** The Bloom filter policy (util/bloom.cc), for any hash function. */
module Bloom {
  import opened Wrappers
  import opened Coding

  /** A `uint32_t`. */
  type Word = w: nat | w < TWO_32

  type Hash = Bytes -> Word

  /** The single-bit masks `1 << i`. */
  function Mask(i: nat): bv8
    requires i < 8
  {
    if i == 0 then 1 else if i == 1 then 2 else if i == 2 then 4 else if i == 3 then 8
    else if i == 4 then 16 else if i == 5 then 32 else if i == 6 then 64 else 128
  }

  /** The hash rotated right by 17 bits. */
  function Delta(h: Word): Word {
    h / 0x2_0000 + h % 0x2_0000 * 0x8000
  }

  /** The low 17 bits become the high ones. */
  lemma DeltaRotates(high: nat, low: nat)
    requires high < 0x8000 && low < 0x2_0000
    ensures Delta(high * 0x2_0000 + low) == low * 0x8000 + high
  {
  }

  predicate Test(bits: seq<bv8>, p: nat)
    requires p < 8 * |bits|
  {
    bits[p / 8] & Mask(p % 8) != 0
  }

  function Set(bits: seq<bv8>, p: nat): (r: seq<bv8>)
    requires p < 8 * |bits|
    ensures |r| == |bits|
  {
    bits[p / 8 := bits[p / 8] | Mask(p % 8)]
  }

  lemma MaskSet(b: bv8, i: nat, j: nat)
    requires i < 8 && j < 8
    ensures (b | Mask(i)) & Mask(j) != 0 <==> b & Mask(j) != 0 || i == j
  {
  }

  /** Setting a bit sets it and changes no other. */
  lemma SetTests(bits: seq<bv8>, p: nat, q: nat)
    requires p < 8 * |bits| && q < 8 * |bits|
    ensures Test(Set(bits, p), q) <==> Test(bits, q) || p == q
  {
    MaskSet(bits[p / 8], p % 8, q % 8);
  }

  function Remainder(n: nat, m: nat): (r: nat)
    requires m > 0
    ensures r < m
  {
    n % m
  }

  /** The hash after `j` rounds of double hashing, in 32 bits. */
  function Rehashed(h: Word, j: nat): Word {
    Remainder(h + j * Delta(h), TWO_32)
  }

  /** The `j`th probe of a key in a filter of so many bytes. */
  function Probe(h: Word, j: nat, bytes: nat): (p: nat)
    requires bytes > 0
    ensures p < 8 * bytes
  {
    Remainder(Rehashed(h, j), 8 * bytes)
  }

  lemma RehashOnce(h: Word, j: nat)
    ensures Rehashed(h, 0) == h && Rehashed(h, j + 1) == (Rehashed(h, j) + Delta(h)) % TWO_32
  {
    hide Delta;
    var d: nat, n: nat := Delta(h), h + j * Delta(h);
    assert h + (j + 1) * d == n + d;
    assert n == n / TWO_32 * TWO_32 + n % TWO_32;
  }

  /** The first `n` probes of a key, set. */
  function SetProbes(bits: seq<bv8>, h: Word, n: nat): (r: seq<bv8>)
    requires bits != []
    ensures |r| == |bits|
  {
    if n == 0 then bits else Set(SetProbes(bits, h, n - 1), Probe(h, n - 1, |bits|))
  }

  function SetKeys(bits: seq<bv8>, hash: Hash, keys: seq<Bytes>, k: nat): (r: seq<bv8>)
    requires bits != []
    ensures |r| == |bits|
    decreases |keys|
  {
    if keys == [] then bits else SetProbes(SetKeys(bits, hash, keys[..|keys| - 1], k), hash(keys[|keys| - 1]), k)
  }

  lemma {:induction false} ProbesSet(bits: seq<bv8>, h: Word, n: nat, q: nat)
    requires bits != [] && q < 8 * |bits|
    ensures Test(SetProbes(bits, h, n), q) <==> Test(bits, q) || exists j: nat :: j < n && Probe(h, j, |bits|) == q
  {
    hide Probe, Test, Set;
    if n > 0 {
      ProbesSet(bits, h, n - 1, q);
      SetTests(SetProbes(bits, h, n - 1), Probe(h, n - 1, |bits|), q);
    }
  }

  /** One of the `k` probes of one of the keys. */
  ghost predicate Probed(hash: Hash, keys: seq<Bytes>, k: nat, bytes: nat, q: nat)
    requires bytes > 0
  {
    exists key, j: nat :: key in keys && j < k && Probe(hash(key), j, bytes) == q
  }

  lemma {:induction false} KeysSet(bits: seq<bv8>, hash: Hash, keys: seq<Bytes>, k: nat, q: nat)
    requires bits != [] && q < 8 * |bits|
    ensures Test(SetKeys(bits, hash, keys, k), q) <==> Test(bits, q) || Probed(hash, keys, k, |bits|, q)
    decreases |keys|
  {
    hide Probe, Test;
    if keys != [] {
      var init, last := keys[..|keys| - 1], keys[|keys| - 1];
      KeysSet(bits, hash, init, k, q);
      ProbesSet(SetKeys(bits, hash, init, k), hash(last), k, q);
      assert forall key :: key in keys <==> key in init || key == last;
    }
  }

  // -------------------------------------------------------------- filters as bytes

  function FromBits(bits: seq<bv8>): (r: Bytes)
    ensures |r| == |bits|
  {
    seq(|bits|, i requires 0 <= i < |bits| => ToByte(bits[i]))
  }

  function ToByte(b: bv8): Byte {
    ByteRange(b);
    b as nat
  }

  lemma ByteRange(b: bv8)
    ensures (b as nat) < 256 && (b as nat) as bv8 == b
  {
  }

  function Power2(i: nat): nat
    requires i < 8
  {
    if i == 0 then 1 else if i == 1 then 2 else if i == 2 then 4 else if i == 3 then 8
    else if i == 4 then 16 else if i == 5 then 32 else if i == 6 then 64 else 128
  }

  /** `array[p / 8] & (1 << (p % 8))`, on numbers: bit `p`, counted from the low end of the first
      byte. */
  predicate BitAt(bs: Bytes, p: nat)
    requires p < 8 * |bs|
  {
    bs[p / 8] / Power2(p % 8) % 2 == 1
  }

  lemma {:induction false} MaskIsPower(b: bv8, i: nat)
    requires i < 8
    ensures b & Mask(i) != 0 <==> (b as nat) / Power2(i) % 2 == 1
  {
    if i == 0 {
      LowestBit(b);
    } else {
      MaskIsPower(b >> 1, i - 1);
      ShiftedMask(b, i);
      Half(b);
      HalfPower(b as nat, i);
    }
  }

  lemma LowestBit(b: bv8)
    ensures b & 1 != 0 <==> (b as nat) % 2 == 1
  {
  }

  lemma ShiftedMask(b: bv8, i: nat)
    requires 0 < i < 8
    ensures b & Mask(i) != 0 <==> (b >> 1) & Mask(i - 1) != 0
  {
  }

  lemma Half(b: bv8)
    ensures (b >> 1) as nat == (b as nat) / 2
  {
  }

  lemma HalfPower(n: nat, i: nat)
    requires 0 < i < 8
    ensures n / 2 / Power2(i - 1) == n / Power2(i)
  {
  }

  lemma BitIsTest(bits: seq<bv8>, p: nat)
    requires p < 8 * |bits|
    ensures BitAt(FromBits(bits), p) <==> Test(bits, p)
  {
    hide Mask, Power2;
    MaskIsPower(bits[p / 8], p % 8);
  }

  /** Bytes of a filter for `n` keys: the fewest that hold as many bits, and at least 64. */
  function FilterBytes(n: nat, bitsPerKey: nat): (r: nat)
    ensures r >= 8 && 8 * r >= n * bitsPerKey
    ensures r > 8 ==> 8 * (r - 1) < n * bitsPerKey
  {
    var bits := n * bitsPerKey;
    ((if bits < 64 then 64 else bits) + 7) / 8
  }

  function ZeroBits(n: nat): (r: seq<bv8>)
    ensures |r| == n
  {
    seq(n, _ => 0)
  }

  /** What CreateFilter appends: the bits, then the number of probes. */
  function Filter(hash: Hash, bitsPerKey: nat, k: nat, keys: seq<Bytes>): Bytes
    requires 1 <= k <= 30
  {
    FromBits(SetKeys(ZeroBits(FilterBytes(|keys|, bitsPerKey)), hash, keys, k)) + [k]
  }

  lemma ZeroTests(n: nat, p: nat)
    requires p < 8 * n
    ensures !Test(ZeroBits(n), p)
  {
  }

  /** A bit of the filter is set if and only if it is a probe of some key. */
  lemma FilterIs(hash: Hash, bitsPerKey: nat, k: nat, keys: seq<Bytes>)
    requires 1 <= k <= 30
    ensures var filter, bytes := Filter(hash, bitsPerKey, k, keys), FilterBytes(|keys|, bitsPerKey);
            && |filter| == bytes + 1 && filter[bytes] == k
            && forall p :: 0 <= p < 8 * bytes ==> (BitAt(filter, p) <==> Probed(hash, keys, k, bytes, p))
  {
    hide Test, Probed, BitAt, FromBits;
    var filter, bytes := Filter(hash, bitsPerKey, k, keys), FilterBytes(|keys|, bitsPerKey);
    var bits := SetKeys(ZeroBits(bytes), hash, keys, k);
    forall p | 0 <= p < 8 * bytes ensures BitAt(filter, p) <==> Probed(hash, keys, k, bytes, p) {
      FrontBits(FromBits(bits), k, p);
      BitIsTest(bits, p);
      KeysSet(ZeroBits(bytes), hash, keys, k, p);
      ZeroTests(bytes, p);
    }
  }

  lemma FrontBits(bs: Bytes, k: Byte, p: nat)
    requires p < 8 * |bs|
    ensures BitAt(bs + [k], p) <==> BitAt(bs, p)
  {
  }

  /** `KeyMayMatch`: every bit that is probed is set, unless the number of probes is reserved. */
  predicate MayMatch(hash: Hash, key: Bytes, filter: Bytes) {
    |filter| >= 2 && var bytes := |filter| - 1;
    filter[bytes] > 30 || forall j: nat :: j < filter[bytes] ==> BitAt(filter, Probe(hash(key), j, bytes))
  }

  /** A filter matches a key if and only if each probe of the key is a probe of some key that
      was added. */
  lemma MatchIsExact(hash: Hash, bitsPerKey: nat, k: nat, keys: seq<Bytes>, key: Bytes)
    requires 1 <= k <= 30
    ensures var bytes := FilterBytes(|keys|, bitsPerKey);
            MayMatch(hash, key, Filter(hash, bitsPerKey, k, keys)) <==>
            forall j: nat :: j < k ==> Probed(hash, keys, k, bytes, Probe(hash(key), j, bytes))
  {
    hide BitAt, Probed, Probe, Filter;
    FilterIs(hash, bitsPerKey, k, keys);
  }

  /** No false negatives. */
  lemma CreatedMatches(hash: Hash, bitsPerKey: nat, k: nat, keys: seq<Bytes>, key: Bytes)
    requires 1 <= k <= 30 && key in keys
    ensures MayMatch(hash, key, Filter(hash, bitsPerKey, k, keys))
  {
    hide Probe, MayMatch, Filter;
    MatchIsExact(hash, bitsPerKey, k, keys, key);
  }

  /** The filter of no keys matches none. */
  lemma EmptyMatchesNone(hash: Hash, bitsPerKey: nat, k: nat, key: Bytes)
    requires 1 <= k <= 30
    ensures !MayMatch(hash, key, Filter(hash, bitsPerKey, k, []))
  {
    hide Probe, MayMatch, Filter;
    MatchIsExact(hash, bitsPerKey, k, [], key);
    var bytes := FilterBytes(0, bitsPerKey);
    assert !Probed(hash, [], k, bytes, Probe(hash(key), 0, bytes));
  }

  /** `CreateFilter`: sets bits in place. */
  method CreateFilter(hash: Hash, bitsPerKey: nat, k: nat, keys: seq<Bytes>, dst: Bytes) returns (r: Bytes)
    requires 1 <= k <= 30
    ensures r == dst + Filter(hash, bitsPerKey, k, keys)
  {
    var bits := |keys| * bitsPerKey;
    if bits < 64 {
      bits := 64;
    }
    var bytes := (bits + 7) / 8;
    var array_ := new bv8[bytes](_ => 0);
    assert array_[..] == ZeroBits(bytes);
    for i := 0 to |keys|
      invariant array_[..] == SetKeys(ZeroBits(bytes), hash, keys[..i], k)
    {
      assert keys[..i + 1][..i] == keys[..i];
      AddKey(array_, hash(keys[i]), k);
    }
    assert keys[..|keys|] == keys;
    r := dst + FromBits(array_[..]) + [k];
    ConcatAssoc(dst, FromBits(array_[..]), [k]);
  }

  /** The inner loop: one key's probes. */
  method AddKey(array_: array<bv8>, hash: Word, k: nat)
    requires array_.Length > 0
    modifies array_
    ensures array_[..] == SetProbes(old(array_[..]), hash, k)
  {
    hide Delta, Mask, Rehashed;
    var h := hash;
    var delta := Delta(h);
    RehashOnce(hash, 0);
    for j := 0 to k
      invariant h == Rehashed(hash, j) && array_[..] == SetProbes(old(array_[..]), hash, j)
    {
      ghost var before := array_[..];
      var p := h % (8 * array_.Length);
      array_[p / 8] := array_[p / 8] | Mask(p % 8);
      assert array_[..] == Set(before, p);
      RehashOnce(hash, j);
      h := (h + delta) % TWO_32;
    }
  }

  method KeyMayMatch(hash: Hash, key: Bytes, filter: Bytes) returns (r: bool)
    ensures r == MayMatch(hash, key, filter)
  {
    hide Delta, Rehashed, BitAt;
    if |filter| < 2 {
      return false;
    }
    var bytes := |filter| - 1;
    var k := filter[bytes];
    if k > 30 {
      // An encoding from the future matches everything
      return true;
    }
    var h := hash(key);
    var delta := Delta(h);
    RehashOnce(hash(key), 0);
    for j := 0 to k
      invariant h == Rehashed(hash(key), j)
      invariant forall i: nat :: i < j ==> BitAt(filter, Probe(hash(key), i, bytes))
    {
      var p := h % (8 * bytes);
      assert p == Probe(hash(key), j, bytes);
      if !BitAt(filter, p) {
        return false;
      }
      RehashOnce(hash(key), j);
      h := (h + delta) % TWO_32;
    }
    r := true;
  }
}
