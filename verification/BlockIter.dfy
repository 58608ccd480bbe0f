/** Reading a block (table/block.cc: Block::Iter).  When the bytes are what BlockBuilder made
    of increasing keys, the iterator is a cursor over the entries.  Other bytes are read
    within the block as long as the two lengths of no entry add up to 2^32 or more: the test
    that should catch those adds them in 32 bits. */
module BlockIter {
  import opened Wrappers
  import opened Coding
  import opened KeyOrders
  import opened Block

  // ---------------------------------------------------------------- decoding an entry

  datatype Decoded = Decoded(shared: nat, nonShared: nat, valueLength: nat, at: nat) {
    /** Key delta and value end at or before the limit. */
    predicate Fits(limit: nat) {
      at + nonShared + valueLength <= limit
    }
  }

  /** A number cut to 32 bits. */
  function Low32(n: nat): (r: nat)
    ensures r < TWO_32
    ensures n < TWO_32 ==> r == n
  {
    n % TWO_32
  }

  /** Three varints off the front: `DecodeEntry` without its fast path. */
  function ReadLengths(input: Bytes): Option<(nat, nat, nat, Bytes)> {
    match GetVarint32(input)
    case None => None
    case Some((a, r1)) =>
      match GetVarint32(r1)
      case None => None
      case Some((b, r2)) =>
        match GetVarint32(r2)
        case None => None
        case Some((c, r3)) => Some((a, b, c, r3))
  }

  lemma VarintShrinks(input: Bytes)
    ensures GetVarint32(input).Some? ==> |GetVarint32(input).value.1| < |input|
  {
    ReadVarintLength(input, 5);
  }

  lemma LengthsShrink(input: Bytes)
    ensures ReadLengths(input).Some? ==> |ReadLengths(input).value.3| + 3 <= |input|
  {
    VarintShrinks(input);
    match GetVarint32(input)
    case None =>
    case Some((_, r1)) =>
      VarintShrinks(r1);
      match GetVarint32(r1)
      case None =>
      case Some((_, r2)) => VarintShrinks(r2);
  }

  /** The sum of the two lengths is compared in 32 bits, so an entry that is accepted may
      reach beyond the limit. */
  function DecodeEntryAt(data: Bytes, p: nat, limit: nat): (r: Option<Decoded>)
    requires limit <= |data|
    ensures r.Some? ==> p + 3 <= r.value.at <= limit
  {
    if limit < p + 3 then None
    else
      LengthsShrink(data[p..limit]);
      match ReadLengths(data[p..limit])
      case None => None
      case Some((shared, nonShared, valueLength, rest)) =>
        if Low32(|rest|) < Low32(nonShared + valueLength) then None
        else Some(Decoded(shared, nonShared, valueLength, limit - |rest|))
  }

  /** Three varints stand for these lengths, and `rest` follows. */
  ghost predicate SpellsLengths(input: Bytes, d: Decoded, rest: Bytes) {
    exists a: Bytes, b: Bytes, c: Bytes ::
      SpellsVarint32(a, d.shared) && SpellsVarint32(b, d.nonShared) && SpellsVarint32(c, d.valueLength) && input == a + (b + (c + rest))
  }

  lemma LengthsAreSpelled(input: Bytes, d: Decoded, rest: Bytes)
    requires ReadLengths(input) == Some((d.shared, d.nonShared, d.valueLength, rest))
    ensures SpellsLengths(input, d, rest)
  {
    hide SpellsVarint32, GetVarint32;
    var a := SpelledVarint32(input);
    var r1 := GetVarint32(input).value.1;
    var b := SpelledVarint32(r1);
    var c := SpelledVarint32(GetVarint32(r1).value.1);
  }

  lemma LengthsAreRead(input: Bytes, d: Decoded, rest: Bytes)
    requires SpellsLengths(input, d, rest)
    ensures ReadLengths(input) == Some((d.shared, d.nonShared, d.valueLength, rest))
  {
    hide SpellsVarint32, GetVarint32;
    var a: Bytes, b: Bytes, c: Bytes :|
      SpellsVarint32(a, d.shared) && SpellsVarint32(b, d.nonShared) && SpellsVarint32(c, d.valueLength) && input == a + (b + (c + rest));
    Varint32IsRead(a, d.shared, b + (c + rest));
    Varint32IsRead(b, d.nonShared, c + rest);
    Varint32IsRead(c, d.valueLength, rest);
  }

  /** An entry is accepted if and only if three varints stand there and, in 32 bits, the two
      lengths are no more than what is left. */
  lemma DecodeEntryExact(data: Bytes, p: nat, limit: nat, d: Decoded)
    requires limit <= |data|
    ensures DecodeEntryAt(data, p, limit) == Some(d) <==>
            p + 3 <= limit && p + 3 <= d.at <= limit && SpellsLengths(data[p..limit], d, data[d.at..limit])
            && (d.nonShared + d.valueLength) % TWO_32 <= (limit - d.at) % TWO_32
  {
    hide ReadLengths, SpellsLengths;
    if limit >= p + 3 {
      var input := data[p..limit];
      LengthsShrink(input);
      if ReadLengths(input).Some? {
        var (shared, nonShared, valueLength, rest) := ReadLengths(input).value;
        var e := Decoded(shared, nonShared, valueLength, limit - |rest|);
        RestIsSuffix(input, e, rest);
        assert input[|input| - |rest|..] == data[e.at..limit];
      }
      if p + 3 <= d.at <= limit && SpellsLengths(input, d, data[d.at..limit]) {
        LengthsAreRead(input, d, data[d.at..limit]);
      }
    }
  }

  lemma RestIsSuffix(input: Bytes, d: Decoded, rest: Bytes)
    requires ReadLengths(input) == Some((d.shared, d.nonShared, d.valueLength, rest))
    ensures |rest| <= |input| && rest == input[|input| - |rest|..] && SpellsLengths(input, d, rest)
  {
    hide SpellsVarint32, ReadLengths;
    LengthsAreSpelled(input, d, rest);
    var a: Bytes, b: Bytes, c: Bytes :|
      SpellsVarint32(a, d.shared) && SpellsVarint32(b, d.nonShared) && SpellsVarint32(c, d.valueLength) && input == a + (b + (c + rest));
    assert input[|a| + |b| + |c|..] == rest;
  }

  /** Exactly the entries whose lengths add up in 32 bits stay inside the limit. */
  lemma AcceptedFits(data: Bytes, p: nat, limit: nat)
    requires limit <= |data| && limit < TWO_32 && DecodeEntryAt(data, p, limit).Some?
    ensures var d := DecodeEntryAt(data, p, limit).value; d.Fits(limit) <==> d.nonShared + d.valueLength < TWO_32
  {
    hide ReadLengths;
    LengthsShrink(data[p..limit]);
  }

  /** Nine bytes that are accepted as an entry of more than 4 GiB: 2^32 - 1 key bytes and two
      value bytes add up to one. */
  lemma WrappedEntry()
    ensures var data: Bytes := [0, 255, 255, 255, 255, 15, 2, 0, 0];
            var r := DecodeEntryAt(data, 0, 9);
            r == Some(Decoded(0, TWO_32 - 1, 2, 7)) && !r.value.Fits(9)
  {
    hide PutVarint, ReadLengths;
    var data: Bytes, tail: Bytes := [0, 255, 255, 255, 255, 15, 2, 0, 0], [0, 0];
    WrappedVarints();
    LengthsRoundTrip(0, TWO_32 - 1, 2, tail);
    assert data[0..9] == PutVarint(0) + (PutVarint(TWO_32 - 1) + (PutVarint(2) + tail));
  }

  lemma WrappedVarints()
    ensures PutVarint(0) == [0] && PutVarint(2) == [2] && PutVarint(TWO_32 - 1) == [255, 255, 255, 255, 15]
  {
    assert PutVarint(0x7ff) == [255] + PutVarint(15);
    assert PutVarint(0x3_ffff) == [255] + PutVarint(0x7ff);
    assert PutVarint(0x1ff_ffff) == [255] + PutVarint(0x3_ffff);
  }

  lemma OneByte(b: Byte, rest: Bytes)
    requires b < 128
    ensures GetVarint32([b] + rest) == Some((b, rest))
  {
    assert PutVarint(b) == [b];
    Varint32RoundTrip(b, rest);
  }

  lemma FastPath(input: Bytes)
    requires |input| >= 3 && input[0] < 128 && input[1] < 128 && input[2] < 128
    ensures ReadLengths(input) == Some((input[0], input[1], input[2], input[3..]))
  {
    assert input == [input[0]] + input[1..] && input[1..] == [input[1]] + input[2..] && input[2..] == [input[2]] + input[3..];
    OneByte(input[0], input[1..]);
    OneByte(input[1], input[2..]);
    OneByte(input[2], input[3..]);
  }

  /** `DecodeEntry`. */
  method DecodeEntry(data: Bytes, p: nat, limit: nat) returns (r: Option<Decoded>)
    requires limit <= |data|
    ensures r == DecodeEntryAt(data, p, limit)
  {
    if limit < p + 3 {
      return None;
    }
    var input := data[p..limit];
    if input[0] < 128 && input[1] < 128 && input[2] < 128 {
      // The one-byte form of all three lengths
      FastPath(input);
      if Low32(limit - (p + 3)) < Low32(input[1] + input[2]) {
        return None;
      }
      return Some(Decoded(input[0], input[1], input[2], p + 3));
    }
    r := DecodeEntryAt(data, p, limit);
  }

  lemma LengthsRoundTrip(a: nat, b: nat, c: nat, rest: Bytes)
    requires a < TWO_32 && b < TWO_32 && c < TWO_32
    ensures ReadLengths(PutVarint(a) + (PutVarint(b) + (PutVarint(c) + rest))) == Some((a, b, c, rest))
  {
    Varint32RoundTrip(a, PutVarint(b) + (PutVarint(c) + rest));
    Varint32RoundTrip(b, PutVarint(c) + rest);
    Varint32RoundTrip(c, rest);
  }

  /** An entry written at `p` is decoded with its key delta and value in place. */
  lemma EntryDecoded(data: Bytes, p: nat, limit: nat, shared: nat, e: Entry)
    requires shared <= |e.key| < TWO_32 && |e.value| < TWO_32
    requires Holds(data, p, EncodeEntry(shared, e)) && p + |EncodeEntry(shared, e)| <= limit <= |data| && limit < TWO_32
    ensures var end := p + |EncodeEntry(shared, e)|;
            var r := DecodeEntryAt(data, p, limit);
            && r.Some? && r.value.shared == shared && r.value.at + r.value.nonShared + r.value.valueLength == end
            && data[r.value.at..r.value.at + r.value.nonShared] == e.key[shared..]
            && data[r.value.at + r.value.nonShared..end] == e.value
  {
    hide PutVarint, ReadLengths;
    var a, b, c := PutVarint(shared), PutVarint(|e.key| - shared), PutVarint(|e.value|);
    var delta := e.key[shared..];
    var end := p + |EncodeEntry(shared, e)|;
    var rest := data[end..limit];
    SplitEntry(data, p, limit, a, b, c, delta, e.value);
    LengthsRoundTrip(shared, |delta|, |e.value|, delta + e.value + rest);
  }

  lemma SplitEntry(data: Bytes, p: nat, limit: nat, a: Bytes, b: Bytes, c: Bytes, delta: Bytes, value: Bytes)
    requires Holds(data, p, a + (b + (c + (delta + value))))
    requires var end := p + |a| + |b| + |c| + |delta| + |value|; end <= limit <= |data|
    ensures var at := p + |a| + |b| + |c|;
            var end := at + |delta| + |value|;
            && data[p..limit] == a + (b + (c + (delta + value + data[end..limit])))
            && data[at..at + |delta|] == delta && data[at + |delta|..end] == value
  {
    var at := p + |a| + |b| + |c|;
    var end := at + |delta| + |value|;
    HoldsSplit(data, p, a, b + (c + (delta + value)));
    HoldsSplit(data, p + |a|, b, c + (delta + value));
    HoldsSplit(data, p + |a| + |b|, c, delta + value);
    HoldsSplit(data, at, delta, value);
    assert data[p..limit] == data[p..end] + data[end..limit];
    assert data[p..end] == a + (b + (c + (delta + value)));
    var rest := data[end..limit];
    assert (a + (b + (c + (delta + value)))) + rest == a + (b + (c + (delta + value + rest)));
  }

  /** No entry that can be accepted has lengths that add up to 2^32 or more. */
  ghost predicate WrapFree(data: Bytes, limit: nat)
    requires limit <= |data|
  {
    forall p: nat :: p < limit && DecodeEntryAt(data, p, limit).Some? ==>
      DecodeEntryAt(data, p, limit).value.nonShared + DecodeEntryAt(data, p, limit).value.valueLength < TWO_32
  }

  // ------------------------------------------------------------------- a good block

  /** The bytes are a finished block of these entries. */
  ghost predicate Good(data: Bytes, lt: KeyOrder, interval: nat, es: seq<Entry>) {
    && data == Finished(interval, es) && |data| < TWO_32
    && WeakOrder(lt) && Increasing(lt, es)
  }

  lemma {:induction false} DataHolds(data: Bytes, interval: nat, es: seq<Entry>, n: nat, i: nat)
    requires i < n <= |es| && Data(interval, es, n) <= data
    ensures Holds(data, Offset(interval, es, i), EncodeEntry(SharedAt(interval, es, i), es[i]))
    ensures Offset(interval, es, i + 1) == Offset(interval, es, i) + |EncodeEntry(SharedAt(interval, es, i), es[i])|
    ensures Offset(interval, es, i + 1) <= Offset(interval, es, n)
  {
    hide EncodeEntry, SharedAt;
    if i + 1 < n {
      DataHolds(data, interval, es, n - 1, i);
    } else {
      var before, more := Data(interval, es, i), EncodeEntry(SharedAt(interval, es, i), es[i]);
      assert data[..|before + more|] == before + more;
      assert data[|before|..|before| + |more|] == (before + more)[|before|..];
    }
  }

  lemma EntryLength(shared: nat, e: Entry)
    requires shared <= |e.key|
    ensures |EncodeEntry(shared, e)| == |PutVarint(shared)| + |PutVarint(|e.key| - shared)| + |PutVarint(|e.value|)| + (|e.key| - shared) + |e.value|
    ensures |EncodeEntry(shared, e)| >= 3
  {
  }

  lemma {:induction false} OffsetsGrow(interval: nat, es: seq<Entry>, i: nat, j: nat)
    requires i <= j <= |es|
    ensures Offset(interval, es, i) + 3 * (j - i) <= Offset(interval, es, j)
  {
    if i < j {
      OffsetsGrow(interval, es, i, j - 1);
      EntryLength(SharedAt(interval, es, j - 1), es[j - 1]);
    }
  }

  /** All key and value lengths fit their varints. */
  lemma {:induction false} KeysFit(interval: nat, es: seq<Entry>, i: nat)
    requires i < |es| && Offset(interval, es, |es|) < TWO_32
    ensures |es[i].key| < TWO_32 && |es[i].value| < TWO_32
    decreases i
  {
    DataHolds(Data(interval, es, |es|), interval, es, |es|, i);
    EntryLength(SharedAt(interval, es, i), es[i]);
    KeyLength(interval, es, i);
  }

  /** A key is no longer than the data up to its entry: what it shares was written before. */
  lemma {:induction false} KeyLength(interval: nat, es: seq<Entry>, i: nat)
    requires i < |es|
    ensures |es[i].key| <= Offset(interval, es, i + 1)
    decreases i
  {
    hide EncodeEntry, SharedAt, Common, Counter;
    EntryLength(SharedAt(interval, es, i), es[i]);
    if SharedAt(interval, es, i) > 0 {
      KeyLength(interval, es, i - 1);
    }
  }

  /** The entries of a finished block never wrap: each is accepted and ends inside. */
  lemma FinishedNeverWraps(data: Bytes, lt: KeyOrder, interval: nat, es: seq<Entry>, i: nat)
    requires Good(data, lt, interval, es) && i < |es|
    ensures var restarts := Offset(interval, es, |es|);
            && restarts <= |data|
            && var r := DecodeEntryAt(data, Offset(interval, es, i), restarts);
            && r.Some? && r.value.nonShared + r.value.valueLength < TWO_32 && r.value.Fits(restarts)
  {
    hide Data, EncodeEntry, DecodeEntryAt, Counter, Common, RestartEntries;
    BlockParts(interval, es);
    DataHolds(data, interval, es, |es|, i);
    KeysFit(interval, es, i);
    EntryDecoded(data, Offset(interval, es, i), Offset(interval, es, |es|), SharedAt(interval, es, i), es[i]);
    AcceptedFits(data, Offset(interval, es, i), Offset(interval, es, |es|));
  }

  function RestartPoint(data: Bytes, restarts: nat, index: nat): nat
    requires restarts + 4 * index + 4 <= |data|
  {
    DecodeFixed(data[restarts + 4 * index..restarts + 4 * index + 4])
  }

  lemma {:induction false} WordsHold(data: Bytes, at: nat, words: seq<nat>, k: nat)
    requires Holds(data, at, Flat(EncodeWord, words)) && k < |words|
    ensures Holds(data, at + 4 * k, EncodeWord(words[k]))
    decreases k
  {
    HoldsSplit(data, at, EncodeWord(words[0]), Flat(EncodeWord, words[1..]));
    if k > 0 {
      WordsHold(data, at + 4, words[1..], k - 1);
    }
  }

  lemma {:induction false} WordsLength(words: seq<nat>)
    ensures |Flat(EncodeWord, words)| == 4 * |words|
  {
    if words != [] {
      WordsLength(words[1..]);
    }
  }

  /** Where the parts of a finished block are. */
  lemma BlockParts(interval: nat, es: seq<Entry>)
    ensures var data, points := Finished(interval, es), RestartPoints(interval, es, |es|);
            var restarts := Offset(interval, es, |es|);
            && Data(interval, es, |es|) <= data && |data| == restarts + 4 * |points| + 4
            && Holds(data, restarts, Flat(EncodeWord, points)) && Holds(data, |data| - 4, EncodeWord(|points|))
  {
    hide Data, RestartPoints, EncodeWord;
    var a, points := Data(interval, es, |es|), RestartPoints(interval, es, |es|);
    var b, c := Flat(EncodeWord, points), EncodeWord(|points|);
    WordsLength(points);
    WordLength(|points|);
    var data := a + (b + c);
    assert data[|a|..|a| + |b|] == b && data[|a| + |b|..] == c;
    assert data[..|a|] == a;
  }

  lemma WordLength(n: nat)
    ensures |EncodeWord(n)| == 4
  {
  }

  lemma WordRead(data: Bytes, at: nat, n: nat)
    requires Holds(data, at, EncodeWord(n)) && n < TWO_32
    ensures DecodeFixed(data[at..at + 4]) == n
  {
    Powers();
    FixedRoundTrip(n, 4);
  }

  /** The restart array of a good block is read back. */
  lemma RestartsRead(data: Bytes, lt: KeyOrder, interval: nat, es: seq<Entry>, k: nat)
    requires Good(data, lt, interval, es) && k < |RestartEntries(interval, |es|)|
    ensures var restarts := Offset(interval, es, |es|);
            && restarts + 4 * k + 4 <= |data| && RestartEntries(interval, |es|)[k] <= |es|
            && RestartPoint(data, restarts, k) == Offset(interval, es, RestartEntries(interval, |es|)[k])
  {
    hide Data, EncodeWord, Flat;
    BlockParts(interval, es);
    var points := RestartPoints(interval, es, |es|);
    WordsHold(data, Offset(interval, es, |es|), points, k);
    OffsetsGrow(interval, es, RestartEntries(interval, |es|)[k], |es|);
    WordRead(data, Offset(interval, es, |es|) + 4 * k, points[k]);
  }

  // ------------------------------------------------------------------- the iterator

  class Iter {
    const lt: KeyOrder
    const data: Bytes
    const restarts: nat          // offset of the restart array
    const numRestarts: nat
    var current: nat             // offset of the current entry; >= restarts if not valid
    var restartIndex: nat
    var key: Bytes
    var value: Bytes
    var next: nat                // NextEntryOffset()
    var corrupted: bool
    var outside: bool            // an accepted entry reached beyond the entries of the block

    // The entries a good block was built from, and the one the iterator is at.
    ghost const interval: nat
    ghost const es: seq<Entry>
    ghost var pos: nat

    ghost predicate IsGood() {
      Good(data, lt, interval, es) && restarts == Offset(interval, es, |es|) && numRestarts == |RestartEntries(interval, |es|)|
    }

    ghost predicate Inv()
      reads this
    {
      && numRestarts > 0 && restarts + 4 * numRestarts + 4 <= |data| && restarts < TWO_32
      && (Valid() ==> restartIndex < numRestarts && ValueInPlace())
      && (WrapFree(data, restarts) ==> !outside)
      && (IsGood() ==> pos <= |es| && !corrupted && !outside && if pos < |es| then On(pos) else !Valid())
    }

    /** The value is where the entry has it, in front of the next one. */
    ghost predicate ValueInPlace()
      reads this
    {
      |value| <= next <= |data| && value == data[next - |value|..next]
    }

    predicate Valid()
      reads this
    {
      current < restarts
    }

    ghost predicate On(i: nat)
      requires i < |es| && numRestarts > 0
      reads this
    {
      && current == Offset(interval, es, i) < restarts && key == es[i].key && value == es[i].value
      && next == Offset(interval, es, i + 1)
      && Region(restartIndex, i)
      && (restartIndex + 1 < numRestarts ==> i <= RestartEntry(restartIndex + 1))
    }

    ghost function RestartEntry(k: nat): nat {
      var at := RestartEntries(interval, |es|);
      if k < |at| then at[k] else 0
    }

    /** Restart point `k` is at or before entry `i`. */
    ghost predicate Region(k: nat, i: nat) {
      k < numRestarts && RestartEntry(k) <= i
    }

    /** The next entry to parse is `j`, and `key` holds what it may share. */
    ghost predicate Ready(j: nat)
      requires interval >= 0
      reads this
    {
      && j <= |es| && next == Offset(interval, es, j) && Region(restartIndex, j)
      && (j < |es| && SharedAt(interval, es, j) > 0 ==> key == es[j - 1].key)
      && !corrupted && !outside
    }

    constructor (lt: KeyOrder, data: Bytes, restarts: nat, numRestarts: nat, ghost interval: nat, ghost es: seq<Entry>)
      requires numRestarts > 0 && restarts + 4 * numRestarts + 4 <= |data| && restarts < TWO_32
      ensures Inv() && !Valid() && !corrupted && !outside && pos == |es|
      ensures this.lt == lt && this.data == data && this.restarts == restarts && this.numRestarts == numRestarts
      ensures this.interval == interval && this.es == es
    {
      this.lt, this.data, this.restarts, this.numRestarts := lt, data, restarts, numRestarts;
      current, restartIndex, key, value, next, corrupted, outside := restarts, numRestarts, [], [], 0, false, false;
      this.interval, this.es, pos := interval, es, |es|;
    }

    method SeekToRestartPoint(index: nat)
      requires restarts + 4 * numRestarts + 4 <= |data| && index < numRestarts
      requires IsGood() ==> !corrupted && !outside
      modifies this`key, this`restartIndex, this`next, this`value
      ensures restartIndex == index && next == RestartPoint(data, restarts, index)
      ensures IsGood() ==> Ready(RestartEntry(index))
    {
      key, restartIndex, value := [], index, [];
      next := RestartPoint(data, restarts, index);
      if IsGood() {
        RestartsRead(data, lt, interval, es, index);
      }
    }

    method CorruptionError()
      modifies this`current, this`restartIndex, this`key, this`value, this`corrupted
      ensures !Valid() && corrupted
    {
      current, restartIndex, key, value, corrupted := restarts, numRestarts, [], [], true;
    }

    /** What the program reads lies behind the entries; the model stops there. */
    method LeaveBlock()
      modifies this`current, this`restartIndex, this`key, this`value, this`outside
      ensures !Valid() && outside
    {
      current, restartIndex, key, value, outside := restarts, numRestarts, [], [], true;
    }

    /** The entry at `p` is accepted behind a key of `n` bytes, but its lengths do not add up
        in 32 bits. */
    ghost predicate Wraps(p: nat, n: nat)
      requires restarts <= |data|
    {
      var d := DecodeEntryAt(data, p, restarts);
      p < restarts && d.Some? && d.value.shared <= n && d.value.nonShared + d.value.valueLength >= TWO_32
    }

    /** There is no entry at `p` that a key of `n` bytes can stand before. */
    ghost predicate Malformed(p: nat, n: nat)
      requires restarts <= |data|
    {
      var d := DecodeEntryAt(data, p, restarts);
      p < restarts && (d.None? || n < d.value.shared)
    }

    /** Key and value are those of the entry at `p`, behind the key `before`. */
    ghost predicate Shows(p: nat, before: Bytes)
      requires restarts <= |data|
      reads this`key, this`value, this`next
    {
      var d := DecodeEntryAt(data, p, restarts);
      && d.Some? && d.value.shared <= |before| && d.value.Fits(restarts)
      && var valueAt := d.value.at + d.value.nonShared;
         && key == before[..d.value.shared] + data[d.value.at..valueAt]
         && value == data[valueAt..valueAt + d.value.valueLength] && next == valueAt + d.value.valueLength
    }

    /** Moves to the entry that starts at `next`; `j` is its index in a good block. */
    method ParseNextKey(ghost j: nat) returns (ok: bool)
      requires numRestarts > 0 && restarts + 4 * numRestarts + 4 <= |data| && restarts < TWO_32 && restartIndex < numRestarts
      requires WrapFree(data, restarts) ==> !outside
      requires IsGood() ==> Ready(j)
      modifies this
      ensures Inv() && (ok <==> Valid())
      ensures ok ==> old(next) + 3 <= next <= restarts && current == old(next)
      ensures ok ==> Shows(old(next), old(key))
      ensures corrupted <==> old(corrupted) || Malformed(old(next), |old(key)|)
      ensures outside <==> old(outside) || Wraps(old(next), |old(key)|)
      ensures IsGood() ==> pos == j && (ok <==> j < |es|)
    {
      hide Good, Data, RestartEntries, DecodeEntryAt, SharedAt, RestartPoint, Shows, Malformed, Wraps;
      pos := j;
      current := next;
      Judged(next, |key|);
      if current >= restarts {
        // Behind the last entry
        AtTheEnd(j);
        current, restartIndex := restarts, numRestarts;
        return false;
      }
      InTheData(j);
      var d := DecodeEntry(data, current, restarts);
      if d.None? || |key| < d.value.shared {
        CorruptionError();
        return false;
      }
      if !d.value.Fits(restarts) {
        LeaveBlock();
        return false;
      }
      TakeEntry(d.value, j);
      AdvanceRestartIndex(j);
      ok := true;
    }

    /** Key and value of an accepted entry. */
    method TakeEntry(d: Decoded, ghost j: nat)
      requires restarts <= |data| && DecodeEntryAt(data, current, restarts) == Some(d)
      requires d.shared <= |key| && d.Fits(restarts)
      requires IsGood() ==> EntryIs(d, j)
      modifies this`key, this`value, this`next
      ensures Shows(current, old(key)) && current + 3 <= next <= restarts && ValueInPlace()
      ensures IsGood() ==> j < |es| && key == es[j].key && value == es[j].value && next == Offset(interval, es, j + 1)
    {
      hide Good, Data, RestartEntries;
      var valueAt := d.at + d.nonShared;
      key := key[..d.shared] + data[d.at..valueAt];
      value := data[valueAt..valueAt + d.valueLength];
      next := valueAt + d.valueLength;
    }

    /** The decoded entry, behind the present key, is entry `j` of a good block. */
    ghost predicate EntryIs(d: Decoded, j: nat)
      reads this`key
    {
      && j < |es| && d.shared <= |key| && d.Fits(restarts) && restarts <= |data|
      && var valueAt := d.at + d.nonShared;
         && key[..d.shared] + data[d.at..valueAt] == es[j].key
         && data[valueAt..valueAt + d.valueLength] == es[j].value
         && valueAt + d.valueLength == Offset(interval, es, j + 1)
    }

    lemma Judged(p: nat, n: nat)
      requires restarts <= |data| && restarts < TWO_32
      ensures var d := DecodeEntryAt(data, p, restarts);
              if p < restarts && (d.None? || n < d.value.shared) then Malformed(p, n) && !Wraps(p, n)
              else !Malformed(p, n) && (Wraps(p, n) <==> p < restarts && !d.value.Fits(restarts))
      ensures Wraps(p, n) ==> !WrapFree(data, restarts)
    {
      hide DecodeEntryAt;
      if DecodeEntryAt(data, p, restarts).Some? {
        AcceptedFits(data, p, restarts);
      }
    }

    lemma AtTheEnd(j: nat)
      requires IsGood() ==> Ready(j)
      requires next >= restarts
      ensures IsGood() ==> j == |es|
    {
      if IsGood() {
        OffsetsGrow(interval, es, j, |es|);
      }
    }

    /** The entry that ParseNextKey finds in a good block. */
    lemma InTheData(j: nat)
      requires restarts <= |data| && (IsGood() ==> Ready(j)) && next < restarts
      ensures IsGood() ==> var d := DecodeEntryAt(data, next, restarts); d.Some? && EntryIs(d.value, j)
    {
      hide Good, Data, DecodeEntryAt, RestartEntries, SharedAt;
      if IsGood() {
        OffsetsGrow(interval, es, j, |es|);
        EntryInData(j);
        OffsetsGrow(interval, es, j + 1, |es|);
      }
    }

    lemma EntryInData(j: nat)
      requires restarts <= |data| && IsGood() && Ready(j) && j < |es|
      ensures var d := DecodeEntryAt(data, next, restarts); d.Some? && EntryIs(d.value, j)
    {
      hide Data, EncodeEntry, DecodeEntryAt, Counter, Common, RestartEntries;
      BlockParts(interval, es);
      DataHolds(data, interval, es, |es|, j);
      KeysFit(interval, es, j);
      var shared := SharedAt(interval, es, j);
      EntryDecoded(data, next, restarts, shared, es[j]);
      assert es[j].key[..shared] + es[j].key[shared..] == es[j].key;
    }

    /** The restart index follows the current entry. */
    method AdvanceRestartIndex(ghost j: nat)
      requires numRestarts > 0 && restarts + 4 * numRestarts + 4 <= |data| && restartIndex < numRestarts
      requires IsGood() ==> j < |es| && current == Offset(interval, es, j) && Region(restartIndex, j)
      modifies this`restartIndex
      ensures restartIndex < numRestarts
      ensures IsGood() ==> Region(restartIndex, j) && (restartIndex + 1 < numRestarts ==> j <= RestartEntry(restartIndex + 1))
    {
      hide Good, Data, RestartEntries, RestartPoint;
      while restartIndex + 1 < numRestarts && RestartPoint(data, restarts, restartIndex + 1) < current
        invariant restartIndex < numRestarts
        invariant IsGood() ==> Region(restartIndex, j)
      {
        RestartBefore(restartIndex + 1, j);
        restartIndex := restartIndex + 1;
      }
      if restartIndex + 1 < numRestarts {
        RestartBefore(restartIndex + 1, j);
      }
    }

    /** Restart points are ordered as their entries are. */
    lemma RestartBefore(k: nat, j: nat)
      requires k < numRestarts && restarts + 4 * numRestarts + 4 <= |data|
      ensures IsGood() && j <= |es| ==> (RestartPoint(data, restarts, k) < Offset(interval, es, j) <==> RestartEntry(k) < j)
    {
      if IsGood() && j <= |es| {
        RestartsRead(data, lt, interval, es, k);
        if RestartEntry(k) < j {
          OffsetsGrow(interval, es, RestartEntry(k), j);
        } else {
          OffsetsGrow(interval, es, j, RestartEntry(k));
        }
      }
    }

    method Next()
      requires Inv() && Valid()
      modifies this
      ensures Inv() && (IsGood() ==> pos == old(pos) + 1)
      ensures outside <==> old(outside) || Wraps(old(next), |old(key)|)
    {
      var ok := ParseNextKey(pos + 1);
    }

    method SeekToFirst()
      requires Inv()
      modifies this
      ensures Inv() && (IsGood() ==> pos == 0)
    {
      SeekToRestartPoint(0);
      FirstRestart();
      var ok := ParseNextKey(0);
    }

    lemma FirstRestart()
      ensures RestartEntry(0) == 0
    {
    }

    method SeekToLast()
      requires Inv()
      modifies this
      ensures Inv() && (IsGood() ==> pos == if es == [] then 0 else |es| - 1)
    {
      hide Good, Data, RestartEntries, SharedAt, RestartPoint, Shows, Malformed, Wraps;
      SeekToRestartPoint(numRestarts - 1);
      ghost var j := RestartEntry(numRestarts - 1);
      LastRestart();
      var ok := ParseNextKey(j);
      while ok && next < restarts
        invariant Inv() && (ok <==> Valid()) && (ok ==> next <= restarts)
        invariant IsGood() ==> pos == j && (ok || es == [])
        decreases ok, restarts - next
      {
        NextEntry(j);
        j := j + 1;
        ok := ParseNextKey(j);
      }
      if ok {
        LastEntry(j);
      }
    }

    /** Behind an entry that does not end the data comes another. */
    lemma NextEntry(j: nat)
      requires IsGood() ==> j < |es|
      ensures IsGood() ==> (Offset(interval, es, j + 1) < restarts <==> j + 1 < |es|)
    {
      if IsGood() {
        OffsetsGrow(interval, es, j + 1, |es|);
      }
    }

    lemma LastEntry(j: nat)
      requires IsGood() ==> j < |es| && Offset(interval, es, j + 1) >= restarts
      ensures IsGood() ==> j == |es| - 1
    {
      NextEntry(j);
    }

    lemma LastRestart()
      ensures numRestarts > 0 && IsGood() ==> RestartEntry(numRestarts - 1) < |es| || es == []
    {
    }

    /** Finds the restart point before this entry, then the entry right before it. */
    method Prev()
      requires Inv() && Valid()
      modifies this
      ensures Inv() && (IsGood() ==> pos == if old(pos) == 0 then |es| else old(pos) - 1)
    {
      hide Good, Data, RestartEntries, SharedAt, RestartPoint, ValueInPlace, WrapFree, Shows, Malformed, Wraps;
      var original := current;
      ghost var i := pos;
      while RestartPoint(data, restarts, restartIndex) >= original
        invariant restartIndex < numRestarts && current == old(current) && pos == old(pos)
        invariant key == old(key) && value == old(value) && next == old(next) && corrupted == old(corrupted) && outside == old(outside)
        decreases restartIndex
      {
        RestartBefore(restartIndex, i);
        if restartIndex == 0 {
          // No more entries
          FirstRestart();
          current, restartIndex, pos := restarts, numRestarts, |es|;
          return;
        }
        restartIndex := restartIndex - 1;
      }
      RestartBefore(restartIndex, i);
      ghost var j := RestartEntry(restartIndex);
      SeekToRestartPoint(restartIndex);
      var ok := ParseNextKey(j);
      while ok && next < original
        invariant Inv() && (ok <==> Valid()) && (ok ==> next <= restarts)
        invariant IsGood() ==> ok && pos == j < i
        decreases ok, restarts - next
      {
        BeforeEntry(j, i, original);
        j := j + 1;
        ok := ParseNextKey(j);
      }
      BeforeEntry(j, i, original);
    }

    lemma BeforeEntry(j: nat, i: nat, original: nat)
      requires IsGood() ==> j < i <= |es| && original == Offset(interval, es, i)
      ensures IsGood() ==> (Offset(interval, es, j + 1) < original <==> j + 1 < i)
    {
      hide Good, Data, RestartEntries;
      if IsGood() {
        OffsetsGrow(interval, es, j + 1, i);
      }
    }

    /** The first entry at or after the target. */
    ghost predicate IsSeek(target: Bytes, p: nat) {
      && p <= |es|
      && (forall j :: 0 <= j < p ==> lt(es[j].key, target))
      && (p < |es| ==> !lt(es[p].key, target))
    }

    /** Everything before restart point `k` is below the target. */
    ghost predicate AllBelow(target: Bytes, k: nat) {
      k < numRestarts && forall j :: 0 <= j < RestartEntry(k) && j < |es| ==> lt(es[j].key, target)
    }

    /** Binary search: the last restart point whose key is below the target. */
    method FindRegion(target: Bytes) returns (ok: bool, left: nat)
      requires Inv()
      modifies this
      ensures Inv() && left < numRestarts
      ensures ok ==> corrupted == old(corrupted)
      ensures IsGood() ==> ok && AllBelow(target, left)
    {
      hide Good, Data, RestartEntries, SharedAt, RestartPoint;
      left, ok := 0, true;
      var right: nat := numRestarts - 1;
      FirstRestart();
      while left < right
        invariant left <= right < numRestarts && unchanged(this)
        invariant IsGood() ==> AllBelow(target, left)
      {
        var mid: nat := (left + right + 1) / 2;
        var d := DecodeEntry(data, RestartPoint(data, restarts, mid), restarts);
        RestartKey(mid);
        if d.None? || d.value.shared != 0 {
          CorruptionError();
          return false, left;
        }
        AcceptedFits(data, RestartPoint(data, restarts, mid), restarts);
        if d.value.at + d.value.nonShared > restarts {
          LeaveBlock();
          return false, left;
        }
        if lt(data[d.value.at..d.value.at + d.value.nonShared], target) {
          // The answer is at mid or behind it
          MidBelow(target, mid);
          left := mid;
        } else {
          right := mid - 1;
        }
      }
    }

    method Seek(target: Bytes)
      requires Inv()
      modifies this
      ensures Inv() && (IsGood() ==> IsSeek(target, pos))
    {
      hide Good, Data, RestartEntries, SharedAt, RestartPoint, Shows, Malformed, Wraps;
      var found, left := FindRegion(target);
      if !found {
        return;
      }
      // Linear search within the restart block
      SeekToRestartPoint(left);
      ghost var j := RestartEntry(left);
      var ok := ParseNextKey(j);
      while ok && lt(key, target)
        invariant j >= 0 && Inv() && (ok <==> Valid()) && (ok ==> next <= restarts)
        invariant IsGood() ==> pos == j <= |es| && (ok <==> j < |es|)
        invariant IsGood() ==> forall i :: 0 <= i < j ==> lt(es[i].key, target)
        decreases ok, restarts - next
      {
        j := j + 1;
        ok := ParseNextKey(j);
      }
    }

    /** The key at a restart point stands in the data uncompressed. */
    lemma RestartKey(k: nat)
      requires k < numRestarts && restarts + 4 * numRestarts + 4 <= |data|
      ensures IsGood() && es != [] ==>
        var d := DecodeEntryAt(data, RestartPoint(data, restarts, k), restarts);
        && RestartEntry(k) < |es| && d.Some? && d.value.shared == 0 && d.value.Fits(restarts)
        && data[d.value.at..d.value.at + d.value.nonShared] == es[RestartEntry(k)].key
      ensures IsGood() && es == [] ==> numRestarts == 1
    {
      if IsGood() && es != [] {
        RestartKeyIn(k);
      }
    }

    lemma RestartKeyIn(k: nat)
      requires k < numRestarts && restarts + 4 * numRestarts + 4 <= |data| && IsGood() && es != []
      ensures
        var d := DecodeEntryAt(data, RestartPoint(data, restarts, k), restarts);
        && RestartEntry(k) < |es| && d.Some? && d.value.shared == 0 && d.value.Fits(restarts)
        && data[d.value.at..d.value.at + d.value.nonShared] == es[RestartEntry(k)].key
    {
      hide Data, EncodeEntry, DecodeEntryAt, Counter, Common;
      var j := RestartEntry(k);
      RestartsRead(data, lt, interval, es, k);
      BlockParts(interval, es);
      DataHolds(data, interval, es, |es|, j);
      KeysFit(interval, es, j);
      assert SharedAt(interval, es, j) == 0;
      EntryDecoded(data, Offset(interval, es, j), restarts, 0, es[j]);
      assert es[j].key[0..] == es[j].key;
    }

    lemma MidBelow(target: Bytes, k: nat)
      requires k < numRestarts && (IsGood() ==> RestartEntry(k) < |es| && lt(es[RestartEntry(k)].key, target))
      ensures IsGood() ==> AllBelow(target, k)
    {
      if IsGood() {
        var e := RestartEntry(k);
        forall j | 0 <= j < e ensures lt(es[j].key, target) {
          Transitive(lt, es[j].key, es[e].key, target);
        }
      }
    }
  }

  /** `Block::NewIterator`: the iterator, if there is anything to iterate over. */
  datatype Opened = BadContents | Empty | Iterate(restarts: nat, numRestarts: nat)

  method OpenBlock(data: Bytes) returns (r: Opened)
    ensures r.Iterate? ==> r.numRestarts > 0 && r.restarts + 4 * r.numRestarts + 4 <= |data| && r.restarts < TWO_32
    ensures forall lt, interval, es :: Good(data, lt, interval, es) ==>
      r == Iterate(Offset(interval, es, |es|), |RestartEntries(interval, |es|)|)
  {
    hide Good;
    forall lt: KeyOrder, interval: nat, es: seq<Entry> | Good(data, lt, interval, es)
      ensures OpensAs(data, Offset(interval, es, |es|), |RestartEntries(interval, |es|)|)
    {
      GoodOpens(data, lt, interval, es);
    }
    if |data| < 4 {
      return BadContents;
    }
    var numRestarts := DecodeFixed(data[|data| - 4..]);
    if numRestarts > (|data| - 4) / 4 {
      return BadContents;
    }
    if numRestarts == 0 {
      return Empty;
    }
    r := Iterate(Low32(|data| - (1 + numRestarts) * 4), numRestarts);
  }

  ghost predicate OpensAs(data: Bytes, restarts: nat, numRestarts: nat) {
    |data| == restarts + 4 * numRestarts + 4 < TWO_32 && numRestarts > 0 && DecodeFixed(data[|data| - 4..]) == numRestarts
  }

  lemma GoodOpens(data: Bytes, lt: KeyOrder, interval: nat, es: seq<Entry>)
    requires Good(data, lt, interval, es)
    ensures OpensAs(data, Offset(interval, es, |es|), |RestartEntries(interval, |es|)|)
  {
    hide Data, EncodeWord, Flat;
    BlockParts(interval, es);
    var n := |RestartEntries(interval, |es|)|;
    WordRead(data, |data| - 4, n);
    assert data[|data| - 4..|data| - 4 + 4] == data[|data| - 4..];
  }

  // ------------------------------------------------------------------ round trip

  /** Reading a block from its first entry on gives what it was built from. */
  method ReadForward(data: Bytes, lt: KeyOrder, ghost interval: nat,
                     ghost es: seq<Entry>) returns (found: seq<Entry>, ok: bool)
    requires Good(data, lt, interval, es)
    ensures ok && found == es
  {
    hide Good, RestartEntries, Offset, RestartPoint, Iter.RestartEntry, Iter.Region, Iter.Ready;
    var parts := OpenBlock(data);
    var iter := new Iter(lt, data, parts.restarts, parts.numRestarts, interval, es);
    found := [];
    iter.SeekToFirst();
    while iter.Valid()
      invariant iter.Inv() && iter.IsGood() && fresh(iter) && iter.es == es
      invariant found == es[..iter.pos]
      decreases |es| - iter.pos
    {
      found := found + [Entry(iter.key, iter.value)];
      iter.Next();
    }
    assert es[..|es|] == es;
    ok := !iter.corrupted;
  }

  lemma FinishedIsGood(lt: KeyOrder, interval: nat, es: seq<Entry>)
    requires Increasing(lt, es) && WeakOrder(lt) && |Finished(interval, es)| < TWO_32
    ensures Good(Finished(interval, es), lt, interval, es)
  {
  }

  /** Whatever is added to a builder is read back from the finished bytes, for every restart
      interval. */
  method BuildAndRead(lt: KeyOrder, interval: nat, pairs: seq<Entry>) returns (found: seq<Entry>, ok: bool)
    requires interval >= 1 && Increasing(lt, pairs) && WeakOrder(lt) && |Finished(interval, pairs)| < TWO_32
    ensures ok && found == pairs
  {
    hide Finished, Increasing, WeakOrder, Good, Builder.Valid;
    var builder := new Builder(interval);
    for i := 0 to |pairs|
      invariant builder.Valid() && !builder.finished && builder.es == pairs[..i] && fresh(builder)
    {
      builder.Add(pairs[i].key, pairs[i].value);
    }
    assert pairs[..|pairs|] == pairs;
    var data := builder.Finish();
    FinishedIsGood(lt, interval, pairs);
    found, ok := ReadForward(data, lt, interval, pairs);
  }
}
