/** Write batches as bytes (db/write_batch.cc): a header of sequence number and count,
    then tagged records.  The same bytes go to the log and feed the memtable. */
module WriteBatch {
  import opened Wrappers
  import opened Coding
  import DbFormat

  const HEADER := 12
  const TYPE_DELETION: Byte := 0
  const TYPE_VALUE: Byte := 1

  datatype Op = Put(key: Bytes, value: Bytes) | Delete(key: Bytes) {
    /** Lengths fit the 32-bit prefixes. */
    predicate Encodable() {
      |key| < TWO_32 && (Put? ==> |value| < TWO_32)
    }
  }

  function EncodeOp(op: Op): Bytes {
    match op
    case Put(k, v) => [TYPE_VALUE] + PutLengthPrefixed(k) + PutLengthPrefixed(v)
    case Delete(k) => [TYPE_DELETION] + PutLengthPrefixed(k)
  }

  function EncodeOps(ops: seq<Op>): Bytes {
    Flat(EncodeOp, ops)
  }

  /** Contents of a batch: what `rep_` holds. */
  function Rep(first: nat, ops: seq<Op>): Bytes {
    EncodeFixed(first, 8) + EncodeFixed(|ops|, 4) + EncodeOps(ops)
  }

  /** The four bytes of the count. */
  function CountField(rep: Bytes): nat
    requires |rep| >= HEADER
  {
    DecodeFixed(rep[8..12])
  }

  /** `WriteBatchInternal::Count`: the field as an `int`. */
  function Count(rep: Bytes): int
    requires |rep| >= HEADER
  {
    var n := CountField(rep);
    if n >= TWO_31 then n - TWO_32 else n
  }

  function SequenceOf(rep: Bytes): nat
    requires |rep| >= HEADER
  {
    DecodeFixed(rep[..8])
  }

  lemma RepParts(first: nat, ops: seq<Op>)
    requires first < TWO_64 && |ops| < TWO_31
    ensures var rep := Rep(first, ops);
            |rep| >= HEADER && Count(rep) == |ops| && SequenceOf(rep) == first && rep[HEADER..] == EncodeOps(ops)
  {
    Powers();
    FixedRoundTrip(first, 8);
    FixedRoundTrip(|ops|, 4);
    var rep := Rep(first, ops);
    assert rep[..8] == EncodeFixed(first, 8);
    assert rep[8..12] == EncodeFixed(|ops|, 4);
  }

  datatype Status = Ok | Corruption

  /** One record off the front of `input`. */
  function ParseOp(input: Bytes): (r: Option<(Op, Bytes)>)
    requires input != []
    ensures r.Some? ==> |r.value.1| < |input|
  {
    var rest := input[1..];
    if input[0] == TYPE_VALUE then
      match GetLengthPrefixed(rest)
      case None => None
      case Some((k, afterKey)) =>
        match GetLengthPrefixed(afterKey)
        case None => None
        case Some((v, afterValue)) => ShorterRest(rest); ShorterRest(afterKey); Some((Put(k, v), afterValue))
    else if input[0] == TYPE_DELETION then
      match GetLengthPrefixed(rest)
      case None => None
      case Some((k, afterKey)) => ShorterRest(rest); Some((Delete(k), afterKey))
    else None
  }

  lemma ShorterRest(input: Bytes)
    ensures GetLengthPrefixed(input).Some? ==> |GetLengthPrefixed(input).value.1| <= |input|
  {
    ReadVarintLength(input, 5);
  }

  function NextOp(input: Bytes): Option<(Op, Bytes)> {
    if input == [] then None else ParseOp(input)
  }

  ghost function ParseOps(input: Bytes): (seq<Op>, bool) {
    ParseAll(NextOp, input)
  }

  lemma TaggedTail(tag: Byte, body: Bytes, rest: Bytes)
    ensures (([tag] + body) + rest)[0] == tag && (([tag] + body) + rest)[1..] == body + rest
  {
  }

  lemma ParseOpRoundTrip(op: Op, rest: Bytes)
    requires op.Encodable()
    ensures ParseOp(EncodeOp(op) + rest) == Some((op, rest))
  {
    match op
    case Put(k, v) =>
      var pk, pv := PutLengthPrefixed(k), PutLengthPrefixed(v);
      TaggedTail(TYPE_VALUE, pk + pv, rest);
      ConcatAssoc(pk, pv, rest);
      ConcatAssoc([TYPE_VALUE], pk, pv);
      LengthPrefixedRoundTrip(k, pv + rest);
      LengthPrefixedRoundTrip(v, rest);
    case Delete(k) =>
      TaggedTail(TYPE_DELETION, PutLengthPrefixed(k), rest);
      LengthPrefixedRoundTrip(k, rest);
  }

  lemma ParseOpsRoundTrip(ops: seq<Op>)
    requires forall op :: op in ops ==> op.Encodable()
    ensures ParseOps(EncodeOps(ops)) == (ops, true)
  {
    forall op, rest: Bytes | op in ops ensures ReadsBack(EncodeOp, NextOp, op, rest) {
      ParseOpRoundTrip(op, rest);
    }
    ParseAllRoundTrip(EncodeOp, NextOp, ops);
  }

  // -------------------------------------------------- what is accepted, exactly

  /** The bytes that stand for one update: a type byte, then one or two slices. */
  ghost predicate SpellsOp(bs: Bytes, op: Op) {
    match op
    case Put(k, v) => exists x: Bytes, y: Bytes :: SpellsSlice(x, k) && SpellsSlice(y, v) && bs == [1] + (x + y)
    case Delete(k) => exists x: Bytes :: SpellsSlice(x, k) && bs == [0] + x
  }

  /** What is parsed stands there. */
  lemma ParsedIsSpelled(input: Bytes) returns (bs: Bytes)
    requires input != [] && ParseOp(input).Some?
    ensures var (op, rest) := ParseOp(input).value; SpellsOp(bs, op) && input == bs + rest
  {
    hide SpellsSlice, GetLengthPrefixed;
    var rest := input[1..];
    var x := SpelledSlice(rest);
    if input[0] == TYPE_VALUE {
      var (k, afterKey) := GetLengthPrefixed(rest).value;
      var y := SpelledSlice(afterKey);
      var (v, afterValue) := GetLengthPrefixed(afterKey).value;
      bs := [1] + (x + y);
      ConcatAssoc(x, y, afterValue);
      ConcatAssoc([1], x + y, afterValue);
    } else {
      bs := [0] + x;
      ConcatAssoc([0], x, GetLengthPrefixed(rest).value.1);
    }
  }

  /** What stands there is parsed, whatever follows. */
  lemma SpelledIsParsed(bs: Bytes, op: Op, rest: Bytes)
    requires SpellsOp(bs, op)
    ensures ParseOp(bs + rest) == Some((op, rest))
  {
    hide SpellsSlice, GetLengthPrefixed;
    match op
    case Put(k, v) =>
      var x: Bytes, y: Bytes :| SpellsSlice(x, k) && SpellsSlice(y, v) && bs == [1] + (x + y);
      TaggedTail(1, x + y, rest);
      ConcatAssoc(x, y, rest);
      SliceIsRead(x, k, y + rest);
      SliceIsRead(y, v, rest);
    case Delete(k) =>
      var x: Bytes :| SpellsSlice(x, k) && bs == [0] + x;
      TaggedTail(0, x, rest);
      SliceIsRead(x, k, rest);
  }

  /** An update is accepted if and only if its bytes stand at the front. */
  lemma ParseOpExact(input: Bytes, op: Op, rest: Bytes)
    requires input != []
    ensures ParseOp(input) == Some((op, rest)) <==> exists bs :: SpellsOp(bs, op) && input == bs + rest
  {
    hide SpellsOp, ParseOp;
    if ParseOp(input).Some? {
      var bs := ParsedIsSpelled(input);
    }
    if bs :| SpellsOp(bs, op) && input == bs + rest {
      SpelledIsParsed(bs, op, rest);
    }
  }

  /** A memtable entry made from the `i`th record of a batch starting at `first`. */
  datatype Numbered = Numbered(seqno: nat, op: Op)

  function Number(first: nat, ops: seq<Op>): (r: seq<Numbered>)
    ensures |r| == |ops|
    ensures forall i :: 0 <= i < |ops| ==> r[i] == Numbered(first + i, ops[i])
  {
    seq(|ops|, i requires 0 <= i < |ops| => Numbered(first + i, ops[i]))
  }

  /** MemTable::Add packs a sequence number into 56 bits. */
  const SEQUENCE_LIMIT := DbFormat.MAX_SEQUENCE + 1

  /** The entries of a memtable made from the records of a batch, whatever its header says. */
  function Stored(first: nat, ops: seq<Op>): (r: seq<Numbered>)
    ensures |r| == |ops|
    ensures forall i :: 0 <= i < |ops| ==> r[i] == Numbered((first + i) % SEQUENCE_LIMIT, ops[i])
  {
    seq(|ops|, i requires 0 <= i < |ops| => Numbered((first + i) % SEQUENCE_LIMIT, ops[i]))
  }

  lemma StoredSnoc(first: nat, ops: seq<Op>, op: Op)
    ensures Stored(first, ops + [op]) == Stored(first, ops) + [Numbered((first + |ops|) % SEQUENCE_LIMIT, op)]
  {
  }

  /** Numbers that are in range are stored as they are. */
  lemma StoredInRange(first: nat, ops: seq<Op>)
    requires first + |ops| <= SEQUENCE_LIMIT
    ensures Stored(first, ops) == Number(first, ops)
  {
    forall i | 0 <= i < |ops| ensures Stored(first, ops)[i] == Number(first, ops)[i] {
      InRange(first + i);
    }
  }

  lemma InRange(n: nat)
    requires n < SEQUENCE_LIMIT
    ensures n % SEQUENCE_LIMIT == n
  {
  }

  lemma RecordAppended(head: Bytes, count: Bytes, body: Bytes, count': Bytes, record: Bytes)
    requires |head| == 8 && |count| == |count'| == 4
    ensures var rep := head + count + body;
            (rep[..8] + count' + rep[12..]) + record == head + count' + (body + record)
  {
    var rep := head + count + body;
    assert rep[..8] == head && rep[12..] == body;
    assert ((head + count') + body) + record == (head + count') + (body + record);
  }

  lemma AppendThree(rep: Bytes, a: Bytes, b: Bytes, c: Bytes)
    ensures ((rep + a) + b) + c == rep + ((a + b) + c)
  {
  }

  lemma OpsAssoc(done: seq<Op>, op: Op, later: seq<Op>)
    ensures done + ([op] + later) == (done + [op]) + later
  {
  }

  lemma NumberSnoc(first: nat, ops: seq<Op>, op: Op)
    ensures Number(first, ops + [op]) == Number(first, ops) + [Numbered(first + |ops|, op)]
  {
  }

  /** The loop of `WriteBatch::Iterate`, for any record parser. */
  method IterateRecords(next: Bytes -> Option<(Op, Bytes)>, records: Bytes, first: nat)
      returns (entries: seq<Numbered>, ok: bool, found: nat)
    requires Consuming(next)
    ensures entries == Stored(first, ParseAll(next, records).0) && ok == ParseAll(next, records).1
    ensures found == |entries|
  {
    var input, sequence := records, first;
    ghost var done: seq<Op> := [];
    entries, found := [], 0;
    while input != []
      invariant found == |done| && sequence == first + found
      invariant entries == Stored(first, done)
      invariant done + ParseAll(next, input).0 == ParseAll(next, records).0
      invariant ParseAll(next, input).1 == ParseAll(next, records).1
      decreases |input|
    {
      var r := next(input);
      if r.None? {
        return entries, false, found;
      }
      StoredSnoc(first, done, r.value.0);
      OpsAssoc(done, r.value.0, ParseAll(next, r.value.1).0);
      done := done + [r.value.0];
      entries := entries + [Numbered(sequence % SEQUENCE_LIMIT, r.value.0)];
      sequence, found := sequence + 1, found + 1;
      input := r.value.1;
    }
    ok := true;
  }

  /** `WriteBatch::Iterate` with the memtable inserter as its handler. */
  method Iterate(records: Bytes, first: nat) returns (entries: seq<Numbered>, ok: bool, found: nat)
    ensures entries == Stored(first, ParseOps(records).0) && ok == ParseOps(records).1
    ensures found == |entries|
  {
    entries, ok, found := IterateRecords(NextOp, records, first);
  }

  class Batch {
    var rep: Bytes

    // The updates of the batch and the sequence number in its header.
    ghost var ops: seq<Op>
    ghost var first: nat

    ghost predicate Valid()
      reads this
    {
      && rep == Rep(first, ops)
      && first < TWO_64 && |ops| < TWO_31
      && forall op :: op in ops ==> op.Encodable()
    }

    constructor ()
      ensures Valid() && ops == [] && first == 0
    {
      rep := EncodeFixed(0, 8) + EncodeFixed(0, 4);
      ops, first := [], 0;
    }

    lemma Header()
      requires Valid()
      ensures |rep| >= HEADER && Count(rep) == |ops| && SequenceOf(rep) == first && rep[HEADER..] == EncodeOps(ops)
    {
      RepParts(first, ops);
    }

    method SetCount(n: nat)
      requires |rep| >= HEADER
      modifies this`rep
      ensures rep == old(rep)[..8] + EncodeFixed(n, 4) + old(rep)[12..]
    {
      rep := rep[..8] + EncodeFixed(n, 4) + rep[12..];
    }

    method SetSequence(s: nat)
      requires Valid() && s < TWO_64
      modifies this
      ensures Valid() && ops == old(ops) && first == s
    {
      rep := EncodeFixed(s, 8) + rep[8..];
      first := s;
    }

    /** The last step of Put and Delete: the appended bytes are one record. */
    ghost method Recorded(op: Op, before: Bytes)
      requires before == Rep(first, ops) && op.Encodable() && first < TWO_64 && |ops| + 1 < TWO_31
      requires forall o :: o in ops ==> o.Encodable()
      requires rep == (before[..8] + EncodeFixed(|ops| + 1, 4) + before[12..]) + EncodeOp(op)
      modifies this`ops
      ensures Valid() && ops == old(ops) + [op]
    {
      RecordAppended(EncodeFixed(first, 8), EncodeFixed(|ops|, 4), EncodeOps(ops), EncodeFixed(|ops| + 1, 4), EncodeOp(op));
      FlatSnoc(EncodeOp, ops, op);
      ops := ops + [op];
    }

    method Put(key: Bytes, value: Bytes)
      requires Valid() && |ops| + 1 < TWO_31 && |key| < TWO_32 && |value| < TWO_32
      modifies this
      ensures Valid() && ops == old(ops) + [Op.Put(key, value)] && first == old(first)
    {
      ghost var before := rep;
      Header();
      SetCount(Count(rep) + 1);
      AppendThree(rep, [TYPE_VALUE], PutLengthPrefixed(key), PutLengthPrefixed(value));
      rep := rep + [TYPE_VALUE];
      rep := rep + PutLengthPrefixed(key);
      rep := rep + PutLengthPrefixed(value);
      Recorded(Op.Put(key, value), before);
    }

    method Delete(key: Bytes)
      requires Valid() && |ops| + 1 < TWO_31 && |key| < TWO_32
      modifies this
      ensures Valid() && ops == old(ops) + [Op.Delete(key)] && first == old(first)
    {
      ghost var before := rep;
      Header();
      SetCount(Count(rep) + 1);
      ConcatAssoc(rep, [TYPE_DELETION], PutLengthPrefixed(key));
      rep := rep + [TYPE_DELETION];
      rep := rep + PutLengthPrefixed(key);
      Recorded(Op.Delete(key), before);
    }

    /** `WriteBatchInternal::Append`: the records of `src` after one's own. */
    method Append(src: Batch)
      requires Valid() && src.Valid() && src != this && |ops| + |src.ops| < TWO_31
      modifies this
      ensures Valid() && ops == old(ops) + src.ops && first == old(first)
    {
      hide EncodeFixed, Flat, EncodeOp, Count;
      Header();
      src.Header();
      SetCount(Count(rep) + Count(src.rep));
      rep := rep + src.rep[HEADER..];
      RecordAppended(EncodeFixed(first, 8), EncodeFixed(|ops|, 4), EncodeOps(ops), EncodeFixed(|ops| + |src.ops|, 4), EncodeOps(src.ops));
      FlatConcat(EncodeOp, ops, src.ops);
      ops := ops + src.ops;
    }

    /** `InsertInto`: iterates over the records and numbers them from the header.  On
        malformed bytes the records before the damage have been handled already. */
    method InsertInto() returns (status: Status, entries: seq<Numbered>)
      ensures |rep| < HEADER ==> status == Corruption && entries == []
      ensures |rep| >= HEADER ==>
                var (parsed, ok) := ParseOps(rep[HEADER..]);
                entries == Stored(SequenceOf(rep), parsed) && (status == Ok <==> ok && |parsed| == Count(rep))
    {
      if |rep| < HEADER {
        return Corruption, [];
      }
      var ok, found;
      entries, ok, found := Iterate(rep[HEADER..], SequenceOf(rep));
      status := if ok && found == Count(rep) then Ok else Corruption;
    }

    /** What InsertInto finds in a batch built by Put, Delete and Append: all its updates,
        in order, so they enter the memtable whole and consecutively numbered. */
    lemma InsertsAllUpdates()
      requires Valid()
      ensures |rep| >= HEADER && SequenceOf(rep) == first
      ensures ParseOps(rep[HEADER..]) == (ops, true) && Count(rep) == |ops|
    {
      Header();
      ParseOpsRoundTrip(ops);
    }
  }
}
