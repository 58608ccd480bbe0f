/** What a restart makes of a log file (db/db_impl.cc, RecoverLogFile): on any bytes, and on a
    log that the write queue left behind when the process died. */
module LogRecovery {
  import opened Wrappers
  import opened Coding
  import opened WriteBatch
  import opened GroupCommit
  import DbFormat
  import Log
  import LogDamage
  import LogRoundTrip

  // --------------------------------------------------------- what a log stands for

  /** Reading goes on to the end (`ok`), what entered a memtable, in order, and the largest
      sequence number seen. */
  datatype Effect = Effect(ok: bool, inserted: seq<Numbered>, last: nat)

  function Before(entries: seq<Numbered>, later: Effect): Effect {
    later.(inserted := entries + later.inserted)
  }

  function Max(a: nat, b: nat): nat {
    if a < b then b else a
  }

  /** Sequence + count - 1, in 64 bits; the count is an `int`. */
  function LastOf(record: Bytes): nat
    requires |record| >= HEADER
  {
    (SequenceOf(record) + Count(record) - 1) % TWO_64
  }

  /** What InsertInto makes of a record, and whether it is well-formed. */
  ghost function Inserted(record: Bytes): (seq<Numbered>, bool)
    requires |record| >= HEADER
  {
    var (ops, ok) := ParseOps(record[HEADER..]);
    (Stored(SequenceOf(record), ops), ok && |ops| == Count(record))
  }

  /** One turn of the loop: it ends, well or not, or it goes on at `next`, having inserted a
      batch unless the record was too short for one. */
  datatype Turn = Stop(ok: bool, batch: Option<seq<Numbered>>) | GoOn(batch: Option<seq<Numbered>>, last: nat, next: nat)

  ghost function OneRecord(record: Bytes, next: nat, paranoid: bool, last: nat): Turn {
    if |record| < HEADER then
      if paranoid then Stop(false, None) else GoOn(None, last, next)
    else
      var (entries, ok) := Inserted(record);
      if paranoid && !ok then Stop(false, Some(entries)) else GoOn(Some(entries), Max(last, LastOf(record)), next)
  }

  ghost function OneTurn(r: Log.Logical, paranoid: bool, last: nat): Turn
  {
    if paranoid && r.reports > 0 then Stop(false, None)
    else if r.record.None? then Stop(true, None)
    else OneRecord(r.record.value, r.next, paranoid, last)
  }

  /** The effect of a file read from `pos`: reports of the reader and malformed batches stop a
      paranoid recovery and are passed over by any other. */
  ghost function EffectFrom(read: nat -> Log.Physical, size: nat, pos: nat, paranoid: bool, last: nat): Effect
    decreases size - pos
  {
    match OneTurn(Log.AssembleFrom(read, size, pos, None), paranoid, last)
    case Stop(ok, batch) => Effect(ok, Entries(batch), last)
    case GoOn(batch, last', next) =>
      if pos < next <= size then Before(Entries(batch), EffectFrom(read, size, next, paranoid, last'))
      else Effect(true, Entries(batch), last')
  }

  ghost function EffectOf(sum: Log.Checksum, file: Bytes, paranoid: bool, last: nat): Effect {
    EffectFrom(Log.Source(sum, file), |file|, 0, paranoid, last)
  }

  function Entries(batch: Option<seq<Numbered>>): seq<Numbered> {
    if batch.Some? then batch.value else []
  }

  // ------------------------------------------------------------------ RecoverLogFile

  function Flattened(tables: seq<seq<Numbered>>): seq<Numbered> {
    if tables == [] then [] else Flattened(tables[..|tables| - 1]) + tables[|tables| - 1]
  }

  /** The memtables that were written as level-0 tables, the one that goes on being used, and
      what the caller learns. */
  datatype Recovery = Recovery(ok: bool, tables: seq<seq<Numbered>>, reused: Option<seq<Numbered>>, last: nat)

  /** `full` is the size test, `written(i)` whether the table of the i-th memtable could be
      written, `reuse` the option together with being the last log. */
  method RecoverLogFile(sum: Log.Checksum, file: Bytes, paranoid: bool, reuse: bool, full: seq<Numbered> -> bool,
                        written: nat -> bool, last0: nat) returns (r: Recovery)
    ensures var e := EffectOf(sum, file, paranoid, last0);
      && (r.ok ==> e.ok && Flattened(r.tables) + Entries(r.reused) == e.inserted && r.last == e.last)
      && (r.ok ==> (r.reused.Some? <==> reuse && r.tables == []) && forall i :: 0 <= i < |r.tables| ==> written(i))
      && (r.ok ==> (forall i :: 0 <= i < |r.tables| - 1 ==> full(r.tables[i])) && (r.reused.Some? && r.reused.value != [] ==> !full(r.reused.value)))
      && (!r.ok ==> !e.ok || !written(|r.tables|))
      && (!r.ok ==> Flattened(r.tables) <= e.inserted && r.reused.None?)
  {
    hide EffectFrom, OneTurn, Flattened, Before, Log.Assemble, Log.Source;
    var reader := new Log.Reader(sum, file);
    var mem: Option<seq<Numbered>> := None;
    var tables: seq<seq<Numbered>>, last, running := [], last0, true;
    ghost var whole, done := EffectOf(sum, file, paranoid, last0), [];
    NoTables();
    NothingBefore(whole);
    while running
      invariant reader.Valid() && reader.sum == sum && reader.file == file
      invariant Flattened(tables) + Entries(mem) == done && forall i :: 0 <= i < |tables| ==> written(i)
      invariant (forall i :: 0 <= i < |tables| ==> full(tables[i])) && (mem.Some? ==> !full(mem.value))
      invariant if running then whole == Before(done, EffectFrom(Log.Source(sum, file), |file|, reader.Pos(), paranoid, last))
                else whole == Effect(true, done, last)
      decreases running, |file| - reader.Pos()
    {
      TurnTaken(sum, file, reader.Pos(), paranoid, last, done);
      var turn := ReadTurn(reader, paranoid, last);
      match turn
      case Stop(ok, batch) =>
        if !ok {
          return Recovery(false, tables, None, last);
        }
        running := false;
      case GoOn(batch, last', next) =>
        last, done := last', done + Entries(batch);
        if batch.Some? {
          Absorbed(tables, mem, batch.value);
          mem := Some(Entries(mem) + batch.value);
          if full(mem.value) {
            if !written(|tables|) {
              return Recovery(false, tables, None, last);
            }
            tables, mem := tables + [mem.value], None;
          }
        }
    }
    if reuse && tables == [] {
      return Recovery(true, tables, Some(Entries(mem)), last);
    }
    if mem.Some? {
      if !written(|tables|) {
        return Recovery(false, tables, None, last);
      }
      OneMoreTable(tables, mem.value);
      tables := tables + [mem.value];
    }
    r := Recovery(true, tables, None, last);
  }

  lemma NothingBefore(e: Effect)
    ensures Before([], e) == e
  {
  }

  /** What a turn does to the effect of the rest of the file. */
  lemma TurnTaken(sum: Log.Checksum, file: Bytes, pos: nat, paranoid: bool, last: nat, done: seq<Numbered>)
    requires pos <= |file|
    ensures var turn, read := OneTurn(Log.Assemble(sum, file, pos, None), paranoid, last), Log.Source(sum, file);
            var e := Before(done, EffectFrom(read, |file|, pos, paranoid, last));
      && (turn.Stop? ==> e == Effect(turn.ok, done + Entries(turn.batch), last) && (turn.ok ==> turn.batch == None))
      && (turn.GoOn? ==> pos < turn.next <= |file| && done + Entries(turn.batch) <= e.inserted)
      && (turn.GoOn? ==> e == Before(done + Entries(turn.batch), EffectFrom(read, |file|, turn.next, paranoid, turn.last)))
  {
    hide EffectFrom, OneRecord, Log.Assemble, Log.Source;
    EffectIs(sum, file, pos, paranoid, last);
    var turn := OneTurn(Log.Assemble(sum, file, pos, None), paranoid, last);
    if turn.GoOn? {
      BeforeTwice(done, Entries(turn.batch), EffectFrom(Log.Source(sum, file), |file|, turn.next, paranoid, turn.last));
    } else {
      StopsCleanly(Log.Assemble(sum, file, pos, None), paranoid, last);
    }
  }

  lemma BeforeTwice(a: seq<Numbered>, b: seq<Numbered>, e: Effect)
    ensures Before(a, Before(b, e)) == Before(a + b, e) && a + b <= Before(a, Before(b, e)).inserted
  {
    assert a + (b + e.inserted) == (a + b) + e.inserted;
  }

  lemma StopsCleanly(r: Log.Logical, paranoid: bool, last: nat)
    ensures var turn := OneTurn(r, paranoid, last); turn.Stop? && turn.ok ==> turn.batch == None
  {
  }

  lemma NoTables()
    ensures Flattened([]) == []
  {
  }

  /** A batch more in the memtable, or in the next table. */
  lemma Absorbed(tables: seq<seq<Numbered>>, mem: Option<seq<Numbered>>, batch: seq<Numbered>)
    ensures var mem' := Entries(mem) + batch;
            var done := (Flattened(tables) + Entries(mem)) + batch;
            Flattened(tables) + Entries(Some(mem')) == done && Flattened(tables + [mem']) + Entries(None) == done
  {
    OneMoreTable(tables, Entries(mem) + batch);
  }

  lemma OneMoreTable(tables: seq<seq<Numbered>>, mem: seq<Numbered>)
    ensures Flattened(tables + [mem]) == Flattened(tables) + mem
  {
    assert (tables + [mem])[..|tables|] == tables;
  }

  /** The body of the loop, up to the size test. */
  method ReadTurn(reader: Log.Reader, paranoid: bool, last: nat) returns (turn: Turn)
    requires reader.Valid()
    modifies reader
    ensures reader.Valid() && turn == OneTurn(Log.Assemble(reader.sum, reader.file, old(reader.Pos()), None), paranoid, last)
    ensures turn.GoOn? ==> reader.Pos() == turn.next
  {
    hide Inserted, LastOf;
    var reported := reader.reports;
    var record := reader.ReadRecord();
    if paranoid && reader.reports > reported {
      return Stop(false, None);
    }
    if record.None? {
      return Stop(true, None);
    }
    if |record.value| < HEADER {
      if paranoid {
        return Stop(false, None);
      }
      return GoOn(None, last, reader.fetched - |reader.buffer|);
    }
    var entries, ok := Insert(record.value);
    if paranoid && !ok {
      return Stop(false, Some(entries));
    }
    turn := GoOn(Some(entries), Max(last, LastOf(record.value)), reader.fetched - |reader.buffer|);
  }

  method Insert(record: Bytes) returns (entries: seq<Numbered>, ok: bool)
    requires |record| >= HEADER
    ensures (entries, ok) == Inserted(record)
  {
    var batch := new Batch();
    batch.rep := record;
    var status;
    status, entries := batch.InsertInto();
    ok := status == Ok;
  }

  lemma EffectIs(sum: Log.Checksum, file: Bytes, pos: nat, paranoid: bool, last: nat)
    requires pos <= |file|
    ensures var turn, read := OneTurn(Log.Assemble(sum, file, pos, None), paranoid, last), Log.Source(sum, file);
      && (turn.GoOn? ==> pos < turn.next <= |file|)
      && EffectFrom(read, |file|, pos, paranoid, last) ==
         if turn.Stop? then Effect(turn.ok, Entries(turn.batch), last)
         else Before(Entries(turn.batch), EffectFrom(read, |file|, turn.next, paranoid, turn.last))
  {
    hide Inserted;
    Log.AssembleAdvances(sum, file, pos, None);
  }

  // ------------------------------------------------- numbers above the last sequence

  /** The batches that recovery goes on after, from `pos`. */
  ghost function AcceptedFrom(read: nat -> Log.Physical, size: nat, pos: nat, paranoid: bool): seq<Bytes>
    decreases size - pos
  {
    var r := Log.AssembleFrom(read, size, pos, None);
    match OneTurn(r, paranoid, 0)
    case Stop(_, _) => []
    case GoOn(batch, _, next) =>
      (if batch.Some? then [r.record.value] else []) + if pos < next <= size then AcceptedFrom(read, size, next, paranoid) else []
  }

  ghost predicate Batches(records: seq<Bytes>) {
    forall i :: 0 <= i < |records| ==> |records[i]| >= HEADER
  }

  ghost function EntriesOf(records: seq<Bytes>): seq<Numbered>
    requires Batches(records)
  {
    if records == [] then [] else Inserted(records[0]).0 + EntriesOf(records[1..])
  }

  function LastIn(records: seq<Bytes>, last: nat): nat
    requires Batches(records)
  {
    if records == [] then last else LastIn(records[1..], Max(last, LastOf(records[0])))
  }

  /** If nothing stops it, the effect is that of the accepted batches. */
  lemma {:induction false} EffectOfAccepted(sum: Log.Checksum, file: Bytes, pos: nat, paranoid: bool, last: nat)
    requires pos <= |file|
    ensures var read := Log.Source(sum, file);
            var e, records := EffectFrom(read, |file|, pos, paranoid, last), AcceptedFrom(read, |file|, pos, paranoid);
            Batches(records) && (e.ok ==> e.inserted == EntriesOf(records) && e.last == LastIn(records, last))
    decreases |file| - pos
  {
    hide Inserted, LastOf, Log.AssembleFrom, Log.Source;
    var r := Log.Assemble(sum, file, pos, None);
    Log.AssembleAdvances(sum, file, pos, None);
    var turn := OneTurn(r, paranoid, last);
    if turn.GoOn? {
      EffectOfAccepted(sum, file, turn.next, paranoid, turn.last);
      var later := AcceptedFrom(Log.Source(sum, file), |file|, turn.next, paranoid);
      if turn.batch.Some? {
        assert ([r.record.value] + later)[1..] == later;
      } else {
        assert [] + later == later;
      }
    }
  }

  /** How many updates a batch has, whatever its header says. */
  ghost function Parsed(record: Bytes): nat
    requires |record| >= HEADER
  {
    |ParseOps(record[HEADER..]).0|
  }

  /** The largest of `n` numbers from `first` on, cut to 56 bits. */
  function Highest(first: nat, n: nat): nat
    requires n > 0
  {
    var low := first % SEQUENCE_LIMIT;
    if low + n <= SEQUENCE_LIMIT then low + n - 1 else SEQUENCE_LIMIT - 1
  }

  ghost predicate Below(entries: seq<Numbered>, last: nat) {
    forall i :: 0 <= i < |entries| ==> entries[i].seqno <= last
  }

  lemma HighestIs(first: nat, ops: seq<Op>, last: nat)
    requires ops != []
    ensures Below(Stored(first, ops), last) <==> Highest(first, |ops|) <= last
  {
    var low, entries := first % SEQUENCE_LIMIT, Stored(first, ops);
    var at := Highest(first, |ops|) - low;
    forall i | 0 <= i < |ops| ensures entries[i].seqno <= Highest(first, |ops|) {
      LowNumber(first, i);
    }
    LowNumber(first, at);
    assert entries[at].seqno == Highest(first, |ops|);
  }

  lemma LowNumber(first: nat, i: nat)
    ensures var low := first % SEQUENCE_LIMIT;
            (low + i < SEQUENCE_LIMIT ==> (first + i) % SEQUENCE_LIMIT == low + i) && (first + i) % SEQUENCE_LIMIT < SEQUENCE_LIMIT
  {
    var low, high := first % SEQUENCE_LIMIT, first / SEQUENCE_LIMIT;
    assert first + i == high * SEQUENCE_LIMIT + (low + i);
  }

  /** A header and the number of updates behind it, against a last sequence number. */
  ghost predicate Reached(record: Bytes, last: nat)
    requires |record| >= HEADER
  {
    Parsed(record) == 0 || Highest(SequenceOf(record), Parsed(record)) <= last
  }

  lemma BelowConcat(a: seq<Numbered>, b: seq<Numbered>, last: nat)
    ensures Below(a + b, last) <==> Below(a, last) && Below(b, last)
  {
    assert forall i :: 0 <= i < |a| ==> (a + b)[i] == a[i];
    assert forall i :: 0 <= i < |b| ==> (a + b)[|a| + i] == b[i];
  }

  lemma {:induction false} BelowByHeaders(records: seq<Bytes>, last: nat)
    requires Batches(records)
    ensures Below(EntriesOf(records), last) <==> forall i :: 0 <= i < |records| ==> Reached(records[i], last)
  {
    hide Parsed, Highest, SequenceOf, ParseOps, Stored;
    if records != [] {
      var rest := records[1..];
      BelowByHeaders(rest, last);
      BelowConcat(Inserted(records[0]).0, EntriesOf(rest), last);
      OneBelow(records[0], last);
      assert forall i :: 0 <= i < |rest| ==> records[i + 1] == rest[i];
      assert forall i :: 1 <= i < |records| ==> records[i] == rest[i - 1];
    }
  }

  lemma OneBelow(record: Bytes, last: nat)
    requires |record| >= HEADER
    ensures Below(Inserted(record).0, last) <==> Reached(record, last)
  {
    hide ParseOps, Highest;
    var ops := ParseOps(record[HEADER..]).0;
    if ops != [] {
      HighestIs(SequenceOf(record), ops, last);
    }
  }

  /** For any file that is recovered: every recovered entry lies at or below the last sequence
      number if and only if that number reaches the end of each accepted batch, going by the
      sequence number in its header and the updates it really has. */
  lemma RecoveredBelowLast(sum: Log.Checksum, file: Bytes, paranoid: bool, last: nat)
    requires EffectOf(sum, file, paranoid, last).ok
    ensures var e, records := EffectOf(sum, file, paranoid, last), AcceptedFrom(Log.Source(sum, file), |file|, 0, paranoid);
      && Batches(records) && e.inserted == EntriesOf(records) && e.last == LastIn(records, last)
      && (Below(e.inserted, e.last) <==> forall i :: 0 <= i < |records| ==> Reached(records[i], LastIn(records, last)))
  {
    hide EffectFrom, AcceptedFrom, EntriesOf, LastIn, Reached;
    EffectOfAccepted(sum, file, 0, paranoid, last);
    BelowByHeaders(AcceptedFrom(Log.Source(sum, file), |file|, 0, paranoid), EffectOf(sum, file, paranoid, last).last);
  }

  /** A batch reaches its own last number if and only if it has no more updates than its count,
      or its count is so negative that the sum wraps around. */
  lemma CountReaches(record: Bytes)
    requires |record| >= HEADER && SequenceOf(record) + Parsed(record) <= SEQUENCE_LIMIT
    ensures Reached(record, LastOf(record)) <==>
            Parsed(record) == 0 || Parsed(record) <= Count(record) || SequenceOf(record) + Count(record) <= 0
  {
    hide Parsed, SequenceOf, Count;
    CountBounds(record);
    var first, n, c := SequenceOf(record), Parsed(record), Count(record);
    if n > 0 {
      InRange(first);
      SumIn64(first + c - 1);
    }
  }

  lemma CountBounds(record: Bytes)
    requires |record| >= HEADER
    ensures 0 <= CountField(record) < TWO_32 && -TWO_31 <= Count(record) < TWO_31
  {
    Powers();
    DecodedBound(record[8..12]);
  }

  lemma {:induction false} DecodedBound(bs: Bytes)
    ensures DecodeFixed(bs) < Power256(|bs|)
  {
    if bs != [] {
      DecodedBound(bs[1..]);
    }
  }

  lemma SumIn64(n: int)
    requires -TWO_32 <= n < TWO_64
    ensures n % TWO_64 == if n < 0 then n + TWO_64 else n
  {
  }

  lemma {:induction false} LastGrows(records: seq<Bytes>, last: nat, i: nat)
    requires Batches(records) && i < |records|
    ensures last <= LastIn(records, last) && LastOf(records[i]) <= LastIn(records, last)
  {
    hide LastOf;
    var next := Max(last, LastOf(records[0]));
    if |records| > 1 {
      LastGrows(records[1..], next, if i == 0 then 0 else i - 1);
    }
  }

  /** What a caller may check: no batch has more updates than its count, or runs out of
      numbers; then nothing recovered lies above the last sequence number. */
  lemma CountedBelowLast(records: seq<Bytes>, last: nat)
    requires Batches(records)
    requires forall i :: 0 <= i < |records| ==>
      Parsed(records[i]) <= Count(records[i]) && SequenceOf(records[i]) + Parsed(records[i]) <= SEQUENCE_LIMIT
    ensures Below(EntriesOf(records), LastIn(records, last))
  {
    hide Parsed, SequenceOf, Count, EntriesOf, LastIn, LastOf;
    var end := LastIn(records, last);
    forall i | 0 <= i < |records| ensures Reached(records[i], end) {
      CountReaches(records[i]);
      LastGrows(records, last, i);
    }
    BelowByHeaders(records, end);
  }

  /** A paranoid recovery only accepts batches whose count is right. */
  lemma {:induction false} ParanoidCounts(sum: Log.Checksum, file: Bytes, pos: nat)
    requires pos <= |file|
    ensures var records := AcceptedFrom(Log.Source(sum, file), |file|, pos, true);
            Batches(records) && forall i :: 0 <= i < |records| ==> Parsed(records[i]) == Count(records[i])
    decreases |file| - pos
  {
    hide LastOf, Count, ParseOps, Log.AssembleFrom, Log.Source;
    var r := Log.Assemble(sum, file, pos, None);
    Log.AssembleAdvances(sum, file, pos, None);
    var turn := OneTurn(r, true, 0);
    if turn.GoOn? {
      ParanoidCounts(sum, file, turn.next);
    }
  }

  /** The count enters as an unsigned number exactly if it is below 2^31. */
  lemma CountIsSigned(record: Bytes)
    requires |record| >= HEADER
    ensures LastOf(record) == (SequenceOf(record) + CountField(record) - 1) % TWO_64 <==> CountField(record) < TWO_31
  {
    hide SequenceOf, CountField;
    CountBounds(record);
    var n := SequenceOf(record) + CountField(record) - 1;
    if CountField(record) >= TWO_31 {
      ApartIn64(n - TWO_32, TWO_32);
    }
  }

  lemma ApartIn64(n: int, d: nat)
    requires 0 < d < TWO_64
    ensures n % TWO_64 != (n + d) % TWO_64
  {
    var a, b := n / TWO_64, (n + d) / TWO_64;
    assert n == a * TWO_64 + n % TWO_64;
    assert n + d == b * TWO_64 + (n + d) % TWO_64;
  }

  /** A bare header with a negative count: passed over, and its sequence number counts less
      than it says, or wraps around. */
  lemma NegativeCount(next: nat, last: nat)
    ensures var record: Bytes := [100, 0, 0, 0, 0, 0, 0, 0, 255, 255, 255, 255];
            LastOf(record) == 98 && OneRecord(record, next, false, last) == GoOn(Some([]), Max(last, 98), next)
    ensures LastOf([0, 0, 0, 0, 0, 0, 0, 0, 255, 255, 255, 255]) == TWO_64 - 2
  {
    BareHeader(100);
    BareHeader(0);
  }

  lemma BareHeader(b: Byte)
    ensures var record: Bytes := [b, 0, 0, 0, 0, 0, 0, 0, 255, 255, 255, 255];
            SequenceOf(record) == b && Count(record) == -1 && Inserted(record) == ([], false)
  {
    var record: Bytes := [b, 0, 0, 0, 0, 0, 0, 0, 255, 255, 255, 255];
    EightBytes(b);
    FourBytes();
    assert record[..8] == [b, 0, 0, 0, 0, 0, 0, 0] && record[8..12] == [255, 255, 255, 255] && record[HEADER..] == [];
  }

  lemma EightBytes(b: Byte)
    ensures DecodeFixed([b, 0, 0, 0, 0, 0, 0, 0]) == b
  {
    var zeros: Bytes := [0, 0, 0, 0, 0, 0, 0];
    assert DecodeFixed([0, 0]) == 0;
    assert [0, 0, 0, 0][2..] == [0, 0] && DecodeFixed([0, 0, 0, 0]) == 0;
    assert [0, 0, 0, 0, 0, 0][2..] == [0, 0, 0, 0] && DecodeFixed([0, 0, 0, 0, 0, 0]) == 0;
    assert zeros[1..] == [0, 0, 0, 0, 0, 0] && [b, 0, 0, 0, 0, 0, 0, 0][1..] == zeros;
  }

  lemma FourBytes()
    ensures DecodeFixed([255, 255, 255, 255]) == TWO_32 - 1
  {
    assert [255, 255, 255, 255][2..] == [255, 255] && DecodeFixed([255, 255]) == 0xffff;
  }

  /** A batch with one deletion and a count of zero: what it inserts lies above the last
      number it gives. */
  lemma MissingCount(key: Bytes, next: nat, last: nat)
    requires |key| < TWO_32 && last < 100
    ensures var record := EncodeFixed(100, 8) + EncodeFixed(0, 4) + EncodeOps([Delete(key)]);
      && |record| >= HEADER && LastOf(record) == 99
      && OneRecord(record, next, false, last) == GoOn(Some([Numbered(100, Delete(key))]), 99, next)
  {
    hide EncodeFixed, DecodeFixed, EncodeOps, ParseOps;
    var body := EncodeOps([Delete(key)]);
    var record := EncodeFixed(100, 8) + EncodeFixed(0, 4) + body;
    Powers();
    FixedRoundTrip(100, 8);
    FixedRoundTrip(0, 4);
    assert record[..8] == EncodeFixed(100, 8) && record[8..12] == EncodeFixed(0, 4) && record[HEADER..] == body;
    ParseOpsRoundTrip([Delete(key)]);
    assert Stored(100, [Delete(key)]) == [Numbered(100, Delete(key))];
  }

  // --------------------------------------------------- recovery from the records read

  /** The records that are long enough for a batch. */
  function LongEnough(records: seq<Bytes>): (r: seq<Bytes>)
    ensures Batches(r)
  {
    if records == [] then []
    else
      var later := LongEnough(records[1..]);
      if |records[0]| < HEADER then later else [records[0]] + later
  }

  /** A batch all of which parses, with as many updates as its header says. */
  ghost predicate WellFormed(record: Bytes) {
    |record| >= HEADER && ParseOps(record[HEADER..]).1 && Parsed(record) == Count(record)
  }

  lemma {:induction false} EffectOfRest(sum: Log.Checksum, file: Bytes, pos: nat, paranoid: bool, last: nat)
    requires pos <= |file|
    ensures var (records, reports) := Log.ReadAllFrom(Log.Source(sum, file), |file|, pos);
            var e := EffectFrom(Log.Source(sum, file), |file|, pos, paranoid, last);
      && reports >= 0
      && (e.ok <==> paranoid ==> reports == 0 && forall r :: r in records ==> WellFormed(r))
      && (e.ok ==> e.inserted == EntriesOf(LongEnough(records)) && e.last == LastIn(LongEnough(records), last))
    decreases |file| - pos
  {
    hide Inserted, LastOf, WellFormed, Log.AssembleFrom, Log.Source;
    var r := Log.Assemble(sum, file, pos, None);
    Log.AssembleAdvances(sum, file, pos, None);
    LogDamage.ReportsAreCounted(sum, file, pos, None);
    EffectIs(sum, file, pos, paranoid, last);
    if r.record.Some? {
      var record := r.record.value;
      var turn := OneTurn(r, paranoid, last);
      WellFormedTurn(record, r.next, paranoid, last);
      EffectOfRest(sum, file, r.next, paranoid, if turn.GoOn? then turn.last else last);
      var (later, reports) := Log.ReadAllFrom(Log.Source(sum, file), |file|, r.next);
      assert ([record] + later)[1..] == later;
      var batches := LongEnough(later);
      assert ([record] + batches)[1..] == batches;
    }
  }

  lemma WellFormedTurn(record: Bytes, next: nat, paranoid: bool, last: nat)
    ensures var turn := OneRecord(record, next, paranoid, last);
      && (turn.Stop? <==> paranoid && !WellFormed(record)) && (turn.Stop? ==> !turn.ok)
      && (turn.GoOn? && |record| < HEADER ==> turn == GoOn(None, last, next))
      && (turn.GoOn? && |record| >= HEADER ==> turn == GoOn(Some(Inserted(record).0), Max(last, LastOf(record)), next))
  {
    hide ParseOps, LastOf, Count, SequenceOf;
  }

  /** For any file: unless paranoid, recovery goes through all the records that are read and
      inserts what parses of each batch; a paranoid one succeeds if and only if nothing was
      reported and every record is a well-formed batch. */
  lemma EffectOfRecords(sum: Log.Checksum, file: Bytes, paranoid: bool, last: nat)
    ensures var (records, reports) := Log.ReadAll(sum, file);
            var e := EffectOf(sum, file, paranoid, last);
      && (e.ok <==> paranoid ==> reports == 0 && forall r :: r in records ==> WellFormed(r))
      && (e.ok ==> e.inserted == EntriesOf(LongEnough(records)) && e.last == LastIn(LongEnough(records), last))
  {
    EffectOfRest(sum, file, 0, paranoid, last);
  }

  /** A damaged log of batches: exactly the batches are recovered of which no fragment is bad
      or behind a bad one in its block; a paranoid recovery fails if damage is noticed. */
  lemma DamagedLogRecovered(sum: Log.Checksum, records: seq<Bytes>, file: Bytes, bad: set<nat>, last: nat)
    requires sum.Sound() && |file| <= |LogRoundTrip.Written(sum, records)| && Batches(records)
    requires var fragments := LogDamage.Fragments(0, records);
             LogDamage.HeadersOf(bad, fragments) && LogDamage.Damaged(sum, file, fragments, bad)
    ensures var intact := LogDamage.Intact(0, records, bad);
            Batches(intact) && EffectOf(sum, file, false, last) == Effect(true, EntriesOf(intact), LastIn(intact, last))
    ensures LogDamage.SomeNoticed(file, bad, LogDamage.Fragments(0, records)) ==> !EffectOf(sum, file, true, last).ok
  {
    hide EffectFrom, Log.ReadAll, LogDamage.Fragments, LogDamage.Damaged, LogDamage.Intact, LogRoundTrip.Written, EntriesOf, LastIn;
    LogDamage.DamagedLogReadsBack(sum, records, file, bad);
    EffectOfRecords(sum, file, false, last);
    EffectOfRecords(sum, file, true, last);
    AllLongEnough(0, records, bad);
  }

  lemma {:induction false} AllLongEnough(pos: nat, records: seq<Bytes>, bad: set<nat>)
    requires Batches(records)
    ensures var intact := LogDamage.Intact(pos, records, bad); Batches(intact) && LongEnough(intact) == intact
    decreases |records|
  {
    hide LogDamage.Lost, LogDamage.FragmentsOf, LogDamage.EndOfRecord;
    if records != [] {
      var next := LogDamage.EndOfRecord(pos, records[0]);
      assert forall i :: 0 <= i < |records| - 1 ==> records[1..][i] == records[i + 1];
      AllLongEnough(next, records[1..], bad);
      var later := LogDamage.Intact(next, records[1..], bad);
      assert ([records[0]] + later)[1..] == later;
    }
  }

  // ------------------------------------------------------- a log of the write queue

  /** Sequence numbers, counts and lengths fit their fields. */
  ghost predicate Encodable(log: seq<Record>) {
    && |LogOps(log, |log|)| < DbFormat.MAX_SEQUENCE
    && forall i :: 0 <= i < |log| ==> |log[i].ops| < TWO_31 && forall op :: op in log[i].ops ==> op.Encodable()
  }

  /** The log records of the groups. */
  function RecordBytes(log: seq<Record>): (r: seq<Bytes>)
    ensures |r| == |log|
  {
    seq(|log|, i requires 0 <= i < |log| => Rep(log[i].first, log[i].ops))
  }

  lemma {:induction false} LogOpsGrow(log: seq<Record>, i: nat, n: nat)
    requires i <= n <= |log|
    ensures LogOps(log, i) <= LogOps(log, n)
    decreases n
  {
    if i < n {
      LogOpsGrow(log, i, n - 1);
    }
  }

  /** A record that was written is inserted whole, under its own numbers. */
  lemma RecordInserted(log: seq<Record>, i: nat, next: nat, paranoid: bool, last: nat)
    requires LogNumbered(log) && Encodable(log) && i < |log|
    ensures OneRecord(RecordBytes(log)[i], next, paranoid, last) ==
            GoOn(Some(Number(log[i].first, log[i].ops)), Max(last, |LogOps(log, i + 1)|), next)
    ensures log[i].first == |LogOps(log, i)| + 1 && LogOps(log, i + 1) == LogOps(log, i) + log[i].ops
  {
    hide EncodeOp, Inserted, LastOf, Rep, Number;
    assert NumberedAt(log, i);
    LogOpsGrow(log, i + 1, |log|);
    BatchInserted(log[i].first, log[i].ops);
  }

  lemma BatchInserted(first: nat, ops: seq<Op>)
    requires 0 < first && first + |ops| <= SEQUENCE_LIMIT && |ops| < TWO_31 && forall op :: op in ops ==> op.Encodable()
    ensures |Rep(first, ops)| >= HEADER
    ensures Inserted(Rep(first, ops)) == (Number(first, ops), true) && LastOf(Rep(first, ops)) == first + |ops| - 1
  {
    hide EncodeOp, Count, SequenceOf, Rep, ParseOps, Number, Stored;
    RepParts(first, ops);
    ParseOpsRoundTrip(ops);
    SumIn64(first + |ops| - 1);
    StoredInRange(first, ops);
  }

  /** The updates of the records from..k-1 under their numbers. */
  ghost function UpdatesOf(log: seq<Record>, from: nat, k: nat): seq<Numbered>
    requires from <= k <= |log|
  {
    LogOpsGrow(log, from, k);
    Number(1, LogOps(log, k))[|LogOps(log, from)|..]
  }

  lemma OneMoreRecord(log: seq<Record>, from: nat, k: nat)
    requires LogNumbered(log) && Encodable(log) && from < k <= |log|
    ensures UpdatesOf(log, from, k) == Number(log[from].first, log[from].ops) + UpdatesOf(log, from + 1, k)
  {
    hide LogOps, OneRecord, RecordBytes, Encodable, LogNumbered;
    RecordInserted(log, from, 0, false, 0);
    LogOpsGrow(log, from, k);
    LogOpsGrow(log, from + 1, k);
    var a, b, all := |LogOps(log, from)|, |LogOps(log, from + 1)|, Number(1, LogOps(log, k));
    assert all[a..b] == Number(log[from].first, log[from].ops);
    assert all[a..] == all[a..b] + all[b..];
  }

  /** The `j`th record is read where it ends up in the file. */
  ghost predicate FoundIn(sum: Log.Checksum, file: Bytes, records: seq<Bytes>, j: nat)
    requires j < |records|
  {
    var at, end := LogRoundTrip.Ends(sum, records, j), LogRoundTrip.Ends(sum, records, j + 1);
    at < end <= |file| && LogRoundTrip.Finds(Log.Source(sum, file), |file|, at, records[j], end)
  }

  /** Records that are found are inserted one by one, under the numbers they were written with. */
  lemma {:induction false} RecordsInserted(sum: Log.Checksum, file: Bytes, log: seq<Record>, from: nat, t: nat, i: nat, k: nat,
                                           paranoid: bool, last: nat)
    requires LogNumbered(log) && Encodable(log) && from <= t <= |log| && i <= k <= t - from
    requires forall j :: i <= j < k ==> FoundIn(sum, file, RecordBytes(log[from..t]), j)
    ensures var records, read := RecordBytes(log[from..t]), Log.Source(sum, file);
      EffectFrom(read, |file|, LogRoundTrip.Ends(sum, records, i), paranoid, last)
      == Before(UpdatesOf(log, from + i, from + k),
                EffectFrom(read, |file|, LogRoundTrip.Ends(sum, records, k), paranoid,
                           if i < k then Max(last, |LogOps(log, from + k)|) else last))
    decreases k - i
  {
    hide EffectFrom, OneRecord, UpdatesOf, Log.AssembleFrom, Log.Source, LogOps, LogRoundTrip.Ends, Before, LogNumbered, Encodable;
    var records, read := RecordBytes(log[from..t]), Log.Source(sum, file);
    var at := LogRoundTrip.Ends(sum, records, i);
    if i < k {
      var end := LogRoundTrip.Ends(sum, records, i + 1);
      assert FoundIn(sum, file, records, i);
      assert records[i] == RecordBytes(log)[from + i];
      EffectIs(sum, file, at, paranoid, last);
      RecordInserted(log, from + i, end, paranoid, last);
      var last' := Max(last, |LogOps(log, from + i + 1)|);
      RecordsInserted(sum, file, log, from, t, i + 1, k, paranoid, last');
      LogOpsGrow(log, from + i + 1, from + k);
      OneMoreRecord(log, from + i, from + k);
      BeforeTwice(Number(log[from + i].first, log[from + i].ops), UpdatesOf(log, from + i + 1, from + k),
                  EffectFrom(read, |file|, LogRoundTrip.Ends(sum, records, k), paranoid, Max(last, |LogOps(log, from + k)|)));
    } else {
      NoRecords(log, from + k);
      NothingBefore(EffectFrom(read, |file|, at, paranoid, last));
    }
  }

  lemma NoRecords(log: seq<Record>, k: nat)
    requires k <= |log|
    ensures UpdatesOf(log, k, k) == []
  {
  }

  /** Record `t` of the current log file is its first that is not whole, or there is none. */
  ghost predicate FirstTear(s: State, t: nat) {
    && s.fileStart <= t <= |s.log| && (forall r :: s.fileStart <= r < t ==> s.log[r].whole)
    && (t < |s.log| ==> !s.log[t].whole)
  }

  /** The file ends within the records before the first tear, `k` of them being whole. */
  ghost predicate CutBefore(sum: Log.Checksum, records: seq<Bytes>, file: Bytes, k: nat)
    requires k <= |records|
  {
    && file <= LogRoundTrip.Written(sum, records) && LogRoundTrip.Ends(sum, records, k) <= |file|
    && (k < |records| ==> |file| < LogRoundTrip.Ends(sum, records, k + 1))
  }

  /** The process died in state `s`.  Of the current log file the first bytes are left, among
      them everything that was synced before the first tear; what follows a tear may be
      anything. */
  ghost predicate Left(sum: Log.Checksum, s: State, file: Bytes, t: nat, k: nat) {
    && sum.Sound() && Encodable(s.log) && FirstTear(s, t) && s.fileStart + k <= t
    && var records := RecordBytes(s.log[s.fileStart..t]);
    && (CutBefore(sum, records, file, k) || (t < |s.log| && k == |records| && LogRoundTrip.Written(sum, records) <= file))
    && forall r :: r in s.durable && r < t ==> r < s.fileStart + k
  }

  lemma CutIsFound(sum: Log.Checksum, records: seq<Bytes>, file: Bytes, k: nat)
    requires sum.Sound() && k <= |records| && CutBefore(sum, records, file, k)
    ensures forall j :: 0 <= j < k ==> FoundIn(sum, file, records, j)
    ensures Log.Assemble(sum, file, LogRoundTrip.Ends(sum, records, k), None) == Log.Logical(None, |file|, 0)
  {
    hide LogRoundTrip.Written, LogRoundTrip.Ends, Log.Source;
    assert LogRoundTrip.Written(sum, records)[..|file|] == file;
    forall j | 0 <= j < k ensures FoundIn(sum, file, records, j) {
      LogRoundTrip.EndsGrow(sum, records, j, k);
      LogRoundTrip.EndsGrow(sum, records, j + 1, k);
      LogRoundTrip.RecordFound(sum, records, |file|, j);
    }
    if k < |records| {
      LogRoundTrip.RecordFound(sum, records, |file|, k);
    } else {
      AllOfIt(sum, records);
      LogRoundTrip.NothingAtTheEnd(sum, file);
    }
  }

  lemma AllOfIt(sum: Log.Checksum, records: seq<Bytes>)
    ensures LogRoundTrip.Ends(sum, records, |records|) == |LogRoundTrip.Written(sum, records)|
  {
    assert records[..|records|] == records;
  }

  /** The whole records in front are recovered whatever follows; exactly they, if no tear does. */
  lemma LogHolds(sum: Log.Checksum, s: State, file: Bytes, t: nat, k: nat, paranoid: bool, last: nat)
    requires Left(sum, s, file, t, k) && LogNumbered(s.log)
    ensures UpdatesOf(s.log, s.fileStart, s.fileStart + k) <= EffectOf(sum, file, paranoid, last).inserted
    ensures CutBefore(sum, RecordBytes(s.log[s.fileStart..t]), file, k) ==>
      EffectOf(sum, file, paranoid, last)
      == Effect(true, UpdatesOf(s.log, s.fileStart, s.fileStart + k), if k > 0 then Max(last, |LogOps(s.log, s.fileStart + k)|) else last)
  {
    hide EffectFrom, UpdatesOf, Log.Source, LogOps, LogRoundTrip.Written, LogRoundTrip.Ends, RecordBytes, Log.AssembleFrom, CutBefore;
    var records := RecordBytes(s.log[s.fileStart..t]);
    if CutBefore(sum, records, file, k) {
      CutIsFound(sum, records, file, k);
    } else {
      forall j | 0 <= j < k ensures FoundIn(sum, file, records, j) {
        LogRoundTrip.RecordFoundBefore(sum, records, file, j);
      }
    }
    StartsAtZero(sum, records);
    RecordsInserted(sum, file, s.log, s.fileStart, t, 0, k, paranoid, last);
    if CutBefore(sum, records, file, k) {
      var last' := if 0 < k then Max(last, |LogOps(s.log, s.fileStart + k)|) else last;
      EndsWithinFile(sum, records, file, k);
      EffectIs(sum, file, LogRoundTrip.Ends(sum, records, k), paranoid, last');
    }
  }

  lemma StartsAtZero(sum: Log.Checksum, records: seq<Bytes>)
    ensures LogRoundTrip.Ends(sum, records, 0) == 0
  {
    assert records[..0] == [];
  }

  lemma EndsWithinFile(sum: Log.Checksum, records: seq<Bytes>, file: Bytes, k: nat)
    requires k <= |records| && CutBefore(sum, records, file, k)
    ensures LogRoundTrip.Ends(sum, records, k) <= |file|
  {
  }

  /** Recovery from the current log after a crash in any state of any run, with AddRecord and
      Sync failing as they may.  The updates of the whole records before the first tear come
      back under the numbers they were written with, and those of every acknowledged sync
      write are among them, or in an earlier log, or behind the tear.  If the file ends before
      a tear, nothing else comes back, and recovery fails only for a table that cannot be
      written. */
  method RecoverAfterCrash(sum: Log.Checksum, file: Bytes, paranoid: bool, reuse: bool, full: seq<Numbered> -> bool,
                           written: nat -> bool, last0: nat, ghost states: seq<State>, ghost n: nat, ghost t: nat, ghost k: nat)
      returns (r: Recovery)
    requires Run(states) && n < |states| && Left(sum, states[n], file, t, k)
    ensures r.ok ==> UpdatesOf(states[n].log, states[n].fileStart, states[n].fileStart + k) <= Flattened(r.tables) + Entries(r.reused)
    ensures CutBefore(sum, RecordBytes(states[n].log[states[n].fileStart..t]), file, k) ==>
      && (r.ok || !written(|r.tables|))
      && (r.ok ==> Flattened(r.tables) + Entries(r.reused) == UpdatesOf(states[n].log, states[n].fileStart, states[n].fileStart + k))
      && (r.ok && k > 0 ==> r.last == Max(last0, |LogOps(states[n].log, states[n].fileStart + k)|))
    ensures SyncsSurvive(states[n], t, states[n].fileStart + k)
  {
    hide UpdatesOf, Run, EffectFrom, Flattened, Left, LogNumbered, SyncsSurvive, LogOps, RecordBytes, CutBefore;
    ghost var s := states[n];
    Reachable(states, n);
    LogHolds(sum, s, file, t, k, paranoid, last0);
    SyncsAreLeft(sum, states, n, file, t, k);
    r := RecoverLogFile(sum, file, paranoid, reuse, full, written, last0);
  }

  /** Record `r` holds the updates of the writer and was synced; it is among the first `upTo`
      records unless it lies behind record `t`. */
  ghost predicate SurvivesIn(s: State, r: nat, i: nat, t: nat, upTo: nat)
    requires s.WellFormed() && i < |s.outcome| && upTo <= |s.log| && s.writers[i].batch.Some?
  {
    && r < |s.log| && Keeps(s, r, i) && r in s.durable && r != t
    && (r < t ==>
          var lo, hi := |Issued(s, i)|, |Issued(s, i + 1)|;
          lo <= hi <= |LogOps(s.log, upTo)| && LogOps(s.log, upTo)[lo..hi] == s.writers[i].batch.value)
  }

  ghost predicate SyncSurvives(s: State, i: nat, t: nat, upTo: nat)
    requires i < |s.outcome|
  {
    s.WellFormed() && upTo <= |s.log| && (s.outcome[i].Acked? && s.writers[i].sync && s.writers[i].batch.Some? ==>
      exists r :: SurvivesIn(s, r, i, t, upTo))
  }

  ghost predicate SyncsSurvive(s: State, t: nat, upTo: nat) {
    forall i :: 0 <= i < |s.outcome| ==> SyncSurvives(s, i, t, upTo)
  }

  lemma Reachable(states: seq<State>, n: nat)
    requires Run(states) && n < |states|
    ensures states[n].WellFormed() && LogNumbered(states[n].log) && states[n].fileStart <= |states[n].log|
  {
    RunsKeepInv(states, n);
  }

  lemma SyncsAreLeft(sum: Log.Checksum, states: seq<State>, n: nat, file: Bytes, t: nat, k: nat)
    requires Run(states) && n < |states| && Left(sum, states[n], file, t, k)
    ensures SyncsSurvive(states[n], t, states[n].fileStart + k)
  {
    hide Run, Left, SyncSurvives;
    var upTo := states[n].fileStart + k;
    forall i | 0 <= i < |states[n].outcome| ensures SyncSurvives(states[n], i, t, upTo) {
      SyncIsLeft(sum, states, n, file, t, k, i);
    }
  }

  lemma SyncIsLeft(sum: Log.Checksum, states: seq<State>, n: nat, file: Bytes, t: nat, k: nat, i: nat)
    requires Run(states) && n < |states| && Left(sum, states[n], file, t, k) && i < |states[n].outcome|
    ensures SyncSurvives(states[n], i, t, states[n].fileStart + k)
  {
    hide Run, Encodable, LogOps, Issued, LogRoundTrip.Written, LogRoundTrip.Ends, CutBefore;
    var s := states[n];
    Reachable(states, n);
    if s.outcome[i].Acked? && s.writers[i].sync && s.writers[i].batch.Some? {
      SyncWritesAreDurable(states, n, i);
      var r :| 0 <= r < |s.log| && Keeps(s, r, i) && r in s.durable;
      if r < t {
        LogOpsGrow(s.log, r + 1, s.fileStart + k);
        LogOpsGrow(s.log, s.fileStart + k, |s.log|);
      }
      assert SurvivesIn(s, r, i, t, s.fileStart + k);
    }
  }

  // --------------------------------------------------- a sync write behind a tear

  /** A header without its data, then a whole record that is shorter than the data would be: the
      reader takes it all for the end of the file. */
  lemma TornHeader(sum: Log.Checksum, a: Bytes, b: Bytes)
    requires |a| > Log.HEADER_SIZE + |b| && Log.HEADER_SIZE + |a| + Log.HEADER_SIZE + |b| <= Log.BLOCK_SIZE
    ensures var first := Log.Appended(sum, 0, a);
            var file := first[..Log.HEADER_SIZE] + Log.Appended(sum, |first|, b);
            Log.Assemble(sum, file, 0, None) == Log.Logical(None, |file|, 0)
  {
    var first := Log.Appended(sum, 0, a);
    OneFragment(sum, 0, a);
    OneFragment(sum, |first|, b);
    var whole := Log.PhysicalRecord(sum, Log.FULL, a);
    LogRoundTrip.RecordParts(sum, whole, 0, Log.FULL, a);
    var file := first[..Log.HEADER_SIZE] + Log.Appended(sum, |first|, b);
    assert file[4] == whole[4] && file[5] == whole[5];
    assert Log.BlockRest(file, 0) == file;
    LogRoundTrip.ParseTorn(sum, file);
  }

  /** A record that fits the rest of the block is one fragment. */
  lemma OneFragment(sum: Log.Checksum, pos: nat, data: Bytes)
    requires pos + Log.HEADER_SIZE + |data| <= Log.BLOCK_SIZE
    ensures Log.Appended(sum, pos, data) == Log.PhysicalRecord(sum, Log.FULL, data)
    ensures |Log.PhysicalRecord(sum, Log.FULL, data)| == Log.HEADER_SIZE + |data|
  {
    hide Log.PhysicalRecord;
    var piece := Log.Piece(0, Log.FULL, data);
    assert data[..|data|] == data;
    assert Log.Cut(pos, data, true) == [piece];
    assert Flat(Log.Renderer(sum), [piece]) == Log.Renderer(sum)(piece) + Flat(Log.Renderer(sum), []);
    assert [] + Log.PhysicalRecord(sum, Log.FULL, data) == Log.PhysicalRecord(sum, Log.FULL, data);
  }

  /** AddRecord fails for one write after the header of its fragment; the next write asks for
      sync, its record is written and synced where the writer goes on, and it is acknowledged.
      The log gives back neither, and reports nothing: even a paranoid recovery succeeds.  So
      the restriction to records before the first tear cannot be dropped. */
  lemma SyncWriteBehindTear(sum: Log.Checksum, s0: State, lost: Op, op: Op, paranoid: bool, last: nat) returns (states: seq<State>, file: Bytes)
    requires Init(s0)
    requires var a, b := Rep(1, [lost]), Rep(2, [op]);
      |a| > Log.HEADER_SIZE + |b| && Log.HEADER_SIZE + |a| + Log.HEADER_SIZE + |b| <= Log.BLOCK_SIZE
    ensures Run(states) && |states| == 11
    ensures var s := states[10];
      && s.writers == [Writer(Some([lost]), false), Writer(Some([op]), true)] && s.outcome == [Burned, Acked]
      && s.log == [Record(1, [lost], false), Record(2, [op], true)] && s.durable == {0, 1} && s.fileStart == 0
      && s.mem == [Numbered(2, op)]
    ensures var first := Log.Appended(sum, 0, Rep(1, [lost]));
            file == first[..Log.HEADER_SIZE] + Log.Appended(sum, |first|, Rep(2, [op]))
    ensures EffectOf(sum, file, paranoid, last) == Effect(true, [], last)
  {
    hide Run, Log.Appended, Rep, Init, EffectFrom, Log.AssembleFrom, Log.Source;
    states := TornRun(s0, lost, op);
    OneFragment(sum, 0, Rep(1, [lost]));
    var first := Log.Appended(sum, 0, Rep(1, [lost]));
    file := first[..Log.HEADER_SIZE] + Log.Appended(sum, |first|, Rep(2, [op]));
    TornHeader(sum, Rep(1, [lost]), Rep(2, [op]));
    EffectIs(sum, file, 0, paranoid, last);
  }
}
