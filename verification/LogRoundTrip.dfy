/** What AddRecord wrote is what ReadRecord returns, also from a file that was cut short by
    a crash at any byte. */
module LogRoundTrip {
  import opened Wrappers
  import opened Coding
  import opened Log

  /** A fragment as Cut makes it for a file of `pos` bytes. */
  ghost predicate Fits(pos: nat, p: Piece) {
    && p.pad == HeaderAt(pos) - pos
    && HeaderAt(pos) % BLOCK_SIZE + HEADER_SIZE + |p.data| <= BLOCK_SIZE
    && p.t in {FULL, FIRST, MIDDLE, LAST}
  }

  /** The parts of a fragment, byte by byte. */
  lemma RecordParts(sum: Checksum, file: Bytes, at: nat, t: Byte, data: Bytes)
    requires Holds(file, at, PhysicalRecord(sum, t, data)) && |data| < 0x1_0000
    ensures file[at..at + 4] == sum.stored(t, data)
    ensures Word(file[at + 4], file[at + 5]) == |data| && file[at + 6] == t
    ensures file[at + HEADER_SIZE..at + HEADER_SIZE + |data|] == data
  {
    var head, word := sum.stored(t, data), [|data| % 256, |data| / 256 % 256, t];
    ConcatAssoc(head, word, data);
    HoldsSplit(file, at, head, word + data);
    HoldsSplit(file, at + 4, word, data);
    assert file[at + 4] == word[0] && file[at + 5] == word[1] && file[at + 6] == word[2] by {
      var three := file[at + 4..at + 7];
      assert three == word;
      assert three[0] == file[at + 4] && three[1] == file[at + 5] && three[2] == file[at + 6];
    }
  }

  /** The head of a block's rest is a whole fragment. */
  lemma ParseWhole(sum: Checksum, buffer: Bytes, t: Byte, data: Bytes, eof: bool)
    requires sum.Sound() && t != ZERO && |data| < 0x1_0000
    requires Holds(buffer, 0, PhysicalRecord(sum, t, data))
    ensures ParseBuffer(sum, buffer, eof) == Physical(t, data, HEADER_SIZE + |data|, 0)
  {
    RecordParts(sum, buffer, 0, t, data);
    assert buffer[..4] == buffer[0..0 + 4];
  }

  lemma BlockRestHolds(file: Bytes, at: nat, bs: Bytes)
    requires Holds(file, at, bs) && at + |bs| <= BlockEnd(at)
    ensures Holds(BlockRest(file, at), 0, bs)
  {
    var rest := BlockRest(file, at);
    assert rest[0..0 + |bs|] == file[at..at + |bs|];
  }

  /** A fragment that is there in full, whatever is between `pos` and its header. */
  lemma WholeFragment(sum: Checksum, file: Bytes, pos: nat, t: Byte, data: Bytes)
    requires sum.Sound() && t != ZERO && HeaderAt(pos) % BLOCK_SIZE + HEADER_SIZE + |data| <= BLOCK_SIZE
    requires Holds(file, HeaderAt(pos), PhysicalRecord(sum, t, data))
    ensures ReadPhysical(sum, file, pos) == Physical(t, data, HeaderAt(pos) + HEADER_SIZE + |data|, 0)
  {
    var at := HeaderAt(pos);
    BlockRestHolds(file, at, PhysicalRecord(sum, t, data));
    ParseWhole(sum, BlockRest(file, at), t, data, |file| < BlockEnd(at));
  }

  lemma WholePiece(sum: Checksum, file: Bytes, pos: nat, p: Piece)
    requires sum.Sound() && Fits(pos, p) && Holds(file, pos, Renderer(sum)(p))
    ensures ReadPhysical(sum, file, pos) == Physical(p.t, p.data, HeaderAt(pos) + HEADER_SIZE + |p.data|, 0)
  {
    HoldsSplit(file, pos, Zeros(p.pad), PhysicalRecord(sum, p.t, p.data));
    WholeFragment(sum, file, pos, p.t, p.data);
  }

  lemma ParseTorn(sum: Checksum, buffer: Bytes)
    requires |buffer| >= HEADER_SIZE && HEADER_SIZE + Word(buffer[4], buffer[5]) > |buffer|
    ensures ParseBuffer(sum, buffer, true) == Physical(EOF, [], |buffer|, 0)
  {
  }

  /** A fragment that the file ends in reads as the end of the file. */
  lemma TornPiece(sum: Checksum, whole: Bytes, file: Bytes, pos: nat, p: Piece)
    requires Fits(pos, p) && Holds(whole, pos, Renderer(sum)(p))
    requires file <= whole && pos <= |file| < HeaderAt(pos) + HEADER_SIZE + |p.data|
    ensures ReadPhysical(sum, file, pos) == Physical(EOF, [], |file|, 0)
  {
    var at := HeaderAt(pos);
    if |file| >= at + HEADER_SIZE {
      HoldsSplit(whole, pos, Zeros(p.pad), PhysicalRecord(sum, p.t, p.data));
      RecordParts(sum, whole, at, p.t, p.data);
      var rest := BlockRest(file, at);
      assert rest[4] == whole[at + 4] && rest[5] == whole[at + 5];
      ParseTorn(sum, rest);
    }
  }

  /** Every fragment fits where it comes to lie. */
  ghost predicate Laid(pos: nat, pieces: seq<Piece>)
    decreases |pieces|
  {
    pieces != [] ==> Fits(pos, pieces[0]) && Laid(Next(pos, pieces[0]), pieces[1..])
  }

  lemma {:induction false} CutLaid(pos: nat, data: Bytes, begin: bool)
    ensures Laid(pos, Cut(pos, data, begin))
    decreases |data|, NoRoom(pos)
  {
    FragmentsShrink(pos, |data|);
    var n := FragmentLength(HeaderAt(pos), |data|);
    if n < |data| {
      CutLaid(HeaderAt(pos) + HEADER_SIZE + n, data[n..], false);
    }
  }

  lemma HoldsPrefix(whole: Bytes, file: Bytes, pos: nat, bs: Bytes)
    requires file <= whole && Holds(whole, pos, bs) && pos + |bs| <= |file|
    ensures Holds(file, pos, bs)
  {
    assert file[pos..pos + |bs|] == whole[pos..pos + |bs|];
  }

  function Next(pos: nat, p: Piece): nat {
    pos + p.pad + HEADER_SIZE + |p.data|
  }

  function EndOf(pos: nat, pieces: seq<Piece>): (r: nat)
    ensures r >= pos
    decreases |pieces|
  {
    if pieces == [] then pos else EndOf(Next(pos, pieces[0]), pieces[1..])
  }

  /** The reader finds these fragments from `pos` on, up to where the file is cut off. */
  ghost predicate Delivers(read: nat -> Physical, size: nat, pos: nat, pieces: seq<Piece>)
    decreases |pieces|
  {
    pieces != [] ==>
      var p, next := pieces[0], Next(pos, pieces[0]);
      if next <= size then read(pos) == Physical(p.t, p.data, next, 0) && Delivers(read, size, next, pieces[1..])
      else read(pos) == Physical(EOF, [], size, 0)
  }

  /** The fragments of one record. */
  ghost predicate Spells(pieces: seq<Piece>, data: Bytes, begin: bool) {
    && pieces != []
    && var p := pieces[0];
       && p.t == TypeOf(begin, |pieces| == 1)
       && (if |pieces| == 1 then data == p.data
           else |p.data| <= |data| && data[..|p.data|] == p.data && Spells(pieces[1..], data[|p.data|..], false))
  }

  lemma {:induction false} CutSpells(pos: nat, data: Bytes, begin: bool)
    ensures Spells(Cut(pos, data, begin), data, begin)
    decreases |data|, NoRoom(pos)
  {
    FragmentsShrink(pos, |data|);
    var n := FragmentLength(HeaderAt(pos), |data|);
    if n < |data| {
      CutSpells(HeaderAt(pos) + HEADER_SIZE + n, data[n..], false);
    } else {
      assert data[..n] == data;
    }
  }

  /** Every fragment but the last fills its block. */
  ghost predicate Filling(pos: nat, pieces: seq<Piece>)
    decreases |pieces|
  {
    |pieces| > 1 ==> Next(pos, pieces[0]) % BLOCK_SIZE == 0 && Filling(Next(pos, pieces[0]), pieces[1..])
  }

  /** A record is cut only where a block ends. */
  lemma {:induction false} CutFills(pos: nat, data: Bytes, begin: bool)
    ensures Filling(pos, Cut(pos, data, begin))
    decreases |data|, NoRoom(pos)
  {
    FragmentsShrink(pos, |data|);
    var at := HeaderAt(pos);
    var n := FragmentLength(at, |data|);
    if n < |data| {
      FullBlock(at, n);
      CutFills(at + HEADER_SIZE + n, data[n..], false);
    }
  }

  lemma FullBlock(at: nat, n: nat)
    requires at % BLOCK_SIZE + HEADER_SIZE + n == BLOCK_SIZE
    ensures (at + HEADER_SIZE + n) % BLOCK_SIZE == 0
  {
  }

  /** Each fragment of a record that was written at `pos` of the whole file. */
  lemma {:induction false} LaidDelivers(sum: Checksum, whole: Bytes, file: Bytes, pos: nat, pieces: seq<Piece>)
    requires sum.Sound() && file <= whole && pos <= |file| && Laid(pos, pieces)
    requires Holds(whole, pos, Flat(Renderer(sum), pieces))
    ensures Delivers(Source(sum, file), |file|, pos, pieces)
    decreases |pieces|
  {
    if pieces != [] {
      PieceDelivered(sum, whole, file, pos, pieces[0], Flat(Renderer(sum), pieces[1..]));
      if Next(pos, pieces[0]) <= |file| {
        LaidDelivers(sum, whole, file, Next(pos, pieces[0]), pieces[1..]);
      }
    }
  }

  lemma PieceDelivered(sum: Checksum, whole: Bytes, file: Bytes, pos: nat, p: Piece, later: Bytes)
    requires sum.Sound() && file <= whole && pos <= |file|
    requires Fits(pos, p) && Holds(whole, pos, Renderer(sum)(p) + later)
    ensures Holds(whole, Next(pos, p), later)
    ensures Source(sum, file)(pos)
         == if Next(pos, p) <= |file| then Physical(p.t, p.data, Next(pos, p), 0) else Physical(EOF, [], |file|, 0)
  {
    HoldsSplit(whole, pos, Renderer(sum)(p), later);
    if |file| < Next(pos, p) {
      TornPiece(sum, whole, file, pos, p);
    } else {
      HoldsPrefix(whole, file, pos, Renderer(sum)(p));
      WholePiece(sum, file, pos, p);
    }
  }

  /** The record so far, as ReadRecord keeps it. */
  function Scratch(begin: bool, scratch: Bytes): Option<Bytes> {
    if begin then None else Some(scratch)
  }

  /** Putting (the rest of) one record together: whole, or nothing if the file ends before
      it does. */
  lemma {:induction false} AssembleOne(read: nat -> Physical, size: nat, pos: nat, pieces: seq<Piece>, data: Bytes,
                                       begin: bool, scratch: Bytes)
    requires pos <= size && Delivers(read, size, pos, pieces) && Spells(pieces, data, begin)
    requires begin ==> scratch == []
    ensures AssembleFrom(read, size, pos, Scratch(begin, scratch))
         == if EndOf(pos, pieces) <= size then Logical(Some(scratch + data), EndOf(pos, pieces), 0) else Logical(None, size, 0)
    decreases |pieces|
  {
    var p := pieces[0];
    var next := Next(pos, p);
    if |pieces| == 1 {
      assert EndOf(next, pieces[1..]) == next;
      assert begin ==> scratch + data == data;
    } else if next <= size {
      var more := scratch + p.data;
      assert begin ==> more == p.data;
      AssembleOne(read, size, next, pieces[1..], data[|p.data|..], false, more);
      assert more + data[|p.data|..] == scratch + data;
    }
  }

  // ---------------------------------------------------------------------- whole files

  /** The file after AddRecord was called for each of the records. */
  function Written(sum: Checksum, records: seq<Bytes>): Bytes {
    if records == [] then []
    else
      var file := Written(sum, records[..|records| - 1]);
      file + Appended(sum, |file|, records[|records| - 1])
  }

  method WriteAll(sum: Checksum, records: seq<Bytes>) returns (file: Bytes)
    ensures file == Written(sum, records)
  {
    var writer := new Writer(sum, []);
    for i := 0 to |records|
      invariant writer.Valid() && writer.sum == sum && writer.dest == Written(sum, records[..i])
    {
      writer.AddRecord(records[i]);
      assert records[..i + 1][..i] == records[..i];
    }
    file := writer.dest;
    assert records[..|records|] == records;
  }

  /** The length of the file after the first `k` records. */
  function Ends(sum: Checksum, records: seq<Bytes>, k: nat): nat
    requires k <= |records|
  {
    |Written(sum, records[..k])|
  }

  lemma {:induction false} WrittenGrows(sum: Checksum, records: seq<Bytes>, k: nat)
    requires k <= |records|
    ensures Written(sum, records[..k]) <= Written(sum, records)
    decreases |records|
  {
    if k < |records| {
      var init := records[..|records| - 1];
      WrittenGrows(sum, init, k);
      assert init[..k] == records[..k];
    } else {
      assert records[..k] == records;
    }
  }

  lemma {:induction false} EndOfPieces(sum: Checksum, pos: nat, pieces: seq<Piece>)
    ensures EndOf(pos, pieces) == pos + |Flat(Renderer(sum), pieces)|
    decreases |pieces|
  {
    if pieces != [] {
      EndOfPieces(sum, Next(pos, pieces[0]), pieces[1..]);
    }
  }

  /** Record `k` lies in the file where the first `k` end. */
  lemma RecordHolds(sum: Checksum, records: seq<Bytes>, k: nat)
    requires k < |records|
    ensures Holds(Written(sum, records), Ends(sum, records, k), Appended(sum, Ends(sum, records, k), records[k]))
    ensures Ends(sum, records, k + 1) == EndOf(Ends(sum, records, k), Cut(Ends(sum, records, k), records[k], true))
  {
    var before, more := Written(sum, records[..k]), Appended(sum, Ends(sum, records, k), records[k]);
    assert records[..k + 1][..k] == records[..k];
    assert Written(sum, records[..k + 1]) == before + more;
    WrittenGrows(sum, records, k + 1);
    EndOfPieces(sum, |before|, Cut(|before|, records[k], true));
    PrefixHolds(Written(sum, records), before, more);
  }

  lemma PrefixHolds(file: Bytes, before: Bytes, more: Bytes)
    requires before + more <= file
    ensures Holds(file, |before|, more)
  {
    assert file[|before|..|before| + |more|] == (before + more)[|before|..];
  }

  /** One ReadRecord: the next record if all of it is there, otherwise the end. */
  ghost predicate Finds(read: nat -> Physical, size: nat, pos: nat, data: Bytes, end: nat) {
    AssembleFrom(read, size, pos, None) == if end <= size then Logical(Some(data), end, 0) else Logical(None, size, 0)
  }

  lemma RecordFound(sum: Checksum, records: seq<Bytes>, size: nat, k: nat)
    requires sum.Sound() && k < |records| && Ends(sum, records, k) <= size <= |Written(sum, records)|
    ensures Finds(Source(sum, Written(sum, records)[..size]), size, Ends(sum, records, k), records[k], Ends(sum, records, k + 1))
    ensures Ends(sum, records, k) < Ends(sum, records, k + 1)
  {
    var whole, pos := Written(sum, records), Ends(sum, records, k);
    var file, pieces := whole[..size], Cut(pos, records[k], true);
    RecordHolds(sum, records, k);
    CutLaid(pos, records[k], true);
    LaidDelivers(sum, whole, file, pos, pieces);
    CutSpells(pos, records[k], true);
    AssembleOne(Source(sum, file), size, pos, pieces, records[k], true, []);
    assert [] + records[k] == records[k];
  }

  /** The same in a file that goes on behind the records, whatever follows. */
  lemma RecordFoundBefore(sum: Checksum, records: seq<Bytes>, file: Bytes, k: nat)
    requires sum.Sound() && k < |records| && Written(sum, records) <= file
    ensures Finds(Source(sum, file), |file|, Ends(sum, records, k), records[k], Ends(sum, records, k + 1))
    ensures Ends(sum, records, k) < Ends(sum, records, k + 1) <= |file|
  {
    hide Written;
    var whole, pos := Written(sum, records), Ends(sum, records, k);
    var pieces := Cut(pos, records[k], true);
    RecordHolds(sum, records, k);
    HoldsOn(whole, file, pos, Appended(sum, pos, records[k]));
    CutLaid(pos, records[k], true);
    LaidDelivers(sum, file, file, pos, pieces);
    CutSpells(pos, records[k], true);
    AssembleOne(Source(sum, file), |file|, pos, pieces, records[k], true, []);
    assert [] + records[k] == records[k];
    WrittenGrows(sum, records, k + 1);
  }

  lemma HoldsOn(whole: Bytes, file: Bytes, pos: nat, bs: Bytes)
    requires whole <= file && Holds(whole, pos, bs)
    ensures Holds(file, pos, bs)
  {
    assert file[pos..pos + |bs|] == whole[pos..pos + |bs|];
  }

  lemma NothingAtTheEnd(sum: Checksum, file: Bytes)
    ensures Assemble(sum, file, |file|, None) == Logical(None, |file|, 0)
  {
    assert ReadPhysical(sum, file, |file|) == Physical(EOF, [], |file|, 0);
  }

  /** Reading on while whole records are found. */
  lemma {:induction false} ReadFound(read: nat -> Physical, size: nat, records: seq<Bytes>, ends: seq<nat>,
                                     from: nat, k: nat)
    requires from <= k <= |records| && |ends| == |records| + 1
    requires forall i :: from <= i < k ==> FoundAt(read, size, records, ends, i) && ends[i + 1] <= size
    requires ReadAllFrom(read, size, ends[k]) == ([], 0)
    ensures ReadAllFrom(read, size, ends[from]) == (records[from..k], 0)
    decreases k - from
  {
    if from < k {
      assert FoundAt(read, size, records, ends, from);
      ReadFound(read, size, records, ends, from + 1, k);
      assert [records[from]] + records[from + 1..k] == records[from..k];
    } else {
      assert records[from..k] == [];
    }
  }

  ghost predicate FoundAt(read: nat -> Physical, size: nat, records: seq<Bytes>, ends: seq<nat>, i: nat)
    requires i < |records| && |ends| == |records| + 1
  {
    ends[i] < ends[i + 1] && Finds(read, size, ends[i], records[i], ends[i + 1])
  }

  lemma EndsGrow(sum: Checksum, records: seq<Bytes>, j: nat, k: nat)
    requires j <= k <= |records|
    ensures Ends(sum, records, j) <= Ends(sum, records, k)
  {
    WrittenGrows(sum, records[..k], j);
    assert records[..k][..j] == records[..j];
  }

  /** At the end of the file, or in the record that it ends in, nothing more is read. */
  lemma NothingMore(sum: Checksum, records: seq<Bytes>, size: nat, k: nat)
    requires sum.Sound() && k <= |records| && Ends(sum, records, k) <= size <= |Written(sum, records)|
    requires k < |records| ==> size < Ends(sum, records, k + 1)
    ensures ReadAllFrom(Source(sum, Written(sum, records)[..size]), size, Ends(sum, records, k)) == ([], 0)
  {
    var file := Written(sum, records)[..size];
    if k < |records| {
      RecordFound(sum, records, size, k);
    } else {
      assert records[..k] == records;
      assert ReadPhysical(sum, file, size) == Physical(EOF, [], size, 0);
    }
  }

  /** Every record comes back, in order, and nothing else; after a crash that kept only the
      first `size` bytes, exactly the records that were complete; and no corruption is
      reported. */
  lemma ReadsBack(sum: Checksum, records: seq<Bytes>, size: nat, k: nat)
    requires sum.Sound() && k <= |records| && Ends(sum, records, k) <= size <= |Written(sum, records)|
    requires k < |records| ==> size < Ends(sum, records, k + 1)
    ensures ReadAll(sum, Written(sum, records)[..size]) == (records[..k], 0)
  {
    hide Written, Ends, ReadAllFrom, Source, Finds;
    EndsStart(sum, records);
    var read := Source(sum, Written(sum, records)[..size]);
    var ends: seq<nat> := seq(|records| + 1, i requires 0 <= i <= |records| => Ends(sum, records, i));
    forall i | 0 <= i < k ensures FoundAt(read, size, records, ends, i) && ends[i + 1] <= size {
      EndsGrow(sum, records, i, k);
      EndsGrow(sum, records, i + 1, k);
      RecordFound(sum, records, size, i);
    }
    NothingMore(sum, records, size, k);
    ReadFound(read, size, records, ends, 0, k);
    assert records[0..k] == records[..k] && records[..0] == [];
  }

  lemma EndsStart(sum: Checksum, records: seq<Bytes>)
    ensures Ends(sum, records, 0) == 0
  {
    assert records[..0] == [];
  }

  lemma WholeLogReadsBack(step: CrcStep, records: seq<Bytes>)
    ensures ReadAll(Crc(step), Written(Crc(step), records)) == (records, 0)
  {
    CrcIsSound(step);
    var file := Written(Crc(step), records);
    assert records[..|records|] == records && file[..|file|] == file;
    ReadsBack(Crc(step), records, |file|, |records|);
  }
}
