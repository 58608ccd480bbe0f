/** The log format (db/log_writer.cc, db/log_reader.cc): records cut into fragments that
    never cross a 32 KiB block, each behind a header of checksum, length and type. */
module Log {
  import opened Wrappers
  import opened Coding

  const BLOCK_SIZE := 32768
  const HEADER_SIZE := 7

  const ZERO: Byte := 0
  const FULL: Byte := 1
  const FIRST: Byte := 2
  const MIDDLE: Byte := 3
  const LAST: Byte := 4

  // Codes that ReadPhysicalRecord returns beside the record types.
  const EOF := 5
  const BAD_RECORD := 6

  // --------------------------------------------------------------------- checksums

  /** How one byte changes a running checksum; the tables behind it do not matter here. */
  type CrcStep = (bv32, Byte) -> bv32

  function Extend(step: CrcStep, init: bv32, data: Bytes): bv32
    decreases data
  {
    if data == [] then init else Extend(step, step(init, data[0]), data[1..])
  }

  lemma {:induction false} ExtendConcat(step: CrcStep, init: bv32, a: Bytes, b: Bytes)
    ensures Extend(step, Extend(step, init, a), b) == Extend(step, init, a + b)
    decreases a
  {
    if a == [] {
      assert a + b == b;
    } else {
      ExtendConcat(step, step(init, a[0]), a[1..], b);
      assert (a + b)[1..] == a[1..] + b;
    }
  }

  const MASK_DELTA: bv32 := 0xa282_ead8

  function Mask(crc: bv32): bv32 {
    ((crc >> 15) | (crc << 17)) + MASK_DELTA
  }

  function Unmask(masked: bv32): bv32 {
    var rot := masked - MASK_DELTA;
    (rot >> 17) | (rot << 15)
  }

  lemma BitVectorRoundTrip(m: bv32)
    ensures (m as nat) < TWO_32 && (m as nat) as bv32 == m
  {
  }

  lemma {:induction false} FixedFits(bs: Bytes)
    ensures DecodeFixed(bs) < Power256(|bs|)
  {
    if bs != [] {
      FixedFits(bs[1..]);
    }
  }

  function StoreFixed32(m: bv32): (bs: Bytes)
    ensures |bs| == 4
  {
    EncodeFixed(m as nat, 4)
  }

  function LoadFixed32(bs: Bytes): bv32
    requires |bs| == 4
  {
    Powers();
    FixedFits(bs);
    DecodeFixed(bs) as bv32
  }

  lemma Fixed32RoundTrip(m: bv32)
    ensures LoadFixed32(StoreFixed32(m)) == m
  {
    Powers();
    BitVectorRoundTrip(m);
    FixedRoundTrip(m as nat, 4);
  }

  /** Rotating and adding a constant loses nothing. */
  lemma UnmaskMask(crc: bv32)
    ensures Unmask(Mask(crc)) == crc && Mask(Unmask(crc)) == crc
  {
  }

  type Fixed32 = bs: Bytes | |bs| == 4 witness [0, 0, 0, 0]

  /** How the checksum of a fragment is stored, and how the reader compares it. */
  datatype Checksum = Checksum(stored: (Byte, Bytes) -> Fixed32, matches: (Fixed32, Byte, Bytes) -> bool) {
    ghost predicate Sound() {
      forall t, data :: matches(stored(t, data), t, data)
    }
  }

  /** The writer extends the checksum of the type byte by the payload; the reader sums
      type and payload in one go. */
  function Crc(step: CrcStep): Checksum {
    Checksum((t: Byte, data: Bytes) => StoreFixed32(Mask(Extend(step, Extend(step, 0, [t]), data))),
             (stored: Fixed32, t: Byte, data: Bytes) => Unmask(LoadFixed32(stored)) == Extend(step, 0, [t] + data))
  }

  lemma CrcIsSound(step: CrcStep)
    ensures Crc(step).Sound()
  {
    forall t: Byte, data: Bytes ensures Crc(step).matches(Crc(step).stored(t, data), t, data) {
      var crc := Extend(step, Extend(step, 0, [t]), data);
      Fixed32RoundTrip(Mask(crc));
      UnmaskMask(crc);
      ExtendConcat(step, 0, [t], data);
    }
  }

  // ------------------------------------------------------------------------ writer

  /** One fragment with its header. */
  function PhysicalRecord(sum: Checksum, t: Byte, data: Bytes): (r: Bytes)
    ensures |r| == HEADER_SIZE + |data|
  {
    sum.stored(t, data) + [|data| % 256, |data| / 256 % 256, t] + data
  }

  function Zeros(n: nat): (r: Bytes)
    ensures |r| == n && forall i :: 0 <= i < n ==> r[i] == 0
  {
    if n == 0 then [] else [0] + Zeros(n - 1)
  }

  /** Where the next header goes when the file is `pos` bytes long. */
  function HeaderAt(pos: nat): (r: nat)
    ensures pos <= r < pos + HEADER_SIZE && r % BLOCK_SIZE + HEADER_SIZE <= BLOCK_SIZE
  {
    var leftover := BLOCK_SIZE - pos % BLOCK_SIZE;
    if leftover < HEADER_SIZE then pos + leftover else pos
  }

  /** Bytes of the next fragment when `left` bytes remain and its header is at `at`. */
  function FragmentLength(at: nat, left: nat): (n: nat)
    requires at % BLOCK_SIZE + HEADER_SIZE <= BLOCK_SIZE
    ensures n <= left && n < 0x1_0000 && at % BLOCK_SIZE + HEADER_SIZE + n <= BLOCK_SIZE
  {
    var avail := BLOCK_SIZE - at % BLOCK_SIZE - HEADER_SIZE;
    if left < avail then left else avail
  }

  function TypeOf(begin: bool, end: bool): Byte {
    if begin && end then FULL else if begin then FIRST else if end then LAST else MIDDLE
  }

  /** A fragment as AddRecord emits it, behind `pad` zero bytes that end the last block. */
  datatype Piece = Piece(pad: nat, t: Byte, data: Bytes)

  function Renderer(sum: Checksum): Piece -> Bytes {
    (p: Piece) => Zeros(p.pad) + PhysicalRecord(sum, p.t, p.data)
  }

  /** How AddRecord cuts (the rest of) a record when the file is `pos` bytes long. */
  function Cut(pos: nat, data: Bytes, begin: bool): (r: seq<Piece>)
    decreases |data|, NoRoom(pos)
  {
    var at := HeaderAt(pos);
    var n := FragmentLength(at, |data|);
    FragmentsShrink(pos, |data|);
    [FirstPiece(pos, data, begin)] + if n == |data| then [] else Cut(at + HEADER_SIZE + n, data[n..], false)
  }

  lemma OneMorePiece(sum: Checksum, file: Bytes, pieces: seq<Piece>, piece: Piece)
    ensures (file + Flat(Renderer(sum), pieces)) + Zeros(piece.pad) + PhysicalRecord(sum, piece.t, piece.data)
         == file + Flat(Renderer(sum), pieces + [piece])
  {
    FlatSnoc(Renderer(sum), pieces, piece);
    ConcatAssoc(file, Flat(Renderer(sum), pieces), Renderer(sum)(piece));
    ConcatAssoc(file + Flat(Renderer(sum), pieces), Zeros(piece.pad), PhysicalRecord(sum, piece.t, piece.data));
  }

  /** The first fragment of a record to be written at `pos`. */
  function FirstPiece(pos: nat, data: Bytes, begin: bool): Piece {
    var n := FragmentLength(HeaderAt(pos), |data|);
    Piece(HeaderAt(pos) - pos, TypeOf(begin, n == |data|), data[..n])
  }

  lemma CutStep(all: seq<Piece>, pieces: seq<Piece>, pos: nat, data: Bytes, begin: bool)
    requires all == pieces + Cut(pos, data, begin)
    ensures var n := FragmentLength(HeaderAt(pos), |data|);
      all == pieces + [FirstPiece(pos, data, begin)] + if n == |data| then [] else Cut(HeaderAt(pos) + HEADER_SIZE + n, data[n..], false)
  {
  }

  /** A header may just fill its block, with no byte of data behind it. */
  function NoRoom(pos: nat): nat {
    if HeaderAt(pos) % BLOCK_SIZE + HEADER_SIZE == BLOCK_SIZE then 1 else 0
  }

  /** A fragment without data is followed by one with data. */
  lemma FragmentsShrink(pos: nat, left: nat)
    ensures var n := FragmentLength(HeaderAt(pos), left);
            n < left ==> n > 0 || NoRoom(HeaderAt(pos) + HEADER_SIZE + n) < NoRoom(pos)
  {
    var at := HeaderAt(pos);
    if 0 == FragmentLength(at, left) < left {
      assert (at + HEADER_SIZE) % BLOCK_SIZE == 0;
    }
  }

  /** A round of AddRecord brings `dest` one fragment closer to all of them. */
  lemma PieceEmitted(sum: Checksum, file: Bytes, pieces: seq<Piece>, all: seq<Piece>, before: Bytes, dest: Bytes,
                     data: Bytes, begin: bool)
      returns (pieces': seq<Piece>)
    requires before == file + Flat(Renderer(sum), pieces) && all == pieces + Cut(|before|, data, begin)
    requires var piece := FirstPiece(|before|, data, begin);
             dest == before + Zeros(piece.pad) + PhysicalRecord(sum, piece.t, piece.data)
    ensures var n := |FirstPiece(|before|, data, begin).data|;
            && dest == file + Flat(Renderer(sum), pieces')
            && (n == |data| ==> all == pieces')
            && (n < |data| ==> all == pieces' + Cut(|dest|, data[n..], false))
            && (n < |data| ==> n > 0 || NoRoom(|dest|) < NoRoom(|before|))
  {
    FragmentsShrink(|before|, |data|);
    CutStep(all, pieces, |before|, data, begin);
    OneMorePiece(sum, file, pieces, FirstPiece(|before|, data, begin));
    pieces' := pieces + [FirstPiece(|before|, data, begin)];
  }

  /** The bytes AddRecord appends for a record. */
  function Appended(sum: Checksum, pos: nat, data: Bytes): Bytes {
    Flat(Renderer(sum), Cut(pos, data, true))
  }

  /** `block_offset_` tells where the next header goes. */
  lemma RoomLeft(pos: nat, blockOffset: nat)
    requires blockOffset <= BLOCK_SIZE && blockOffset % BLOCK_SIZE == pos % BLOCK_SIZE
    ensures var leftover := BLOCK_SIZE - blockOffset;
            if leftover < HEADER_SIZE then HeaderAt(pos) == pos + leftover && HeaderAt(pos) % BLOCK_SIZE == 0
            else HeaderAt(pos) == pos && pos % BLOCK_SIZE == blockOffset
  {
  }

  lemma HeaderAndData(sum: Checksum, t: Byte, data: Bytes)
    requires |data| < 0x1_0000
    ensures PhysicalRecord(sum, t, data) == (sum.stored(t, data) + [|data| % 256, |data| / 256, t]) + data
  {
  }

  lemma OffsetsAgree(a: nat, b: nat, n: nat)
    requires a % BLOCK_SIZE == b % BLOCK_SIZE
    ensures (a + n) % BLOCK_SIZE == (b + n) % BLOCK_SIZE
  {
  }

  class Writer {
    const sum: Checksum
    var dest: Bytes
    var blockOffset: nat

    ghost predicate Valid()
      reads this
    {
      blockOffset <= BLOCK_SIZE && blockOffset % BLOCK_SIZE == |dest| % BLOCK_SIZE
    }

    /** Appends to a file that may have contents already. */
    constructor (sum: Checksum, dest: Bytes)
      ensures Valid() && this.dest == dest && this.sum == sum
    {
      this.sum := sum;
      this.dest := dest;
      blockOffset := |dest| % BLOCK_SIZE;
    }

    method EmitPhysicalRecord(t: Byte, data: Bytes)
      requires Valid() && blockOffset + HEADER_SIZE + |data| <= BLOCK_SIZE
      modifies this
      ensures Valid() && dest == old(dest) + PhysicalRecord(sum, t, data)
      ensures blockOffset == old(blockOffset) + HEADER_SIZE + |data|
    {
      hide PhysicalRecord;
      var header := sum.stored(t, data) + [|data| % 256, |data| / 256, t];
      HeaderAndData(sum, t, data);
      ConcatAssoc(dest, header, data);
      OffsetsAgree(blockOffset, |dest|, HEADER_SIZE + |data|);
      dest := dest + header;
      dest := dest + data;
      blockOffset := blockOffset + HEADER_SIZE + |data|;
    }

    /** Switches to a new block if the current one has no room for a header. */
    method FillTrailer()
      requires Valid()
      modifies this
      ensures Valid() && dest == old(dest) + Zeros(HeaderAt(|old(dest)|) - |old(dest)|)
      ensures blockOffset == HeaderAt(|old(dest)|) % BLOCK_SIZE
    {
      RoomLeft(|dest|, blockOffset);
      var leftover := BLOCK_SIZE - blockOffset;
      if leftover < HEADER_SIZE {
        dest := dest + Zeros(leftover);
        blockOffset := 0;
      }
    }

    /** One round of AddRecord. */
    method EmitFragment(data: Bytes, begin: bool) returns (n: nat)
      requires Valid()
      modifies this
      ensures Valid()
      ensures var piece := FirstPiece(|old(dest)|, data, begin);
              n == |piece.data| && dest == old(dest) + Zeros(piece.pad) + PhysicalRecord(sum, piece.t, piece.data)
    {
      FillTrailer();
      var avail := BLOCK_SIZE - blockOffset - HEADER_SIZE;
      n := if |data| < avail then |data| else avail;
      EmitPhysicalRecord(TypeOf(begin, n == |data|), data[..n]);
    }

    method AddRecord(data: Bytes)
      requires Valid()
      modifies this
      ensures Valid() && dest == old(dest) + Appended(sum, |old(dest)|, data)
    {
      var ptr := data;
      ghost var file, pieces, all := dest, [], Cut(|dest|, data, true);
      var n := EmitFragment(ptr, true);
      pieces := PieceEmitted(sum, file, pieces, all, file, dest, ptr, true);
      while n < |ptr|
        invariant Valid() && 0 <= n <= |ptr|
        invariant dest == file + Flat(Renderer(sum), pieces)
        invariant n == |ptr| ==> all == pieces
        invariant n < |ptr| ==> all == pieces + Cut(|dest|, ptr[n..], false)
        decreases |ptr| - n, NoRoom(|dest|)
      {
        ptr := ptr[n..];
        ghost var before := dest;
        n := EmitFragment(ptr, false);
        pieces := PieceEmitted(sum, file, pieces, all, before, dest, ptr, false);
      }
    }
  }

  // ------------------------------------------------------------------------ reader

  /** What ReadPhysicalRecord returns, where the next one starts (in the buffer or in the
      file), and how many corruptions it reported. */
  datatype Physical = Physical(code: nat, fragment: Bytes, next: nat, reports: nat)

  function Word(lo: nat, hi: nat): nat {
    lo + 256 * hi
  }

  function BlockEnd(at: nat): nat {
    at - at % BLOCK_SIZE + BLOCK_SIZE
  }

  /** The physical record at the head of the buffer. */
  function ParseBuffer(sum: Checksum, buffer: Bytes, eof: bool): (r: Physical)
    requires |buffer| >= HEADER_SIZE
    ensures 0 < r.next <= |buffer|
  {
    var length, t := Word(buffer[4], buffer[5]), buffer[6];
    if HEADER_SIZE + length > |buffer| then
      if eof then Physical(EOF, [], |buffer|, 0) else Physical(BAD_RECORD, [], |buffer|, 1)
    else if t == ZERO && length == 0 then Physical(BAD_RECORD, [], |buffer|, 0)
    else
      var data := buffer[HEADER_SIZE..HEADER_SIZE + length];
      if sum.matches(buffer[..4], t, data) then Physical(t, data, HEADER_SIZE + length, 0)
      else Physical(BAD_RECORD, [], |buffer|, 1)
  }

  /** The physical record at or after `pos` of a file. */
  function ReadPhysical(sum: Checksum, file: Bytes, pos: nat): (r: Physical)
    requires pos <= |file|
    ensures r.next <= |file|
    ensures r.code != EOF ==> pos < r.next
  {
    var at := HeaderAt(pos);
    if |file| < at + HEADER_SIZE then Physical(EOF, [], |file|, 0)
    else
      var p := ParseBuffer(sum, BlockRest(file, at), |file| < BlockEnd(at));
      p.(next := at + p.next)
  }

  /** From `at` to the end of its block or of the file. */
  function BlockRest(file: Bytes, at: nat): Bytes
    requires at <= |file|
  {
    file[at..if |file| < BlockEnd(at) then |file| else BlockEnd(at)]
  }

  /** The outcome of ReadRecord: a record, or None at the end of the file. */
  datatype Logical = Logical(record: Option<Bytes>, next: nat, reports: int)

  function Reported(more: int, r: Logical): Logical {
    r.(reports := r.reports + more)
  }

  /** A fragmented record is dropped; an empty first fragment does not count. */
  function Dangling(partial: Option<Bytes>): nat {
    if partial.Some? && partial.value != [] then 1 else 0
  }

  /** What one physical record does to a record in the making. */
  datatype Taken = Done(record: Option<Bytes>, reports: nat) | More(partial: Option<Bytes>, reports: nat)

  function Take(partial: Option<Bytes>, code: nat, fragment: Bytes): Taken {
    if code == EOF then Done(None, 0)
    else if code == FULL then Done(Some(fragment), Dangling(partial))
    else if code == FIRST then More(Some(fragment), Dangling(partial))
    else if code == MIDDLE && partial.Some? then More(Some(partial.value + fragment), 0)
    else if code == LAST && partial.Some? then Done(Some(partial.value + fragment), 0)
    else if code == MIDDLE || code == LAST then More(None, 1)
    else if code == BAD_RECORD then More(None, if partial.Some? then 1 else 0)
    else More(None, 1)
  }

  /** ReadRecord from `pos`, with the fragments collected so far in `partial`, where `read`
      tells what ReadPhysicalRecord returns at each position. */
  function AssembleFrom(read: nat -> Physical, size: nat, pos: nat, partial: Option<Bytes>): (r: Logical)
    ensures pos <= size ==> pos <= r.next
    decreases size - pos
  {
    var p := read(pos);
    match Take(partial, p.code, p.fragment)
    case Done(record, reports) => if pos <= p.next then Logical(record, p.next, p.reports + reports) else Logical(None, pos, 0)
    case More(partial', reports) =>
      if pos < p.next <= size then Reported(p.reports + reports, AssembleFrom(read, size, p.next, partial')) else Logical(None, pos, 0)
  }

  function Source(sum: Checksum, file: Bytes): nat -> Physical {
    (pos: nat) => if pos <= |file| then ReadPhysical(sum, file, pos) else Physical(EOF, [], |file|, 0)
  }

  lemma {:induction false} AssembleAdvances(sum: Checksum, file: Bytes, pos: nat, partial: Option<Bytes>)
    requires pos <= |file|
    ensures var r := Assemble(sum, file, pos, partial); pos <= r.next <= |file| && (r.record.Some? ==> pos < r.next)
    decreases |file| - pos
  {
    var p := ReadPhysical(sum, file, pos);
    var taken := Take(partial, p.code, p.fragment);
    if taken.More? {
      AssembleAdvances(sum, file, p.next, taken.partial);
    }
  }

  function Assemble(sum: Checksum, file: Bytes, pos: nat, partial: Option<Bytes>): Logical {
    AssembleFrom(Source(sum, file), |file|, pos, partial)
  }

  /** All the records of a file and the number of corruptions reported on the way. */
  function ReadAllFrom(read: nat -> Physical, size: nat, pos: nat): (seq<Bytes>, int)
    decreases size - pos
  {
    var r := AssembleFrom(read, size, pos, None);
    match r.record
    case None => ([], r.reports)
    case Some(record) =>
      if pos < r.next <= size then
        var (later, reports) := ReadAllFrom(read, size, r.next);
        ([record] + later, r.reports + reports)
      else ([], r.reports)
  }

  function ReadAll(sum: Checksum, file: Bytes): (seq<Bytes>, int) {
    ReadAllFrom(Source(sum, file), |file|, 0)
  }

  /** Fewer than seven bytes before a block boundary are a trailer. */
  lemma TrailerSkipped(fetched: nat, left: nat)
    requires fetched % BLOCK_SIZE == 0 && left < HEADER_SIZE && left <= fetched
    ensures HeaderAt(fetched - left) == fetched == HeaderAt(fetched)
  {
    if left > 0 {
      assert (fetched - left) % BLOCK_SIZE == BLOCK_SIZE - left;
    }
  }

  /** The buffer ends with its block, or with the file when that was seen to end first. */
  lemma BufferEnds(fetched: nat, left: nat, eof: bool)
    requires 0 < left <= fetched
    requires if eof then left <= fetched % BLOCK_SIZE else fetched % BLOCK_SIZE == 0 && left <= BLOCK_SIZE
    ensures if eof then fetched < BlockEnd(fetched - left) else fetched == BlockEnd(fetched - left)
  {
    var pos := fetched - left;
    if eof {
      assert pos % BLOCK_SIZE == fetched % BLOCK_SIZE - left;
    } else {
      assert pos % BLOCK_SIZE == BLOCK_SIZE - left || left == BLOCK_SIZE;
    }
  }

  /** What is left of the buffer starts a header. */
  lemma RoomForHeader(fetched: nat, left: nat, eof: bool)
    requires HEADER_SIZE <= left <= fetched
    requires if eof then left <= fetched % BLOCK_SIZE else fetched % BLOCK_SIZE == 0 && left <= BLOCK_SIZE
    ensures HeaderAt(fetched - left) == fetched - left
  {
    BufferEnds(fetched, left, eof);
  }

  class Reader {
    const sum: Checksum
    const file: Bytes
    var fetched: nat     // bytes taken from the file: end_of_buffer_offset_
    var buffer: Bytes
    var eof: bool
    var reports: nat

    ghost predicate Valid()
      reads this
    {
      && |buffer| <= fetched <= |file|
      && buffer == file[fetched - |buffer|..fetched]
      && (if eof then fetched == |file| && |buffer| <= fetched % BLOCK_SIZE else fetched % BLOCK_SIZE == 0 && |buffer| <= BLOCK_SIZE)
    }

    ghost function Pos(): nat
      requires Valid()
      reads this
    {
      fetched - |buffer|
    }

    constructor (sum: Checksum, file: Bytes)
      ensures Valid() && Pos() == 0 && reports == 0 && this.sum == sum && this.file == file
    {
      this.sum, this.file := sum, file;
      fetched, buffer, eof, reports := 0, [], false, 0;
    }

    /** Reads the next block behind a trailer. */
    method Refill()
      requires Valid() && !eof && |buffer| < HEADER_SIZE
      modifies this
      ensures Valid() && reports == old(reports)
      ensures Pos() == HeaderAt(old(Pos())) == HeaderAt(Pos()) && (eof || |buffer| >= HEADER_SIZE)
    {
      TrailerSkipped(fetched, |buffer|);
      var n := if |file| - fetched < BLOCK_SIZE then |file| - fetched else BLOCK_SIZE;
      buffer := file[fetched..fetched + n];
      fetched := fetched + n;
      eof := |buffer| < BLOCK_SIZE;
    }

    /** Makes a whole header available, or finds that there is none. */
    method FillBuffer() returns (ok: bool)
      requires Valid()
      modifies this
      ensures Valid() && reports == old(reports)
      ensures ok <==> HeaderAt(old(Pos())) + HEADER_SIZE <= |file|
      ensures ok ==> Pos() == HeaderAt(old(Pos())) && |buffer| >= HEADER_SIZE
      ensures !ok ==> Pos() == |file|
    {
      while |buffer| < HEADER_SIZE
        invariant Valid() && reports == old(reports) && (Pos() == old(Pos()) || Pos() == HeaderAt(old(Pos())))
        invariant HeaderAt(Pos()) == HeaderAt(old(Pos()))
        decreases if |buffer| >= HEADER_SIZE then 0 else if eof then 1 else 2
      {
        if eof {
          // Less than a header is left: a writer died here
          buffer := [];
          return false;
        }
        // The trailer of a full block
        Refill();
      }
      RoomForHeader(fetched, |buffer|, eof);
      ok := true;
    }

    method ReadPhysicalRecord() returns (code: nat, fragment: Bytes)
      requires Valid()
      modifies this
      ensures Valid()
      ensures var p := ReadPhysical(sum, file, old(Pos()));
              code == p.code && fragment == p.fragment && Pos() == p.next && reports == old(reports) + p.reports
    {
      fragment := [];
      var ok := FillBuffer();
      if !ok {
        return EOF, [];
      }
      BufferEnds(fetched, |buffer|, eof);
      assert buffer == BlockRest(file, Pos());
      code, fragment := ParseRecord();
    }

    /** The part of ReadPhysicalRecord that looks at the buffer. */
    method ParseRecord() returns (code: nat, fragment: Bytes)
      requires Valid() && |buffer| >= HEADER_SIZE
      modifies this
      ensures Valid()
      ensures var p := ParseBuffer(sum, old(buffer), old(eof));
              code == p.code && fragment == p.fragment && Pos() == old(Pos()) + p.next && reports == old(reports) + p.reports
    {
      var length := Word(buffer[4], buffer[5]);
      var t := buffer[6];
      if HEADER_SIZE + length > |buffer| {
        buffer := [];
        if !eof {
          reports := reports + 1;
          return BAD_RECORD, [];
        }
        // The payload is cut off: a writer died here
        return EOF, [];
      }
      if t == ZERO && length == 0 {
        // Preallocated file regions
        buffer := [];
        return BAD_RECORD, [];
      }
      if !sum.matches(buffer[..4], t, buffer[HEADER_SIZE..HEADER_SIZE + length]) {
        buffer := [];
        reports := reports + 1;
        return BAD_RECORD, [];
      }
      code, fragment := t, buffer[HEADER_SIZE..HEADER_SIZE + length];
      buffer := buffer[HEADER_SIZE + length..];
    }

    /** The switch of ReadRecord: `partial` is scratch, while inside a fragmented record. */
    method Dispatch(partial: Option<Bytes>, code: nat, fragment: Bytes) returns (r: Taken)
      modifies this`reports
      ensures r == Take(partial, code, fragment) && reports == old(reports) + r.reports
    {
      var before := reports;
      if code == FULL {
        if partial.Some? && partial.value != [] {
          reports := reports + 1;
        }
        r := Done(Some(fragment), reports - before);
      } else if code == FIRST {
        if partial.Some? && partial.value != [] {
          reports := reports + 1;
        }
        r := More(Some(fragment), reports - before);
      } else if code == MIDDLE {
        if partial.None? {
          reports := reports + 1;
          r := More(None, 1);
        } else {
          r := More(Some(partial.value + fragment), 0);
        }
      } else if code == LAST {
        if partial.None? {
          reports := reports + 1;
          r := More(None, 1);
        } else {
          r := Done(Some(partial.value + fragment), 0);
        }
      } else if code == EOF {
        r := Done(None, 0);
      } else if code == BAD_RECORD {
        if partial.Some? {
          reports := reports + 1;
        }
        r := More(None, reports - before);
      } else {
        reports := reports + 1;
        r := More(None, 1);
      }
    }

    method ReadFragment(partial: Option<Bytes>) returns (r: Taken)
      requires Valid()
      modifies this
      ensures Valid()
      ensures var all := Assemble(sum, file, old(Pos()), partial);
              if r.Done? then r.record == all.record && Pos() == all.next && reports == old(reports) + all.reports
              else Pos() > old(Pos()) && all == Reported(reports - old(reports), Assemble(sum, file, Pos(), r.partial))
    {
      var code, fragment := ReadPhysicalRecord();
      r := Dispatch(partial, code, fragment);
    }

    method ReadRecord() returns (record: Option<Bytes>)
      requires Valid()
      modifies this
      ensures Valid()
      ensures var r := Assemble(sum, file, old(Pos()), None);
              record == r.record && Pos() == r.next && reports == old(reports) + r.reports
    {
      ghost var all := Assemble(sum, file, Pos(), None);
      var r := More(None, 0);
      while r.More?
        invariant Valid()
        invariant r.Done? ==> r.record == all.record && Pos() == all.next && reports == old(reports) + all.reports
        invariant r.More? ==> all == Reported(reports - old(reports), Assemble(sum, file, Pos(), r.partial))
        decreases r.More?, |file| - Pos()
      {
        r := ReadFragment(r.partial);
      }
      record := r.record;
    }
  }
}
