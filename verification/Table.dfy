/** Tables (table/table_builder.cc, table/table.cc): data blocks, an index of separators, and
    point reads through both. */
module Table {
  import opened Wrappers
  import opened Coding
  import opened KeyOrders
  import opened Block
  import opened BlockIter
  import opened Comparators
  import Log

  // ----------------------------------------------------------------- block handles

  datatype Handle = Handle(offset: nat, size: nat)

  function EncodeHandle(h: Handle): Bytes {
    PutVarint(h.offset) + PutVarint(h.size)
  }

  /** A handle and what follows it. */
  function GetHandle(input: Bytes): Option<(Handle, Bytes)> {
    match GetVarint64(input)
    case None => None
    case Some((offset, rest)) =>
      match GetVarint64(rest)
      case None => None
      case Some((size, rest')) => Some((Handle(offset, size), rest'))
  }

  function DecodeHandle(input: Bytes): Option<Handle> {
    match GetHandle(input)
    case None => None
    case Some((h, _)) => Some(h)
  }

  lemma GetHandleRoundTrip(h: Handle, rest: Bytes)
    requires h.offset < TWO_64 && h.size < TWO_64
    ensures GetHandle(EncodeHandle(h) + rest) == Some((h, rest)) && |EncodeHandle(h)| <= 20
  {
    ConcatAssoc(PutVarint(h.offset), PutVarint(h.size), rest);
    Varint64RoundTrip(h.offset, PutVarint(h.size) + rest);
    Varint64RoundTrip(h.size, rest);
    VarintLimits();
    VarintRoundTrip(h.offset, [], 10);
    VarintRoundTrip(h.size, [], 10);
  }

  /** Two varints. */
  ghost predicate SpellsHandle(bs: Bytes, h: Handle) {
    exists a: Bytes, b: Bytes :: SpellsVarint64(a, h.offset) && SpellsVarint64(b, h.size) && bs == a + b
  }

  /** A handle is accepted if and only if its bytes stand at the front. */
  lemma GetHandleExact(input: Bytes, h: Handle, rest: Bytes)
    ensures GetHandle(input) == Some((h, rest)) <==> exists bs :: SpellsHandle(bs, h) && input == bs + rest
  {
    hide SpellsVarint64, GetVarint64;
    if GetHandle(input) == Some((h, rest)) {
      var a := SpelledVarint64(input);
      var b := SpelledVarint64(GetVarint64(input).value.1);
      ConcatAssoc(a, b, rest);
      assert SpellsHandle(a + b, h);
    }
    if bs :| SpellsHandle(bs, h) && input == bs + rest {
      var a: Bytes, b: Bytes :| SpellsVarint64(a, h.offset) && SpellsVarint64(b, h.size) && bs == a + b;
      ConcatAssoc(a, b, rest);
      Varint64IsRead(a, h.offset, b + rest);
      Varint64IsRead(b, h.size, rest);
    }
  }

  lemma HandleRoundTrip(h: Handle)
    requires h.offset < TWO_64 && h.size < TWO_64
    ensures DecodeHandle(EncodeHandle(h)) == Some(h)
  {
    GetHandleRoundTrip(h, []);
    assert EncodeHandle(h) + [] == EncodeHandle(h);
  }

  // ------------------------------------------------------------- the shape of a table

  /** The entries of a data block; it is never empty. */
  type Chunk = es: seq<Entry> | es != [] witness [Entry([], [])]

  /** Keys ascend within and across the blocks. */
  ghost predicate ChunksOk(lt: KeyOrder, chunks: seq<Chunk>) {
    && (forall i :: 0 <= i < |chunks| ==> Increasing(lt, chunks[i]))
    && (forall i :: 0 <= i < |chunks| - 1 ==> lt(Last(chunks[i]).key, chunks[i + 1][0].key))
  }

  function Last(es: Chunk): Entry {
    es[|es| - 1]
  }

  /** An index key: at or above a block's last key and below the next block's first; if it
      is not the last key itself, its user key lies strictly between theirs. */
  ghost predicate Between(ult: KeyOrder, sep: Bytes, last: Bytes, first: Bytes) {
    && !InternalLess(ult, sep, last) && InternalLess(ult, sep, first)
    && (sep == last || ult(UserKey(sep), UserKey(first)))
  }

  // ------------------------------------------------------------------ stored blocks

  const NO_COMPRESSION: Byte := 0
  const TRAILER_SIZE := 5

  /** The checksum of a block covers its contents, then the type byte. */
  function BlockCrc(step: Log.CrcStep): Log.Checksum {
    Log.Checksum((t: Byte, data: Bytes) => Log.StoreFixed32(Log.Mask(Log.Extend(step, Log.Extend(step, 0, data), [t]))),
                 (stored: Log.Fixed32, t: Byte, data: Bytes) => Log.Unmask(Log.LoadFixed32(stored)) == Log.Extend(step, 0, data + [t]))
  }

  lemma BlockCrcIsSound(step: Log.CrcStep)
    ensures BlockCrc(step).Sound()
  {
    forall t: Byte, data: Bytes ensures BlockCrc(step).matches(BlockCrc(step).stored(t, data), t, data) {
      var crc := Log.Extend(step, Log.Extend(step, 0, data), [t]);
      Log.Fixed32RoundTrip(Log.Mask(crc));
      Log.UnmaskMask(crc);
      Log.ExtendConcat(step, 0, data, [t]);
    }
  }

  /** What WriteRawBlock appends behind the contents. */
  function Trailer(sum: Log.Checksum, contents: Bytes): (r: Bytes)
    ensures |r| == TRAILER_SIZE
  {
    [NO_COMPRESSION] + sum.stored(NO_COMPRESSION, contents)
  }

  /** `RandomAccessFile::Read`: up to `n` bytes at `offset`. */
  function ReadAt(file: Bytes, offset: nat, n: nat): (r: Bytes)
    ensures |r| <= n
  {
    if offset >= |file| then [] else if offset + n > |file| then file[offset..] else file[offset..offset + n]
  }

  /** A block, a refusal, or a look at bytes that were not read. */
  datatype Fetch = Fetched(contents: Bytes) | Refused | Strayed

  /** `size_t` addition. */
  function Wanted(h: Handle): nat {
    (h.size + TRAILER_SIZE) % TWO_64
  }

  /** `ReadBlock` as the code has it, for uncompressed blocks and with checksums verified: how
      much to read is a sum in 64 bits, and a read of that length is accepted. */
  function FetchBlock(sum: Log.Checksum, file: Bytes, h: Handle): Fetch {
    var data := ReadAt(file, h.offset, Wanted(h));
    if |data| != Wanted(h) then Refused
    else if h.size + TRAILER_SIZE > |data| then Strayed
    else
      var n := h.size;
      if !sum.matches(data[n + 1..n + 5], data[n], data[..n]) || data[n] != NO_COMPRESSION then Refused else Fetched(data[..n])
  }

  /** Without a limit on sizes: what a handle stands for. */
  function ReadBlock(sum: Log.Checksum, file: Bytes, h: Handle): Option<Bytes> {
    var end := h.offset + h.size;
    if end + TRAILER_SIZE > |file| then None
    else
      var contents := file[h.offset..end];
      if !sum.matches(file[end + 1..end + 5], file[end], contents) || file[end] != NO_COMPRESSION then None else Some(contents)
  }

  /** For all files and handles: a read of the right length has the type and the checksum of the
      block in it if and only if the sum does not wrap around; and then the code finds what the
      handle stands for. */
  lemma FetchInside(sum: Log.Checksum, file: Bytes, h: Handle)
    requires h.size < TWO_64
    ensures var data := ReadAt(file, h.offset, Wanted(h));
            |data| == Wanted(h) ==> (h.size + TRAILER_SIZE <= |data| <==> h.size + TRAILER_SIZE < TWO_64)
    ensures FetchBlock(sum, file, h).Strayed? ==> h.size + TRAILER_SIZE >= TWO_64
    ensures h.size + TRAILER_SIZE < TWO_64 ==>
      FetchBlock(sum, file, h) == match ReadBlock(sum, file, h) case Some(contents) => Fetched(contents) case None => Refused
  {
    if h.size + TRAILER_SIZE < TWO_64 {
      assert Wanted(h) == h.size + TRAILER_SIZE;
      var n, end := h.size, h.offset + h.size;
      if end + TRAILER_SIZE <= |file| {
        var data := ReadAt(file, h.offset, Wanted(h));
        assert data == file[h.offset..end + TRAILER_SIZE];
        assert data[n + 1..n + 5] == file[end + 1..end + 5] && data[..n] == file[h.offset..end] && data[n] == file[end];
      }
    } else {
      assert Wanted(h) == h.size + TRAILER_SIZE - TWO_64;
    }
  }

  /** For all files and handles: contents are handed over if and only if they stand in the file
      where the handle says, behind them a type byte of zero and a checksum that matches. */
  lemma FetchedIsChecked(sum: Log.Checksum, file: Bytes, h: Handle, contents: Bytes)
    ensures FetchBlock(sum, file, h) == Fetched(contents) <==>
            var end := h.offset + h.size;
            && h.size + 5 < TWO_64 && end + 5 <= |file| && contents == file[h.offset..end]
            && file[end] == 0 && sum.matches(file[end + 1..end + 5], 0, contents)
  {
    if h.size + TRAILER_SIZE < TWO_64 {
      FetchInside(sum, file, h);
    } else {
      assert Wanted(h) < h.size + TRAILER_SIZE;
    }
  }

  /** A handle that makes the code look in front of an empty read, in any file. */
  lemma StrayHandle(sum: Log.Checksum, file: Bytes)
    ensures FetchBlock(sum, file, Handle(0, TWO_64 - TRAILER_SIZE)) == Strayed
    ensures DecodeHandle(EncodeHandle(Handle(0, TWO_64 - TRAILER_SIZE))) == Some(Handle(0, TWO_64 - TRAILER_SIZE))
  {
    hide EncodeHandle, DecodeHandle;
    HandleRoundTrip(Handle(0, TWO_64 - TRAILER_SIZE));
    assert Wanted(Handle(0, TWO_64 - TRAILER_SIZE)) == 0;
  }

  /** Whatever is stored in a file below 2^64 bytes is fetched. */
  lemma StoredIsFetched(sum: Log.Checksum, file: Bytes, h: Handle)
    requires ReadBlock(sum, file, h).Some? && |file| < TWO_64
    ensures FetchBlock(sum, file, h) == Fetched(ReadBlock(sum, file, h).value)
  {
    FetchInside(sum, file, h);
  }

  lemma BlockReadsBack(sum: Log.Checksum, file: Bytes, contents: Bytes)
    requires sum.Sound()
    ensures ReadBlock(sum, (file + contents) + Trailer(sum, contents), Handle(|file|, |contents|)) == Some(contents)
  {
    var all, end := (file + contents) + Trailer(sum, contents), |file| + |contents|;
    assert all[|file|..end] == contents && all[end] == NO_COMPRESSION && all[end + 1..end + 5] == sum.stored(NO_COMPRESSION, contents);
  }

  lemma BlockStays(sum: Log.Checksum, file: Bytes, more: Bytes, h: Handle)
    requires ReadBlock(sum, file, h).Some?
    ensures ReadBlock(sum, file + more, h) == ReadBlock(sum, file, h)
  {
    var all, end := file + more, h.offset + h.size;
    assert all[h.offset..end] == file[h.offset..end] && all[end + 1..end + 5] == file[end + 1..end + 5];
  }

  ghost predicate AllStored(sum: Log.Checksum, file: Bytes, interval: nat, blocks: seq<Chunk>, handles: seq<Handle>) {
    |handles| == |blocks| && forall i :: 0 <= i < |blocks| ==> ReadBlock(sum, file, handles[i]) == Some(Finished(interval, blocks[i]))
  }

  /** Index entry `i` leads to block `i`; only the last block of a finished table may lack a
      next block to be separated from. */
  ghost predicate IndexFits(ult: KeyOrder, ies: seq<Entry>, chunks: seq<Chunk>, handles: seq<Handle>, closed: bool)
    requires |ies| <= |handles| <= |chunks|
  {
    forall i :: 0 <= i < |ies| ==>
      && ies[i].value == EncodeHandle(handles[i])
      && if i + 1 < |chunks| then Between(ult, ies[i].key, Last(chunks[i]).key, chunks[i + 1][0].key)
         else closed && !InternalLess(ult, ies[i].key, Last(chunks[i]).key)
  }

  /** All entries in order. */
  function Flatten(chunks: seq<Chunk>): seq<Entry> {
    if chunks == [] then [] else Flatten(chunks[..|chunks| - 1]) + chunks[|chunks| - 1]
  }

  /** One more entry in the open chunk, or in a new one. */
  function Extended(blocks: seq<Chunk>, open_: seq<Entry>, e: Entry): seq<Chunk> {
    blocks + [open_ + [e]]
  }

  function ChunksOf(blocks: seq<Chunk>, open_: seq<Entry>): seq<Chunk> {
    blocks + if open_ == [] then [] else [open_]
  }

  lemma FlattenExtended(blocks: seq<Chunk>, open_: seq<Entry>, e: Entry)
    ensures Flatten(Extended(blocks, open_, e)) == Flatten(ChunksOf(blocks, open_)) + [e]
  {
    assert Extended(blocks, open_, e)[..|blocks|] == blocks;
    if open_ == [] {
      assert ChunksOf(blocks, open_) == blocks && open_ + [e] == [e];
    } else {
      assert ChunksOf(blocks, open_)[..|blocks|] == blocks;
    }
  }

  lemma ExtendKeepsChunks(lt: KeyOrder, blocks: seq<Chunk>, open_: seq<Entry>, e: Entry)
    requires WeakOrder(lt) && ChunksOk(lt, ChunksOf(blocks, open_))
    requires var cs := ChunksOf(blocks, open_); cs != [] ==> lt(Last(cs[|cs| - 1]).key, e.key)
    ensures ChunksOk(lt, Extended(blocks, open_, e))
  {
    var cs: seq<Chunk>, cs': seq<Chunk> := ChunksOf(blocks, open_), Extended(blocks, open_, e);
    if open_ != [] {
      assert cs[|blocks|] == open_;
      forall j | 0 <= j < |open_| ensures lt(open_[j].key, e.key) {
        if j < |open_| - 1 {
          Transitive(lt, open_[j].key, Last(open_).key, e.key);
        }
      }
    }
    forall i | 0 <= i < |cs'| ensures Increasing(lt, cs'[i]) {
      if i < |blocks| {
        assert cs'[i] == cs[i];
      }
    }
    forall i | 0 <= i < |cs'| - 1 ensures lt(Last(cs'[i]).key, cs'[i + 1][0].key) {
      assert cs'[i] == cs[i];
      if i + 1 < |blocks| || open_ != [] {
        assert cs'[i + 1][0] == cs[i + 1][0];
      }
    }
  }

  // ------------------------------------------------------------------------ builder

  class TableBuilder {
    const ult: KeyOrder
    const shorten: (Bytes, Bytes) -> Bytes     // FindShortestSeparator of the user comparator
    const successor: Bytes -> Bytes            // FindShortSuccessor of the user comparator
    const sum: Log.Checksum
    const interval: nat                        // block_restart_interval
    const blockSize: nat
    const dataBlock: Builder
    const indexBlock: Builder
    var file: Bytes
    var lastKey: Bytes
    var pendingIndexEntry: bool
    var pendingHandle: Handle
    var closed: bool

    // The data blocks written so far and their handles.
    ghost var blocks: seq<Chunk>
    ghost var handles: seq<Handle>

    /** All entries, by block; the last block may be open. */
    ghost function Chunks(): seq<Chunk>
      reads this, dataBlock
    {
      ChunksOf(blocks, dataBlock.es)
    }

    ghost predicate Ready()
      reads this, dataBlock, indexBlock
    {
      && dataBlock != indexBlock && dataBlock.Valid() && indexBlock.Valid()
      && !dataBlock.finished && dataBlock.interval == interval && indexBlock.interval == 1
      && WeakOrder(ult) && Separates(ult, shorten) && sum.Sound()
    }

    ghost predicate Valid()
      reads this, dataBlock, indexBlock
    {
      && Ready()
      && ChunksOk(Internal(ult), Chunks())
      && |handles| == |blocks| && AllStored(sum, file, interval, blocks, handles)
      && |indexBlock.es| <= |blocks| && IndexFits(ult, indexBlock.es, Chunks(), handles, closed)
      && (if closed then dataBlock.es == [] && !pendingIndexEntry && |indexBlock.es| == |blocks|
          else !indexBlock.finished && OpenOk())
    }

    ghost predicate OpenOk()
      requires |handles| == |blocks|
      reads this, dataBlock, indexBlock
    {
      && (if pendingIndexEntry then
            dataBlock.es == [] && blocks != [] && |indexBlock.es| == |blocks| - 1 && pendingHandle == handles[|handles| - 1]
          else |indexBlock.es| == |blocks| && (dataBlock.es == [] ==> blocks == []))
      && (Chunks() != [] ==> lastKey == Last(Chunks()[|Chunks()| - 1]).key)
    }

    constructor (ult: KeyOrder, shorten: (Bytes, Bytes) -> Bytes, successor: Bytes -> Bytes, sum: Log.Checksum,
                 interval: nat, blockSize: nat)
      requires WeakOrder(ult) && Separates(ult, shorten) && sum.Sound() && interval >= 1
      ensures Valid() && !closed && Chunks() == [] && handles == [] && fresh(dataBlock) && fresh(indexBlock)
      ensures this.ult == ult && this.sum == sum && this.interval == interval
    {
      hide WeakOrder, Separates, InternalLess, Log.Checksum.Sound, ReadBlock, Finished, Between, Data, RestartPoints, Counter, Common;
      this.ult, this.shorten, this.successor, this.sum := ult, shorten, successor, sum;
      this.interval, this.blockSize := interval, blockSize;
      dataBlock := new Builder(interval);
      indexBlock := new Builder(1);
      file, lastKey, pendingIndexEntry, pendingHandle, closed := [], [], false, Handle(0, 0), false;
      blocks, handles := [], [];
    }

    /** `WriteRawBlock`: the contents and their trailer; the handle says where. */
    method WriteRawBlock(contents: Bytes) returns (h: Handle)
      requires sum.Sound()
      modifies this`file
      ensures h == Handle(|old(file)|, |contents|) && file == (old(file) + contents) + Trailer(sum, contents)
      ensures ReadBlock(sum, file, h) == Some(contents)
      ensures forall h': Handle :: ReadBlock(sum, old(file), h').Some? ==> ReadBlock(sum, file, h') == ReadBlock(sum, old(file), h')
    {
      hide ReadBlock, Trailer;
      h := Handle(|file|, |contents|);
      BlockReadsBack(sum, file, contents);
      ghost var before, more := file, contents + Trailer(sum, contents);
      ConcatAssoc(file, contents, Trailer(sum, contents));
      file := file + contents;
      file := file + Trailer(sum, contents);
      forall h': Handle | ReadBlock(sum, before, h').Some? ensures ReadBlock(sum, file, h') == ReadBlock(sum, before, h') {
        BlockStays(sum, before, more, h');
      }
    }

    /** The open block `es` has been written at the end of `file0`. */
    ghost predicate Flushed(blocks0: seq<Chunk>, handles0: seq<Handle>, file0: Bytes, es: seq<Entry>)
      reads this, dataBlock
    {
      && dataBlock.es == [] && file0 <= file
      && if es == [] then blocks == blocks0 && handles == handles0 && file == file0
         else blocks == blocks0 + [es] && |handles| == |handles0| + 1 && handles0 <= handles && handles[|handles0|].offset == |file0|
    }

    /** `WriteBlock` of the data block, without compression. */
    method WriteBlock()
      requires Ready() && dataBlock.es != [] && AllStored(sum, file, interval, blocks, handles)
      modifies this`file, this`pendingHandle, dataBlock
      ensures Ready() && dataBlock.es == [] && old(file) <= file && pendingHandle.offset == |old(file)|
      ensures AllStored(sum, file, interval, blocks + [old(dataBlock.es)], handles + [pendingHandle])
    {
      hide ReadBlock, Finished, Between, Data, RestartPoints, RestartEntries, Counter, WeakOrder, Separates, AllStored, Trailer;
      ghost var before, es := file, dataBlock.es;
      var raw := dataBlock.Finish();
      pendingHandle := WriteRawBlock(raw);
      dataBlock.Reset();
      OneMoreStored(sum, before, file, interval, blocks, handles, es, pendingHandle);
    }

    method Flush()
      requires Valid() && !closed
      modifies this, dataBlock
      ensures Valid() && !closed && Chunks() == old(Chunks()) && dataBlock.es == []
      ensures Flushed(old(blocks), old(handles), old(file), old(dataBlock.es)) && lastKey == old(lastKey)
    {
      hide ReadBlock, Finished, Between, Data, RestartPoints, RestartEntries, Counter, Increasing, WeakOrder, Separates, ChunksOk, InternalLess, IndexFits, AllStored;
      SomeData(interval, dataBlock.es);
      if dataBlock.buffer == [] {
        return;
      }
      ghost var es := dataBlock.es;
      WriteBlock();
      pendingIndexEntry := true;
      blocks, handles := blocks + [es], handles + [pendingHandle];
      assert ChunksOf(blocks, []) == blocks;
      SameIndex(ult, indexBlock.es, Chunks(), old(handles), handles, false);
    }

    /** Room for the index entry of the last block, now that the next key is known. */
    method AddPendingIndexEntry(key: Bytes)
      requires Valid() && !closed && (Chunks() != [] ==> InternalLess(ult, lastKey, key))
      modifies this`pendingIndexEntry, this`lastKey, indexBlock
      ensures Ready() && !indexBlock.finished && !pendingIndexEntry
      ensures |indexBlock.es| == |blocks|
      ensures forall e: Entry :: e.key == key ==>
        |handles| == |blocks| && IndexFits(ult, indexBlock.es, Extended(blocks, dataBlock.es, e), handles, false)
    {
      hide ReadBlock, Finished, Between, Data, RestartPoints, RestartEntries, Counter, Increasing, WeakOrder, Separates, ChunksOk, InternalLess, IndexFits, AllStored;
      ghost var ies := indexBlock.es;
      if pendingIndexEntry {
        SeparatorBetween(ult, shorten, lastKey, key);
        lastKey := Shortened(ult, lastKey, shorten(UserKey(lastKey), UserKey(key)));
        SepIsBetween(ult, lastKey, old(lastKey), key);
        indexBlock.Add(lastKey, EncodeHandle(pendingHandle));
        pendingIndexEntry := false;
      }
      forall e: Entry | e.key == key ensures IndexFits(ult, indexBlock.es, Extended(blocks, dataBlock.es, e), handles, false) {
        IndexExtended(ult, ies, blocks, dataBlock.es, handles, e, indexBlock.es);
      }
    }

    method Add(key: Bytes, value: Bytes)
      requires Valid() && !closed && (Chunks() != [] ==> InternalLess(ult, lastKey, key))
      modifies this, dataBlock, indexBlock
      ensures Valid() && !closed && Flatten(Chunks()) == Flatten(old(Chunks())) + [Entry(key, value)] && lastKey == key
      ensures var es := old(dataBlock.es) + [Entry(key, value)];
              if |Finished(interval, es)| >= blockSize then Flushed(old(blocks), old(handles), old(file), es)
              else dataBlock.es == es && blocks == old(blocks) && handles == old(handles) && file == old(file)
    {
      hide ReadBlock, Finished, Between, Data, RestartPoints, RestartEntries, Counter, Increasing, WeakOrder, Separates, ChunksOk, InternalLess, IndexFits, AllStored, Flatten;
      ghost var e, open_ := Entry(key, value), dataBlock.es;
      InternalIsWeakOrder(ult);
      FlattenExtended(blocks, open_, e);
      ExtendKeepsChunks(Internal(ult), blocks, open_, e);
      AddPendingIndexEntry(key);
      lastKey := key;
      dataBlock.Add(key, value);
      var estimate := |dataBlock.buffer| + 4 * |dataBlock.restarts| + 4;
      EstimateIsSize(interval, dataBlock.es);
      if estimate >= blockSize {
        Flush();
      }
    }

    /** A block beside the data blocks: the filter block and the metaindex. */
    method WriteMetaBlock(contents: Bytes) returns (h: Handle)
      requires Valid() && !closed && dataBlock.es == []
      modifies this`file
      ensures Valid() && h.offset == |old(file)| && ReadBlock(sum, file, h) == Some(contents) && old(file) <= file
      ensures forall h': Handle :: ReadBlock(sum, old(file), h').Some? ==> ReadBlock(sum, file, h') == ReadBlock(sum, old(file), h')
    {
      hide ReadBlock, Finished, Between, Data, RestartPoints, RestartEntries, Counter, Increasing, WeakOrder, Separates, ChunksOk, InternalLess, IndexFits, AllStored, Trailer;
      ghost var before := file;
      h := WriteRawBlock(contents);
      StillStored(sum, before, file, interval, blocks, handles);
    }

    /** The index entry of the last block, which no key follows. */
    method CloseIndex()
      requires Valid() && !closed && dataBlock.es == []
      modifies this`closed, this`lastKey, this`pendingIndexEntry, indexBlock
      ensures Valid() && closed && !indexBlock.finished && Chunks() == old(Chunks()) == blocks
    {
      hide ReadBlock, Finished, Between, Data, RestartPoints, RestartEntries, Counter, Increasing, WeakOrder, Separates, ChunksOk, InternalLess, IndexFits, AllStored;
      assert ChunksOf(blocks, []) == blocks;
      SameIndex(ult, indexBlock.es, blocks, handles, handles, false);
      closed := true;
      if pendingIndexEntry {
        SuccessorAbove(ult, successor, lastKey);
        lastKey := Shortened(ult, lastKey, successor(UserKey(lastKey)));
        indexBlock.Add(lastKey, EncodeHandle(pendingHandle));
        pendingIndexEntry := false;
        LastIndexEntry(ult, old(indexBlock.es), blocks, handles, indexBlock.es);
      }
    }

    /** The rest of the table up to the index block; returns its contents and handle. */
    method Finish() returns (index: Bytes, handle: Handle)
      requires Valid() && !closed
      modifies this, dataBlock, indexBlock
      ensures Valid() && closed && Chunks() == old(Chunks()) == blocks
      ensures index == Finished(1, indexBlock.es) && ReadBlock(sum, file, handle) == Some(index)
      ensures old(dataBlock.es) == [] ==> blocks == old(blocks) && handles == old(handles) && old(file) <= file
      ensures forall h': Handle :: old(dataBlock.es) == [] && ReadBlock(sum, old(file), h').Some? ==> ReadBlock(sum, file, h') == ReadBlock(sum, old(file), h')
    {
      hide ReadBlock, Finished, Between, Data, RestartPoints, RestartEntries, Counter, Increasing, WeakOrder, Separates, ChunksOk, InternalLess, IndexFits, AllStored;
      Flush();
      CloseIndex();
      index := indexBlock.Finish();
      ghost var before := file;
      handle := WriteRawBlock(index);
      StillStored(sum, before, file, interval, blocks, handles);
    }
  }

  /** `CurrentSizeEstimate` is the size of the finished block. */
  lemma EstimateIsSize(interval: nat, es: seq<Entry>)
    ensures |Finished(interval, es)| == |Data(interval, es, |es|)| + 4 * |RestartPoints(interval, es, |es|)| + 4
  {
    BlockParts(interval, es);
  }

  /** What TableBuilder leaves behind is what InternalGet expects, if no block outgrows its
      32-bit offsets. */
  lemma BuiltTableOk(t: TableBuilder, index: Bytes)
    requires t.Valid() && t.closed && index == Finished(1, t.indexBlock.es)
    requires |index| < TWO_32 && |t.file| < TWO_64 && forall i :: 0 <= i < |t.blocks| ==> |Finished(t.interval, t.blocks[i])| < TWO_32
    ensures TableOk(t.ult, t.sum, t.interval, t.file, index, t.blocks, t.handles, t.indexBlock.es)
  {
    hide ReadBlock, Finished, Between, Data, RestartPoints, RestartEntries, Counter, Increasing, InternalLess;
    assert ChunksOf(t.blocks, []) == t.blocks;
    forall i | 0 <= i < |t.handles| ensures t.handles[i].offset < TWO_64 && t.handles[i].size == |Finished(t.interval, t.blocks[i])| {
      HandleSize(t.sum, t.file, t.handles[i], Finished(t.interval, t.blocks[i]));
    }
  }

  lemma HandleSize(sum: Log.Checksum, file: Bytes, h: Handle, contents: Bytes)
    requires ReadBlock(sum, file, h) == Some(contents)
    ensures h.size == |contents| && h.offset + h.size < |file|
  {
  }

  lemma LastIndexEntry(ult: KeyOrder, ies: seq<Entry>, blocks: seq<Chunk>, handles: seq<Handle>, ies': seq<Entry>)
    requires |ies| + 1 == |ies'| == |blocks| == |handles| && ies == ies'[..|ies|]
    requires IndexFits(ult, ies, blocks, handles, true)
    requires ies'[|ies|].value == EncodeHandle(handles[|ies|]) && !InternalLess(ult, ies'[|ies|].key, Last(blocks[|ies|]).key)
    ensures IndexFits(ult, ies', blocks, handles, true)
  {
    hide Between, InternalLess;
    forall i | 0 <= i < |ies| ensures ies'[i] == ies[i] {
    }
  }

  lemma OneMoreStored(sum: Log.Checksum, before: Bytes, file: Bytes, interval: nat, blocks: seq<Chunk>,
                      handles: seq<Handle>, es: Chunk, h: Handle)
    requires AllStored(sum, before, interval, blocks, handles) && ReadBlock(sum, file, h) == Some(Finished(interval, es))
    requires forall h': Handle :: ReadBlock(sum, before, h').Some? ==> ReadBlock(sum, file, h') == ReadBlock(sum, before, h')
    ensures AllStored(sum, file, interval, blocks + [es], handles + [h])
  {
    hide ReadBlock, Finished;
  }

  lemma StillStored(sum: Log.Checksum, before: Bytes, file: Bytes, interval: nat, blocks: seq<Chunk>,
                    handles: seq<Handle>)
    requires AllStored(sum, before, interval, blocks, handles)
    requires forall h': Handle :: ReadBlock(sum, before, h').Some? ==> ReadBlock(sum, file, h') == ReadBlock(sum, before, h')
    ensures AllStored(sum, file, interval, blocks, handles)
  {
    hide ReadBlock, Finished;
  }

  lemma SameIndex(ult: KeyOrder, ies: seq<Entry>, chunks: seq<Chunk>, handles: seq<Handle>, handles': seq<Handle>,
                  closed: bool)
    requires |ies| <= |handles| <= |handles'| <= |chunks| && handles <= handles'
    requires IndexFits(ult, ies, chunks, handles, closed)
    ensures IndexFits(ult, ies, chunks, handles', closed) && IndexFits(ult, ies, chunks, handles', true)
  {
    hide Between, InternalLess;
  }

  lemma SomeData(interval: nat, es: seq<Entry>)
    ensures Data(interval, es, |es|) == [] <==> es == []
  {
    if es != [] {
      EntryLength(SharedAt(interval, es, |es| - 1), es[|es| - 1]);
    }
  }

  lemma SepIsBetween(ult: KeyOrder, sep: Bytes, last: Bytes, first: Bytes)
    requires !InternalLess(ult, sep, last) && InternalLess(ult, sep, first)
    requires sep == last || (ult(UserKey(last), UserKey(sep)) && ult(UserKey(sep), UserKey(first)))
    ensures Between(ult, sep, last, first)
  {
  }

  /** The index still fits when an entry follows, given the entry for a pending block. */
  lemma IndexExtended(ult: KeyOrder, ies: seq<Entry>, blocks: seq<Chunk>, open_: seq<Entry>, handles: seq<Handle>,
                      e: Entry, ies': seq<Entry>)
    requires |handles| == |blocks| && |ies| <= |ies'| == |blocks|
    requires IndexFits(ult, ies, ChunksOf(blocks, open_), handles, false)
    requires ies' == ies || (open_ == [] && |blocks| > 0 && ies == ies'[..|blocks| - 1] && |ies'| == |ies| + 1
      && ies'[|blocks| - 1].value == EncodeHandle(handles[|blocks| - 1])
      && Between(ult, ies'[|blocks| - 1].key, Last(blocks[|blocks| - 1]).key, e.key))
    ensures IndexFits(ult, ies', Extended(blocks, open_, e), handles, false)
  {
    hide Between;
    var cs: seq<Chunk>, cs': seq<Chunk> := ChunksOf(blocks, open_), Extended(blocks, open_, e);
    forall i | 0 <= i < |ies'|
      ensures ies'[i].value == EncodeHandle(handles[i]) && Between(ult, ies'[i].key, Last(cs'[i]).key, cs'[i + 1][0].key)
    {
      if i < |ies| {
        assert ies'[i] == ies[i] && cs[i] == cs'[i] && i + 1 < |cs| && cs[i + 1][0] == cs'[i + 1][0];
      }
    }
  }

  // -------------------------------------------------------------------- point reads

  /** A finished table whose blocks can be read. */
  ghost predicate TableOk(ult: KeyOrder, sum: Log.Checksum, interval: nat, file: Bytes, index: Bytes,
                          blocks: seq<Chunk>, handles: seq<Handle>, ies: seq<Entry>) {
    && WeakOrder(ult) && |ies| == |handles| == |blocks|
    && ChunksOk(Internal(ult), blocks) && AllStored(sum, file, interval, blocks, handles)
    && IndexFits(ult, ies, blocks, handles, true)
    && index == Finished(1, ies) && |index| < TWO_32
    && (forall i :: 0 <= i < |handles| ==> handles[i].offset < TWO_64 && handles[i].size == |Finished(interval, blocks[i])| < TWO_32)
  }

  /** Entry `j` of block `i` is the first at or after `k` in the table. */
  ghost predicate FirstAt(ult: KeyOrder, blocks: seq<Chunk>, k: Bytes, i: nat, j: nat) {
    && i < |blocks| && j < |blocks[i]| && !InternalLess(ult, blocks[i][j].key, k)
    && (forall a, b :: 0 <= a < i && 0 <= b < |blocks[a]| ==> InternalLess(ult, blocks[a][b].key, k))
    && (forall b :: 0 <= b < j ==> InternalLess(ult, blocks[i][b].key, k))
  }

  /** The user comparator does not tell the user keys apart. */
  predicate SameUser(ult: KeyOrder, a: Bytes, b: Bytes) {
    !ult(UserKey(a), UserKey(b)) && !ult(UserKey(b), UserKey(a))
  }

  /** A read hands over the first entry at or after the key, or nothing; and not nothing if
      that entry has the user key that is looked for. */
  ghost predicate Answers(ult: KeyOrder, blocks: seq<Chunk>, k: Bytes, r: Option<Entry>) {
    && (r.Some? ==> exists i: nat, j: nat :: FirstAt(ult, blocks, k, i, j) && blocks[i][j] == r.value)
    && (r.None? ==> forall i: nat, j: nat :: FirstAt(ult, blocks, k, i, j) ==> !SameUser(ult, blocks[i][j].key, k))
  }

  /** Whatever the filter says: the first entry at or after the key is handed over, unless the
      filter holds back its block, or it is the first of its block and the separator in front
      led to the block before. */
  ghost predicate HandsOver(ult: KeyOrder, mayMatch: (nat, Bytes) -> bool, blocks: seq<Chunk>, handles: seq<Handle>, k: Bytes, r: Option<Entry>)
    requires |handles| == |blocks|
  {
    && (r.Some? ==> exists i: nat, j: nat :: FirstAt(ult, blocks, k, i, j) && blocks[i][j] == r.value)
    && (r.None? ==> forall i: nat, j: nat :: FirstAt(ult, blocks, k, i, j) ==> !mayMatch(handles[i].offset, k) || (i > 0 && j == 0))
  }

  /** The filter lets a block through if it holds the user key. */
  ghost predicate NoFalseNegatives(ult: KeyOrder, mayMatch: (nat, Bytes) -> bool, blocks: seq<Chunk>, handles: seq<Handle>, k: Bytes)
    requires |handles| == |blocks|
  {
    forall i, j :: 0 <= i < |blocks| && 0 <= j < |blocks[i]| && SameUser(ult, blocks[i][j].key, k) ==> mayMatch(handles[i].offset, k)
  }

  /** Where Seek in the index stops: the first separator at or above the key. */
  ghost predicate IndexStops(ult: KeyOrder, ies: seq<Entry>, k: Bytes, i: nat) {
    && i <= |ies|
    && (forall a :: 0 <= a < i ==> InternalLess(ult, ies[a].key, k))
    && (i < |ies| ==> !InternalLess(ult, ies[i].key, k))
  }

  lemma InternalTransitive(ult: KeyOrder, a: Bytes, b: Bytes, c: Bytes)
    requires WeakOrder(ult)
    ensures InternalLess(ult, a, b) && InternalLess(ult, b, c) ==> InternalLess(ult, a, c)
    ensures !InternalLess(ult, b, a) && InternalLess(ult, b, c) ==> InternalLess(ult, a, c)
    ensures InternalLess(ult, a, b) && !InternalLess(ult, c, b) ==> InternalLess(ult, a, c)
  {
    InternalIsWeakOrder(ult);
    var lt := Internal(ult);
    assert lt(a, b) ==> lt(a, c) || lt(c, b);
    assert lt(b, c) ==> lt(b, a) || lt(a, c);
  }

  lemma AboveLast(ult: KeyOrder, ies: seq<Entry>, blocks: seq<Chunk>, handles: seq<Handle>, i: nat)
    requires |ies| == |handles| == |blocks| && IndexFits(ult, ies, blocks, handles, true) && i < |blocks|
    ensures !InternalLess(ult, ies[i].key, Last(blocks[i]).key)
  {
    assert ies[i].value == EncodeHandle(handles[i]);
    if i + 1 < |blocks| {
      assert Between(ult, ies[i].key, Last(blocks[i]).key, blocks[i + 1][0].key);
    } else {
      assert !InternalLess(ult, ies[i].key, Last(blocks[i]).key);
    }
  }

  /** Everything in a block is at most its separator; everything in later blocks above it. */
  lemma BlockBelow(ult: KeyOrder, ies: seq<Entry>, blocks: seq<Chunk>, handles: seq<Handle>, i: nat, b: nat)
    requires WeakOrder(ult) && |ies| == |handles| == |blocks| && ChunksOk(Internal(ult), blocks) && IndexFits(ult, ies, blocks, handles, true)
    requires i < |blocks| && b < |blocks[i]|
    ensures !InternalLess(ult, ies[i].key, blocks[i][b].key)
  {
    var lt, n := Internal(ult), |blocks[i]|;
    assert Increasing(lt, blocks[i]);
    AboveLast(ult, ies, blocks, handles, i);
    InternalTransitive(ult, ies[i].key, blocks[i][b].key, Last(blocks[i]).key);
    if b < n - 1 {
      assert lt(blocks[i][b].key, blocks[i][n - 1].key);
    }
  }

  /** The key lies behind every block before the one the index leads to. */
  lemma EarlierBelow(ult: KeyOrder, ies: seq<Entry>, blocks: seq<Chunk>, handles: seq<Handle>, k: Bytes, i: nat)
    requires WeakOrder(ult) && |ies| == |handles| == |blocks| && ChunksOk(Internal(ult), blocks) && IndexFits(ult, ies, blocks, handles, true)
    requires IndexStops(ult, ies, k, i)
    ensures forall a, b :: 0 <= a < i && 0 <= b < |blocks[a]| ==> InternalLess(ult, blocks[a][b].key, k)
  {
    hide InternalLess, Between, IndexFits, ChunksOk;
    forall a, b | 0 <= a < i && 0 <= b < |blocks[a]| ensures InternalLess(ult, blocks[a][b].key, k) {
      BlockBelow(ult, ies, blocks, handles, a, b);
      InternalTransitive(ult, blocks[a][b].key, ies[a].key, k);
    }
  }

  /** If the block the index leads to has nothing at or after the key, the first such entry,
      at the head of the next block, belongs to another user key. */
  lemma NextHasOtherUser(ult: KeyOrder, ies: seq<Entry>, blocks: seq<Chunk>, handles: seq<Handle>, k: Bytes, i: nat,
                         a: nat, b: nat)
    requires WeakOrder(ult) && |ies| == |handles| == |blocks| && ChunksOk(Internal(ult), blocks) && IndexFits(ult, ies, blocks, handles, true)
    requires IndexStops(ult, ies, k, i) && i < |blocks|
    requires forall j :: 0 <= j < |blocks[i]| ==> InternalLess(ult, blocks[i][j].key, k)
    requires FirstAt(ult, blocks, k, a, b)
    ensures !SameUser(ult, blocks[a][b].key, k) && a == i + 1 && b == 0
  {
    EarlierBelow(ult, ies, blocks, handles, k, i);
    assert a > i;
    var sep, first := ies[i].key, blocks[i + 1][0].key;
    assert Between(ult, sep, Last(blocks[i]).key, first);
    InternalTransitive(ult, k, sep, first);
    assert InternalLess(ult, k, first);
    InternalIsWeakOrder(ult);
    assert !InternalLess(ult, first, k);
    assert a == i + 1 && b == 0;
    assert InternalLess(ult, Last(blocks[i]).key, k);
    assert sep != Last(blocks[i]).key;
    OtherUser(ult, k, sep, first);
  }

  lemma OtherUser(ult: KeyOrder, k: Bytes, sep: Bytes, first: Bytes)
    requires WeakOrder(ult) && !InternalLess(ult, sep, k) && ult(UserKey(sep), UserKey(first))
    ensures ult(UserKey(k), UserKey(first)) && !SameUser(ult, first, k)
  {
  }

  // The steps of a point read in a well-formed table.

  lemma SeparatorsAscend(ult: KeyOrder, ies: seq<Entry>, blocks: seq<Chunk>, handles: seq<Handle>, i: nat, j: nat)
    requires WeakOrder(ult) && |ies| == |handles| == |blocks| && ChunksOk(Internal(ult), blocks) && IndexFits(ult, ies, blocks, handles, true)
    requires i < j < |ies|
    ensures InternalLess(ult, ies[i].key, ies[j].key)
    decreases j - i
  {
    hide InternalLess, ChunksOk;
    assert ies[i].value == EncodeHandle(handles[i]);
    BlockBelow(ult, ies, blocks, handles, i + 1, 0);
    InternalTransitive(ult, ies[i].key, blocks[i + 1][0].key, ies[i + 1].key);
    if i + 1 < j {
      SeparatorsAscend(ult, ies, blocks, handles, i + 1, j);
      InternalTransitive(ult, ies[i].key, ies[i + 1].key, ies[j].key);
    }
  }

  lemma IndexIsGood(ult: KeyOrder, sum: Log.Checksum, interval: nat, file: Bytes, index: Bytes, blocks: seq<Chunk>,
                    handles: seq<Handle>, ies: seq<Entry>)
    requires TableOk(ult, sum, interval, file, index, blocks, handles, ies)
    ensures Good(index, Internal(ult), 1, ies)
  {
    hide Finished, IndexFits, ChunksOk, InternalLess, AllStored;
    InternalIsWeakOrder(ult);
    forall i, j | 0 <= i < j < |ies| ensures Internal(ult)(ies[i].key, ies[j].key) {
      SeparatorsAscend(ult, ies, blocks, handles, i, j);
    }
  }

  lemma HandleFound(ult: KeyOrder, sum: Log.Checksum, interval: nat, file: Bytes, index: Bytes, blocks: seq<Chunk>,
                    handles: seq<Handle>, ies: seq<Entry>, i: nat)
    requires TableOk(ult, sum, interval, file, index, blocks, handles, ies) && i < |ies|
    ensures i < |handles| == |blocks| && DecodeHandle(ies[i].value) == Some(handles[i])
    ensures var f := FetchBlock(sum, file, handles[i]); f.Fetched? && Good(f.contents, Internal(ult), interval, blocks[i])
  {
    hide Finished, ReadBlock, FetchBlock, InternalLess, EncodeHandle, DecodeHandle;
    assert ies[i].value == EncodeHandle(handles[i]);
    FetchInside(sum, file, handles[i]);
    HandleRoundTrip(handles[i]);
    InternalIsWeakOrder(ult);
  }

  /** The conditions that the search lemmas share. */
  lemma SearchConditions(ult: KeyOrder, sum: Log.Checksum, interval: nat, file: Bytes, index: Bytes,
                         blocks: seq<Chunk>, handles: seq<Handle>, ies: seq<Entry>)
    requires TableOk(ult, sum, interval, file, index, blocks, handles, ies)
    ensures WeakOrder(ult) && |ies| == |handles| == |blocks| && ChunksOk(Internal(ult), blocks) && IndexFits(ult, ies, blocks, handles, true)
  {
  }

  lemma BehindTheIndex(ult: KeyOrder, sum: Log.Checksum, interval: nat, file: Bytes, index: Bytes,
                       mayMatch: (nat, Bytes) -> bool, blocks: seq<Chunk>, handles: seq<Handle>, ies: seq<Entry>, k: Bytes)
    requires TableOk(ult, sum, interval, file, index, blocks, handles, ies) && IndexStops(ult, ies, k, |ies|)
    ensures Answers(ult, blocks, k, None) && |handles| == |blocks| && HandsOver(ult, mayMatch, blocks, handles, k, None)
  {
    hide TableOk, InternalLess, ChunksOk, IndexFits;
    SearchConditions(ult, sum, interval, file, index, blocks, handles, ies);
    EarlierBelow(ult, ies, blocks, handles, k, |ies|);
  }

  lemma Filtered(ult: KeyOrder, sum: Log.Checksum, interval: nat, file: Bytes, index: Bytes,
                 mayMatch: (nat, Bytes) -> bool, blocks: seq<Chunk>, handles: seq<Handle>, ies: seq<Entry>, k: Bytes,
                 i: nat)
    requires TableOk(ult, sum, interval, file, index, blocks, handles, ies) && IndexStops(ult, ies, k, i) && i < |ies|
    requires |handles| == |blocks| && i < |handles| && !mayMatch(handles[i].offset, k)
    ensures NoFalseNegatives(ult, mayMatch, blocks, handles, k) ==> Answers(ult, blocks, k, None)
    ensures HandsOver(ult, mayMatch, blocks, handles, k, None)
  {
    hide TableOk, InternalLess, ChunksOk, IndexFits;
    SearchConditions(ult, sum, interval, file, index, blocks, handles, ies);
    forall a: nat, b: nat | FirstAt(ult, blocks, k, a, b)
      ensures a == i || (!SameUser(ult, blocks[a][b].key, k) && a > 0 && b == 0)
    {
      if a != i {
        OnlyHereOrOther(ult, sum, interval, file, index, blocks, handles, ies, k, i, a, b);
      }
    }
  }

  /** The first entry at or after the key is in the block the index leads to, or it belongs
      to another user key. */
  lemma OnlyHereOrOther(ult: KeyOrder, sum: Log.Checksum, interval: nat, file: Bytes, index: Bytes,
                        blocks: seq<Chunk>, handles: seq<Handle>, ies: seq<Entry>, k: Bytes, i: nat, a: nat, b: nat)
    requires TableOk(ult, sum, interval, file, index, blocks, handles, ies) && IndexStops(ult, ies, k, i) && i < |ies|
    requires FirstAt(ult, blocks, k, a, b) && a != i
    ensures !SameUser(ult, blocks[a][b].key, k) && a == i + 1 && b == 0
  {
    hide TableOk, InternalLess, ChunksOk, IndexFits;
    SearchConditions(ult, sum, interval, file, index, blocks, handles, ies);
    EarlierBelow(ult, ies, blocks, handles, k, i);
    NextHasOtherUser(ult, ies, blocks, handles, k, i, a, b);
  }

  lemma FoundInBlock(ult: KeyOrder, sum: Log.Checksum, interval: nat, file: Bytes, index: Bytes,
                     mayMatch: (nat, Bytes) -> bool, blocks: seq<Chunk>, handles: seq<Handle>, ies: seq<Entry>,
                     k: Bytes, i: nat, j: nat, r: Option<Entry>)
    requires TableOk(ult, sum, interval, file, index, blocks, handles, ies) && IndexStops(ult, ies, k, i) && i < |ies| && i < |blocks|
    requires j <= |blocks[i]| && (forall b :: 0 <= b < j ==> InternalLess(ult, blocks[i][b].key, k))
    requires j < |blocks[i]| ==> !InternalLess(ult, blocks[i][j].key, k)
    requires r == if j < |blocks[i]| then Some(blocks[i][j]) else None
    ensures Answers(ult, blocks, k, r) && |handles| == |blocks| && HandsOver(ult, mayMatch, blocks, handles, k, r)
  {
    hide TableOk, InternalLess, ChunksOk, IndexFits;
    SearchConditions(ult, sum, interval, file, index, blocks, handles, ies);
    EarlierBelow(ult, ies, blocks, handles, k, i);
    if j < |blocks[i]| {
      assert FirstAt(ult, blocks, k, i, j);
    } else {
      forall a: nat, b: nat | FirstAt(ult, blocks, k, a, b) ensures !SameUser(ult, blocks[a][b].key, k) && a > 0 && b == 0 {
        assert a != i;
        OnlyHereOrOther(ult, sum, interval, file, index, blocks, handles, ies, k, i, a, b);
      }
    }
  }

  /** No block of these contents can lead a reader outside, whatever its restart array. */
  ghost predicate Harmless(contents: Bytes) {
    forall limit: nat :: limit <= |contents| ==> WrapFree(contents, limit)
  }

  ghost predicate Within(part: Bytes, whole: Bytes) {
    exists a, b :: 0 <= a <= b <= |whole| && whole[a..b] == part
  }

  /** Some bytes of a block are this handle. */
  ghost predicate LeadsTo(block: Bytes, h: Handle) {
    exists v :: Within(v, block) && DecodeHandle(v) == Some(h)
  }

  /** Fetching this block, or reading it, can lead outside. */
  ghost predicate Harmful(f: Fetch) {
    f.Strayed? || (f.Fetched? && !Harmless(f.contents))
  }

  /** `Table::InternalGet`: the entry passed to the saver, if any.  `blocks`, `handles` and
      `ies` say what a well-formed table holds.  On other bytes a read may go outside a block
      only if the index has an entry whose lengths wrap around, or a handle that is followed
      has a size that wraps around, or leads to a block with such an entry. */
  method InternalGet(ult: KeyOrder, sum: Log.Checksum, file: Bytes, index: Bytes, mayMatch: (nat, Bytes) -> bool,
                     k: Bytes,
                     ghost interval: nat, ghost blocks: seq<Chunk>, ghost handles: seq<Handle>, ghost ies: seq<Entry>)
      returns (r: Option<Entry>, outside: bool, ghost followed: Option<Handle>)
    ensures TableOk(ult, sum, interval, file, index, blocks, handles, ies) && NoFalseNegatives(ult, mayMatch, blocks, handles, k) ==>
      Answers(ult, blocks, k, r)
    ensures TableOk(ult, sum, interval, file, index, blocks, handles, ies) ==> |handles| == |blocks| && HandsOver(ult, mayMatch, blocks, handles, k, r)
    ensures TableOk(ult, sum, interval, file, index, blocks, handles, ies) ==> !outside
    ensures followed.Some? ==> LeadsTo(index, followed.value)
    ensures r.Some? ==> followed.Some? && FetchBlock(sum, file, followed.value).Fetched?
    ensures followed.Some? && FetchBlock(sum, file, followed.value).Strayed? ==> outside
    ensures outside ==> !Harmless(index) || (followed.Some? && Harmful(FetchBlock(sum, file, followed.value)))
  {
    hide Answers, HandsOver, TableOk, NoFalseNegatives, FirstAt, Good, InternalLess, ReadBlock, FetchBlock, DecodeHandle, Harmless, Within;
    ghost var good := TableOk(ult, sum, interval, file, index, blocks, handles, ies);
    followed := None;
    if good {
      IndexIsGood(ult, sum, interval, file, index, blocks, handles, ies);
      SearchConditions(ult, sum, interval, file, index, blocks, handles, ies);
    }
    var found;
    ghost var at;
    found, outside, at := SeekBlock(Internal(ult), index, k, 1, ies);
    if found.None? {
      if good {
        BehindTheIndex(ult, sum, interval, file, index, mayMatch, blocks, handles, ies, k);
      }
      return None, outside, None;
    }
    if good {
      HandleFound(ult, sum, interval, file, index, blocks, handles, ies, at);
    }
    var handle := DecodeHandle(found.value.value);
    if handle.None? {
      return None, outside, None;
    }
    if !mayMatch(handle.value.offset, k) {
      // Not found
      if good {
        Filtered(ult, sum, interval, file, index, mayMatch, blocks, handles, ies, k, at);
      }
      return None, outside, None;
    }
    followed := handle;
    var block := FetchBlock(sum, file, handle.value);
    if !block.Fetched? {
      return None, outside || block.Strayed?, followed;
    }
    ghost var chunk: Chunk := if good then blocks[at] else [Entry([], [])];
    ghost var j;
    var outsideBlock;
    r, outsideBlock, j := SeekBlock(Internal(ult), block.contents, k, interval, chunk);
    outside := outside || outsideBlock;
    if good {
      FoundInBlock(ult, sum, interval, file, index, mayMatch, blocks, handles, ies, k, at, j, r);
    }
  }

  /** Seek in a block that is read from bytes: the entry found, and its index. */
  method SeekBlock(lt: KeyOrder, contents: Bytes, k: Bytes, ghost interval: nat,
                   ghost es: seq<Entry>) returns (r: Option<Entry>, outside: bool, ghost p: nat)
    ensures r.Some? ==> Within(r.value.value, contents)
    ensures outside ==> !Harmless(contents)
    ensures Good(contents, lt, interval, es) ==>
      && !outside
      && p <= |es| && (forall j :: 0 <= j < p ==> lt(es[j].key, k)) && (p < |es| ==> !lt(es[p].key, k))
      && r == if p < |es| then Some(es[p]) else None
  {
    hide Good;
    var parts := OpenBlock(contents);
    p := |es|;
    if !parts.Iterate? {
      return None, false, p;
    }
    var iter := new Iter(lt, contents, parts.restarts, parts.numRestarts, interval, es);
    iter.Seek(k);
    p, outside := iter.pos, iter.outside;
    r := if iter.Valid() then Some(Entry(iter.key, iter.value)) else None;
  }
}
