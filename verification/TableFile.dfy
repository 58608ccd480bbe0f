/** A table file from end to end (table/table_builder.cc, table/table.cc, table/format.cc,
    db/dbformat.cc): data blocks, filter block, metaindex, index and footer are written, found
    again from the end of the file, and a point read through the filter gives the entry that
    was added. */
module TableFile {
  import opened Wrappers
  import opened Coding
  import opened KeyOrders
  import opened Block
  import opened BlockIter
  import opened Comparators
  import opened Table
  import F = FilterBlock
  import Log

  // ------------------------------------------------------------------------- footer

  const FOOTER_SIZE := 48
  const PADDED_HANDLES := 40
  const MAGIC := 0xdb47_7524_8b80_fb57

  /** `resize`: cut off or filled with zeros. */
  function Padded(handles: Bytes): (r: Bytes)
    ensures |r| == PADDED_HANDLES
  {
    if |handles| <= PADDED_HANDLES then handles + Log.Zeros(PADDED_HANDLES - |handles|) else handles[..PADDED_HANDLES]
  }

  function EncodeFooter(metaindex: Handle, index: Handle): (r: Bytes)
    ensures |r| == FOOTER_SIZE
  {
    Padded(EncodeHandle(metaindex) + EncodeHandle(index)) + EncodeFixed(MAGIC, 8)
  }

  /** `Footer::DecodeFrom`: the two handles, if the magic number is there. */
  function DecodeFooter(footer: Bytes): Option<(Handle, Handle)>
    requires |footer| == FOOTER_SIZE
  {
    if DecodeFixed(footer[PADDED_HANDLES..]) != MAGIC then None
    else
      match GetHandle(footer)
      case None => None
      case Some((metaindex, rest)) =>
        match GetHandle(rest)
        case None => None
        case Some((index, _)) => Some((metaindex, index))
  }

  predicate Fits64(h: Handle) {
    h.offset < TWO_64 && h.size < TWO_64
  }

  lemma FooterRoundTrip(metaindex: Handle, index: Handle)
    requires Fits64(metaindex) && Fits64(index)
    ensures DecodeFooter(EncodeFooter(metaindex, index)) == Some((metaindex, index))
  {
    hide EncodeHandle, GetHandle, EncodeFixed, DecodeFixed, Log.Zeros;
    GetHandleRoundTrip(metaindex, []);
    GetHandleRoundTrip(index, []);
    var a, b := EncodeHandle(metaindex), EncodeHandle(index);
    var zeros, magic := Log.Zeros(PADDED_HANDLES - |a + b|), EncodeFixed(MAGIC, 8);
    var footer := EncodeFooter(metaindex, index);
    assert footer == a + (b + (zeros + magic)) && footer[PADDED_HANDLES..] == magic;
    GetHandleRoundTrip(metaindex, b + (zeros + magic));
    GetHandleRoundTrip(index, zeros + magic);
    Powers();
    FixedRoundTrip(MAGIC, 8);
  }

  /** A footer is accepted if and only if it ends with the magic number and two handles stand at
      its front. */
  lemma FooterExact(footer: Bytes, metaindex: Handle, index: Handle)
    requires |footer| == FOOTER_SIZE
    ensures DecodeFooter(footer) == Some((metaindex, index)) <==>
            && DecodeFixed(footer[40..]) == 0xdb47_7524_8b80_fb57
            && exists a, b, rest :: SpellsHandle(a, metaindex) && SpellsHandle(b, index) && footer == a + (b + rest)
  {
    hide SpellsHandle, GetHandle, DecodeFixed;
    if DecodeFooter(footer) == Some((metaindex, index)) {
      var rest := GetHandle(footer).value.1;
      GetHandleExact(footer, metaindex, rest);
      GetHandleExact(rest, index, GetHandle(rest).value.1);
    }
    if a, b, rest :| SpellsHandle(a, metaindex) && SpellsHandle(b, index) && footer == a + (b + rest) {
      GetHandleExact(footer, metaindex, b + rest);
      GetHandleExact(b + rest, index, rest);
    }
  }

  // ------------------------------------------------------------------ filter policies

  function UserKeys(keys: seq<Bytes>): (r: seq<Bytes>)
    ensures |r| == |keys|
  {
    seq(|keys|, i requires 0 <= i < |keys| => UserKey(keys[i]))
  }

  /** `InternalFilterPolicy`: the user's policy sees user keys only. */
  function InternalPolicy(p: F.Policy): F.Policy {
    F.Policy((keys: seq<Bytes>) => p.create(UserKeys(keys)), (key: Bytes, filter: Bytes) => p.mayMatch(UserKey(key), filter))
  }

  /** What a policy matches for a user key, the internal one matches for internal keys. */
  lemma InternalServes(p: F.Policy, ult: KeyOrder, key: Bytes, probe: Bytes)
    requires p.Serves(ult) && SameUser(ult, key, probe)
    ensures forall keys :: key in keys ==> InternalPolicy(p).mayMatch(probe, InternalPolicy(p).create(keys))
  {
    hide UserKey;
    forall keys: seq<Bytes> | key in keys ensures InternalPolicy(p).mayMatch(probe, InternalPolicy(p).create(keys)) {
      var i :| 0 <= i < |keys| && keys[i] == key;
      assert UserKeys(keys)[i] == UserKey(key);
      assert UserKey(key) in UserKeys(keys) && F.Alike(ult, UserKey(key), UserKey(probe));
    }
  }

  /** `filter.` and the name of the policy. */
  function FilterKey(name: Bytes): Bytes {
    [102, 105, 108, 116, 101, 114, 46] + name
  }

  // ------------------------------------------------------------------------- writing

  /** Where everything is in a finished file. */
  datatype View = View(sum: Log.Checksum, interval: nat, blocks: seq<Chunk>, handles: seq<Handle>, ies: seq<Entry>,
                       index: Bytes, groups: seq<seq<Bytes>>, filter: Handle, metaindex: Handle, indexAt: Handle)

  /** The filter has every key of a data block under the block's offset. */
  ghost predicate KeysFiltered(blocks: seq<Chunk>, handles: seq<Handle>, groups: seq<seq<Bytes>>) {
    |handles| == |blocks| &&
    forall i, j :: 0 <= i < |blocks| && 0 <= j < |blocks[i]| ==> F.InGroup(groups, handles[i].offset, blocks[i][j].key)
  }

  function MetaEntries(name: Bytes, filter: Handle): seq<Entry> {
    [Entry(FilterKey(name), EncodeHandle(filter))]
  }

  /** The blocks beside the data blocks can be read. */
  ghost predicate PartsStored(policy: F.Policy, name: Bytes, file: Bytes, v: View) {
    && ReadBlock(v.sum, file, v.filter) == Some(F.Assembled(InternalPolicy(policy), v.groups))
    && ReadBlock(v.sum, file, v.metaindex) == Some(Finished(v.interval, MetaEntries(name, v.filter)))
    && ReadBlock(v.sum, file, v.indexAt) == Some(v.index)
  }

  /** Offsets inside a block, the filter block included, have 32 bits. */
  predicate SmallBlocks(v: View) {
    && v.filter.size < TWO_32 && v.metaindex.size < TWO_32 && v.indexAt.size < TWO_32
    && forall i :: 0 <= i < |v.handles| ==> v.handles[i].size < TWO_32
  }

  /** What a reader may rely on in a finished file. */
  ghost predicate FileOk(ult: KeyOrder, policy: F.Policy, name: Bytes, file: Bytes, v: View) {
    && TableOk(ult, v.sum, v.interval, file, v.index, v.blocks, v.handles, v.ies)
    && KeysFiltered(v.blocks, v.handles, v.groups) && PartsStored(policy, name, file, v)
    && SmallBlocks(v) && |file| < TWO_64 && |file| >= FOOTER_SIZE
    && DecodeFooter(file[|file| - FOOTER_SIZE..]) == Some((v.metaindex, v.indexAt))
  }

  /** Every key has been given to the filter under the offset of its block, also in the open
      block, which will begin at `offset`. */
  ghost predicate AllAdded(added: seq<(nat, Bytes)>, blocks: seq<Chunk>, handles: seq<Handle>, offset: nat, open_: seq<Entry>) {
    && |handles| == |blocks|
    && (forall i, j :: 0 <= i < |blocks| && 0 <= j < |blocks[i]| ==> (handles[i].offset, blocks[i][j].key) in added)
    && (forall j :: 0 <= j < |open_| ==> (offset, open_[j].key) in added)
  }

  lemma OneMoreAdded(added: seq<(nat, Bytes)>, blocks: seq<Chunk>, handles: seq<Handle>, offset: nat, open_: seq<Entry>, e: Entry)
    requires AllAdded(added, blocks, handles, offset, open_)
    ensures AllAdded(added + [(offset, e.key)], blocks, handles, offset, open_ + [e])
  {
    var added' := added + [(offset, e.key)];
    forall p | p in added ensures p in added' {
    }
    assert added'[|added|] == (offset, e.key);
  }

  /** The open block has become the last one. */
  lemma AddedOnFlush(added: seq<(nat, Bytes)>, blocks: seq<Chunk>, handles: seq<Handle>, offset: nat, es: Chunk, h: Handle, end: nat)
    requires AllAdded(added, blocks, handles, offset, es) && h.offset == offset
    ensures AllAdded(added, blocks + [es], handles + [h], end, [])
  {
  }

  lemma AddedAfterFlush(t: TableBuilder, added: seq<(nat, Bytes)>, blocks: seq<Chunk>, handles: seq<Handle>, file: Bytes, es: seq<Entry>)
    requires AllAdded(added, blocks, handles, |file|, es) && t.Flushed(blocks, handles, file, es) && |handles| == |blocks|
    ensures AllAdded(added, t.blocks, t.handles, |t.file|, []) && t.dataBlock.es == [] && |file| <= |t.file|
  {
    if es != [] {
      AddedOnFlush(added, blocks, handles, |file|, es, t.handles[|t.handles| - 1], |t.file|);
      assert t.handles == handles + [t.handles[|t.handles| - 1]];
    }
  }

  /** With the groups of the finished filter, what was added can be found. */
  lemma AddedIsFiltered(added: seq<(nat, Bytes)>, blocks: seq<Chunk>, handles: seq<Handle>, end: nat, groups: seq<seq<Bytes>>)
    requires AllAdded(added, blocks, handles, end, []) && forall p :: p in added ==> F.InGroup(groups, p.0, p.1)
    ensures KeysFiltered(blocks, handles, groups)
  {
    hide F.InGroup;
  }

  /** A `TableBuilder` with a filter policy: the builder of the filter block runs beside it. */
  class FilteredBuilder {
    const policy: F.Policy
    const name: Bytes
    const table: TableBuilder
    const filter: F.Builder

    ghost predicate Valid()
      reads this, table, table.dataBlock, table.indexBlock, filter
    {
      && table.Valid() && !table.closed
      && filter.Valid() && filter.policy == InternalPolicy(policy) && filter.blockOffset == |table.file|
      && AllAdded(filter.added, table.blocks, table.handles, |table.file|, table.dataBlock.es)
    }

    ghost function Entries(): seq<Entry>
      reads this, table, table.dataBlock
    {
      Flatten(table.Chunks())
    }

    constructor (ult: KeyOrder, shorten: (Bytes, Bytes) -> Bytes, successor: Bytes -> Bytes, sum: Log.Checksum,
                 interval: nat, blockSize: nat, policy: F.Policy, name: Bytes)
      requires WeakOrder(ult) && Separates(ult, shorten) && sum.Sound() && interval >= 1
      ensures Valid() && Entries() == [] && fresh(table) && fresh(table.dataBlock) && fresh(table.indexBlock) && fresh(filter)
      ensures table.ult == ult && table.sum == sum && this.policy == policy && this.name == name
    {
      hide InternalPolicy, F.Builder.Valid, TableBuilder.Valid, WeakOrder, Separates;
      this.policy, this.name := policy, name;
      table := new TableBuilder(ult, shorten, successor, sum, interval, blockSize);
      filter := new F.Builder(InternalPolicy(policy));
      new;
      filter.StartBlock(|table.file|);
    }

    /** The key goes to the filter and to the open block; a block that is full is written, and
        the filter is told where the next one starts. */
    method Add(key: Bytes, value: Bytes)
      requires Valid() && (table.Chunks() != [] ==> InternalLess(table.ult, table.lastKey, key))
      modifies table, table.dataBlock, table.indexBlock, filter
      ensures Valid() && Entries() == old(Entries()) + [Entry(key, value)] && table.lastKey == key
    {
      hide InternalPolicy, F.Builder.Valid, TableBuilder.Valid, InternalLess, Flatten, AllAdded, TableBuilder.Chunks, TableBuilder.Flushed;
      OneMoreAdded(filter.added, table.blocks, table.handles, |table.file|, table.dataBlock.es, Entry(key, value));
      ghost var blocks, handles, before, es := table.blocks, table.handles, table.file, table.dataBlock.es;
      filter.AddKey(key);
      table.Add(key, value);
      if table.Flushed(blocks, handles, before, es + [Entry(key, value)]) {
        AddedAfterFlush(table, filter.added, blocks, handles, before, es + [Entry(key, value)]);
      }
      filter.StartBlock(|table.file|);
    }

    /** The filter block, behind the last data block. */
    method FinishFilter() returns (filterAt: Handle)
      requires Valid()
      modifies table, table.dataBlock, filter
      ensures table.Valid() && !table.closed && table.dataBlock.es == [] && table.blocks == old(table.Chunks())
      ensures ReadBlock(table.sum, table.file, filterAt) == Some(F.Assembled(InternalPolicy(policy), filter.groups))
      ensures KeysFiltered(table.blocks, table.handles, filter.groups)
    {
      hide InternalPolicy, F.Builder.Valid, TableBuilder.Valid, AllAdded, TableBuilder.Flushed, F.Assembled, ReadBlock, F.InGroup, KeysFiltered;
      ghost var blocks, handles, before, es := table.blocks, table.handles, table.file, table.dataBlock.es;
      AddedHasBlocks(filter.added, blocks, handles, |before|, es);
      table.Flush();
      AddedAfterFlush(table, filter.added, blocks, handles, before, es);
      assert table.Chunks() == table.blocks;
      filter.StartBlock(|table.file|);
      var contents := filter.Finish();
      AddedIsFiltered(filter.added, table.blocks, table.handles, |table.file|, filter.groups);
      filterAt := table.WriteMetaBlock(contents);
    }

    /** The metaindex has one entry, for the filter. */
    method FinishMetaindex(filterAt: Handle) returns (metaAt: Handle)
      requires table.Valid() && !table.closed && table.dataBlock.es == []
      modifies table`file
      ensures table.Valid()
      ensures ReadBlock(table.sum, table.file, metaAt) == Some(Finished(table.interval, MetaEntries(name, filterAt)))
      ensures forall h: Handle :: ReadBlock(table.sum, old(table.file), h).Some? ==>
        ReadBlock(table.sum, table.file, h) == ReadBlock(table.sum, old(table.file), h)
    {
      hide TableBuilder.Valid, ReadBlock, Finished, EncodeHandle, FilterKey;
      IntervalPositive(table);
      var metaBlock := new Builder(table.interval);
      metaBlock.Add(FilterKey(name), EncodeHandle(filterAt));
      assert metaBlock.es == MetaEntries(name, filterAt);
      var meta := metaBlock.Finish();
      metaAt := table.WriteMetaBlock(meta);
    }

    /** All of `Finish`: the file, and where things are in it. */
    method Finish() returns (file: Bytes, ghost v: View)
      requires Valid()
      modifies table, table.dataBlock, table.indexBlock, filter
      ensures v.sum == table.sum && v.blocks == old(table.Chunks())
      ensures |file| < TWO_32 ==> SmallBlocks(v)
      ensures |file| < TWO_64 && SmallBlocks(v) ==> FileOk(table.ult, policy, name, file, v)
    {
      hide InternalPolicy, F.Builder.Valid, TableBuilder.Valid, AllAdded, F.Assembled, ReadBlock, KeysFiltered, Finished, EncodeHandle, EncodeFooter, FileOk, SmallBlocks;
      var filterAt := FinishFilter();
      var metaAt := FinishMetaindex(filterAt);
      ghost var blocks, handles := table.blocks, table.handles;
      var index, indexAt := table.Finish();
      v := View(table.sum, table.interval, blocks, handles, table.indexBlock.es, index, filter.groups, filterAt, metaAt, indexAt);
      file := table.file + EncodeFooter(metaAt, indexAt);
      BlocksInFile(table, policy, name, v);
      if |file| < TWO_64 && SmallBlocks(v) {
        FileIsOk(table, policy, name, file, v);
      }
    }
  }

  /** No block is longer than the file. */
  lemma BlocksInFile(t: TableBuilder, policy: F.Policy, name: Bytes, v: View)
    requires t.Valid() && PartsStored(policy, name, t.file, v) && v.sum == t.sum && v.handles == t.handles
    ensures |t.file| < TWO_32 ==> SmallBlocks(v)
  {
    hide InternalPolicy, Finished, ReadBlock, F.Assembled;
    HandleSize(t.sum, t.file, v.filter, F.Assembled(InternalPolicy(policy), v.groups));
    HandleSize(t.sum, t.file, v.metaindex, Finished(v.interval, MetaEntries(name, v.filter)));
    HandleSize(t.sum, t.file, v.indexAt, v.index);
    forall i | 0 <= i < |v.handles| ensures v.handles[i].size < |t.file| {
      HandleSize(t.sum, t.file, t.handles[i], Finished(t.interval, t.blocks[i]));
    }
  }

  lemma IntervalPositive(t: TableBuilder)
    requires t.Valid()
    ensures t.interval >= 1
  {
  }

  lemma AddedHasBlocks(added: seq<(nat, Bytes)>, blocks: seq<Chunk>, handles: seq<Handle>, end: nat, open_: seq<Entry>)
    requires AllAdded(added, blocks, handles, end, open_)
    ensures |handles| == |blocks|
  {
  }

  /** A finished table with its footer. */
  lemma FileIsOk(t: TableBuilder, policy: F.Policy, name: Bytes, file: Bytes, v: View)
    requires t.Valid() && t.closed
    requires PartsStored(policy, name, t.file, v) && KeysFiltered(v.blocks, v.handles, v.groups) && SmallBlocks(v)
    requires v.sum == t.sum && v.interval == t.interval && v.blocks == t.blocks && v.handles == t.handles && v.ies == t.indexBlock.es
    requires v.index == Finished(1, v.ies)
    requires file == t.file + EncodeFooter(v.metaindex, v.indexAt) && |file| < TWO_64
    ensures FileOk(t.ult, policy, name, file, v)
  {
    hide InternalPolicy, Finished, ReadBlock, F.Assembled, EncodeHandle, EncodeFooter, DecodeFooter, KeysFiltered, IndexFits, ChunksOk, Increasing, WeakOrder;
    var footer := EncodeFooter(v.metaindex, v.indexAt);
    HandleSize(t.sum, t.file, v.indexAt, v.index);
    HandleSize(t.sum, t.file, v.metaindex, Finished(v.interval, MetaEntries(name, v.filter)));
    FooterRoundTrip(v.metaindex, v.indexAt);
    assert file[|file| - FOOTER_SIZE..] == footer;
    forall i | 0 <= i < |t.blocks| ensures |Finished(t.interval, t.blocks[i])| < TWO_32 {
      HandleSize(t.sum, t.file, t.handles[i], Finished(t.interval, t.blocks[i]));
    }
    BuiltTableOk(t, v.index);
    forall h: Handle | ReadBlock(t.sum, t.file, h).Some? ensures ReadBlock(t.sum, file, h) == ReadBlock(t.sum, t.file, h) {
      BlockStays(t.sum, t.file, footer, h);
    }
    StillStored(t.sum, t.file, file, t.interval, t.blocks, t.handles);
  }

  // ------------------------------------------------------------------------- reading

  /** What `Table::Open` keeps: the index, and the filter if there is one that can be read. */
  datatype Opened = Opened(index: Bytes, filter: Option<F.Reader>) {
    ghost predicate Valid() {
      filter.Some? ==> filter.value.Valid()
    }
  }

  /** The handles in the last bytes of a file, if there is a footer. */
  function FooterOf(file: Bytes): Option<(Handle, Handle)> {
    if |file| < FOOTER_SIZE then None else DecodeFooter(file[|file| - FOOTER_SIZE..])
  }

  /** `Table::Open`: footer and index, or an error; then the filter, errors being ignored.
      Like every fetch, that of the index, of the metaindex or of the filter may look outside
      what was read, if the size in the handle wraps around. */
  method Open(sum: Log.Checksum, name: Bytes, file: Bytes, ghost ult: KeyOrder, ghost policy: F.Policy, ghost v: View)
      returns (r: Option<Opened>, outside: bool)
    ensures r.Some? ==> r.value.Valid()
    ensures r.None? <==> FooterOf(file).None? || !FetchBlock(sum, file, FooterOf(file).value.1).Fetched?
    ensures r.Some? ==> r.value.index == FetchBlock(sum, file, FooterOf(file).value.1).contents
    ensures FileOk(ult, policy, name, file, v) && v.sum == sum ==>
      !outside && r == Some(Opened(v.index, Some(F.Open(F.Assembled(InternalPolicy(policy), v.groups)))))
    ensures r.None? && FooterOf(file).Some? ==> (outside <==> FetchBlock(sum, file, FooterOf(file).value.1).Strayed?)
    ensures r.Some? && FetchBlock(sum, file, FooterOf(file).value.0).Strayed? ==> outside
    ensures r.Some? && outside ==> MetaHarmful(sum, file, FooterOf(file).value.0)
    ensures FooterOf(file).None? ==> !outside
  {
    hide TableOk, KeysFiltered, ReadBlock, FetchBlock, Finished, DecodeFooter, F.Assembled, InternalPolicy, F.Open, Harmless, EncodeHandle, DecodeHandle, MetaHarmful;
    if |file| < FOOTER_SIZE {
      return None, false;
    }
    var handles := DecodeFooter(file[|file| - FOOTER_SIZE..]);
    if handles.None? {
      return None, false;
    }
    ghost var good := FileOk(ult, policy, name, file, v) && v.sum == sum;
    if good {
      PartsFetched(policy, name, file, v);
    }
    var index := FetchBlock(sum, file, handles.value.1);
    if !index.Fetched? {
      return None, index.Strayed?;
    }
    var filter;
    filter, outside := ReadMeta(sum, name, file, handles.value.0, v.interval, v.filter);
    r := Some(Opened(index.contents, filter));
  }

  /** What the reader finds at the three handles of a finished file. */
  lemma PartsFetched(policy: F.Policy, name: Bytes, file: Bytes, v: View)
    requires PartsStored(policy, name, file, v) && |file| < TWO_64
    ensures FetchBlock(v.sum, file, v.filter) == Fetched(F.Assembled(InternalPolicy(policy), v.groups)) && Fits64(v.filter)
    ensures FetchBlock(v.sum, file, v.metaindex) == Fetched(Finished(v.interval, MetaEntries(name, v.filter)))
    ensures |Finished(v.interval, MetaEntries(name, v.filter))| == v.metaindex.size
    ensures FetchBlock(v.sum, file, v.indexAt) == Fetched(v.index)
  {
    hide ReadBlock, FetchBlock, Finished, F.Assembled, InternalPolicy, MetaEntries;
    HandleSize(v.sum, file, v.filter, F.Assembled(InternalPolicy(policy), v.groups));
    HandleSize(v.sum, file, v.metaindex, Finished(v.interval, MetaEntries(name, v.filter)));
    StoredIsFetched(v.sum, file, v.filter);
    StoredIsFetched(v.sum, file, v.metaindex);
    StoredIsFetched(v.sum, file, v.indexAt);
  }

  /** Reading the metaindex, or following a handle in it, can lead outside. */
  ghost predicate MetaHarmful(sum: Log.Checksum, file: Bytes, metaindex: Handle) {
    var meta := FetchBlock(sum, file, metaindex);
    Harmful(meta) || (meta.Fetched? && exists h :: LeadsTo(meta.contents, h) && FetchBlock(sum, file, h).Strayed?)
  }

  /** `ReadMeta` and `ReadFilter`: the filter under the policy's name, if all goes well. */
  method ReadMeta(sum: Log.Checksum, name: Bytes, file: Bytes, metaindex: Handle, ghost interval: nat, ghost filterAt: Handle)
      returns (r: Option<F.Reader>, outside: bool)
    ensures r.Some? ==> r.value.Valid()
    ensures FetchBlock(sum, file, metaindex).Strayed? ==> outside
    ensures outside ==> MetaHarmful(sum, file, metaindex)
    ensures (FetchBlock(sum, file, metaindex) == Fetched(Finished(interval, MetaEntries(name, filterAt)))
             && |Finished(interval, MetaEntries(name, filterAt))| < TWO_32
             && Fits64(filterAt) && FetchBlock(sum, file, filterAt).Fetched?) ==>
      !outside && r == Some(F.Open(FetchBlock(sum, file, filterAt).contents))
  {
    hide FetchBlock, Finished, F.Open, Harmless, EncodeHandle, DecodeHandle, FilterKey, Within;
    var meta := FetchBlock(sum, file, metaindex);
    if !meta.Fetched? {
      return None, meta.Strayed?;
    }
    ghost var es := MetaEntries(name, filterAt);
    if meta.contents == Finished(interval, es) && |Finished(interval, es)| < TWO_32 {
      MetaIsGood(interval, es, FilterKey(name));
    }
    var found;
    ghost var at;
    found, outside, at := SeekBlock(Less, meta.contents, FilterKey(name), interval, es);
    if found.None? || found.value.key != FilterKey(name) {
      return None, outside;
    }
    if Fits64(filterAt) {
      HandleRoundTrip(filterAt);
    }
    var handle := DecodeHandle(found.value.value);
    if handle.None? {
      return None, outside;
    }
    var block := FetchBlock(sum, file, handle.value);
    if !block.Fetched? {
      assert LeadsTo(meta.contents, handle.value);
      return None, outside || block.Strayed?;
    }
    r := Some(F.Open(block.contents));
  }

  /** A file whose footer leads the reader outside: it consists of the footer alone. */
  lemma StrayFooter(sum: Log.Checksum)
    ensures var stray := Handle(0, TWO_64 - TRAILER_SIZE);
            var file := EncodeFooter(Handle(0, 0), stray);
            FooterOf(file) == Some((Handle(0, 0), stray)) && FetchBlock(sum, file, stray) == Strayed
  {
    hide EncodeFooter, DecodeFooter, FetchBlock;
    var stray := Handle(0, TWO_64 - TRAILER_SIZE);
    var file := EncodeFooter(Handle(0, 0), stray);
    FooterRoundTrip(Handle(0, 0), stray);
    assert file[|file| - FOOTER_SIZE..] == file;
    StrayHandle(sum, file);
  }

  lemma MetaIsGood(interval: nat, es: seq<Entry>, key: Bytes)
    requires |es| == 1 && es[0].key == key && |Finished(interval, es)| < TWO_32
    ensures Good(Finished(interval, es), Less, interval, es) && !Less(es[0].key, key)
  {
    hide Finished;
    LessIsWeakOrder();
  }

  function Matcher(policy: F.Policy, filter: F.Reader): (nat, Bytes) -> bool
    requires filter.Valid()
  {
    (offset: nat, k: Bytes) => F.KeyMayMatch(InternalPolicy(policy), filter, offset, k)
  }

  /** The filter of a finished file lets every block through that holds the user key. */
  lemma FilterLetsThrough(ult: KeyOrder, policy: F.Policy, name: Bytes, file: Bytes, v: View, k: Bytes)
    requires FileOk(ult, policy, name, file, v) && policy.Serves(ult)
    ensures |v.handles| == |v.blocks|
    ensures NoFalseNegatives(ult, Matcher(policy, F.Open(F.Assembled(InternalPolicy(policy), v.groups))), v.blocks, v.handles, k)
  {
    hide TableOk, ReadBlock, Finished, DecodeFooter, F.Assembled, F.Open, F.KeyMayMatch, InternalPolicy, F.InGroup, UserKey, F.Policy.Serves;
    var internal := InternalPolicy(policy);
    var block := F.Assembled(internal, v.groups);
    HandleSize(v.sum, file, v.filter, block);
    forall i, j | 0 <= i < |v.blocks| && 0 <= j < |v.blocks[i]| && SameUser(ult, v.blocks[i][j].key, k)
      ensures F.KeyMayMatch(internal, F.Open(block), v.handles[i].offset, k)
    {
      InternalServes(policy, ult, v.blocks[i][j].key, k);
      F.ProbeMatches(internal, v.groups, v.handles[i].offset, v.blocks[i][j].key, k);
    }
  }

  /** Open a file and look a key up in it, through the filter if there is one. */
  method Get(ult: KeyOrder, sum: Log.Checksum, policy: F.Policy, name: Bytes, file: Bytes, k: Bytes, ghost v: View)
      returns (r: Option<Entry>, outside: bool)
    ensures FileOk(ult, policy, name, file, v) && v.sum == sum && policy.Serves(ult) ==>
      Answers(ult, v.blocks, k, r)
    ensures FileOk(ult, policy, name, file, v) && v.sum == sum ==>
      |v.handles| == |v.blocks|
      && HandsOver(ult, Matcher(policy, F.Open(F.Assembled(InternalPolicy(policy), v.groups))), v.blocks, v.handles, k, r)
    ensures FileOk(ult, policy, name, file, v) && v.sum == sum ==> !outside
  {
    hide FileOk, F.Policy.Serves, Answers, HandsOver, F.Assembled, F.Open, InternalPolicy, TableOk, NoFalseNegatives, Matcher, Harmless, DecodeFooter, ReadBlock;
    var t, outsideMeta := Open(sum, name, file, ult, policy, v);
    if t.None? {
      return None, outsideMeta;
    }
    if FileOk(ult, policy, name, file, v) && v.sum == sum {
      FileHasTable(ult, policy, name, file, v);
      if policy.Serves(ult) {
        FilterLetsThrough(ult, policy, name, file, v, k);
      }
    }
    var mayMatch := if t.value.filter.Some? then Matcher(policy, t.value.filter.value) else (offset: nat, key: Bytes) => true;
    ghost var followed;
    r, outside, followed := InternalGet(ult, sum, file, t.value.index, mayMatch, k, v.interval, v.blocks, v.handles, v.ies);
    outside := outside || outsideMeta;
  }

  lemma FileHasTable(ult: KeyOrder, policy: F.Policy, name: Bytes, file: Bytes, v: View)
    requires FileOk(ult, policy, name, file, v)
    ensures TableOk(ult, v.sum, v.interval, file, v.index, v.blocks, v.handles, v.ies)
  {
  }

  // ---------------------------------------------------------------- from end to end

  /** Entry `p` is the first at or after `k`. */
  ghost predicate FirstIn(ult: KeyOrder, es: seq<Entry>, k: Bytes, p: nat) {
    p < |es| && !InternalLess(ult, es[p].key, k) && forall q :: 0 <= q < p ==> InternalLess(ult, es[q].key, k)
  }

  ghost predicate AllBelow(ult: KeyOrder, es: seq<Entry>, k: Bytes) {
    forall q :: 0 <= q < |es| ==> InternalLess(ult, es[q].key, k)
  }

  ghost predicate BlocksBelow(ult: KeyOrder, blocks: seq<Chunk>, k: Bytes) {
    forall a, b :: 0 <= a < |blocks| && 0 <= b < |blocks[a]| ==> InternalLess(ult, blocks[a][b].key, k)
  }

  lemma BelowConcat(ult: KeyOrder, a: seq<Entry>, b: seq<Entry>, k: Bytes)
    ensures AllBelow(ult, a + b, k) <==> AllBelow(ult, a, k) && AllBelow(ult, b, k)
  {
    hide InternalLess;
    var all := a + b;
    assert forall q :: 0 <= q < |a| ==> all[q] == a[q];
    assert forall q :: 0 <= q < |b| ==> all[|a| + q] == b[q];
  }

  lemma {:induction false} BelowFlat(ult: KeyOrder, blocks: seq<Chunk>, k: Bytes)
    ensures BlocksBelow(ult, blocks, k) <==> AllBelow(ult, Flatten(blocks), k)
  {
    hide InternalLess;
    if blocks != [] {
      var n := |blocks| - 1;
      var init, last := blocks[..n], blocks[n];
      BelowFlat(ult, init, k);
      BelowConcat(ult, Flatten(init), last, k);
      assert BlocksBelow(ult, blocks, k) <==> BlocksBelow(ult, init, k) && AllBelow(ult, last, k) by {
        assert forall a :: 0 <= a < n ==> blocks[a] == init[a];
      }
    }
  }

  /** The first entry of the blocks is the first of the flat list, and the other way round. */
  lemma {:induction false} FirstInBlocks(ult: KeyOrder, blocks: seq<Chunk>, k: Bytes, p: nat) returns (i: nat, j: nat)
    requires FirstIn(ult, Flatten(blocks), k, p)
    ensures FirstAt(ult, blocks, k, i, j) && blocks[i][j] == Flatten(blocks)[p]
  {
    hide InternalLess;
    var n := |blocks| - 1;
    var init := blocks[..n];
    var before := Flatten(init);
    assert forall q :: 0 <= q < |before| ==> Flatten(blocks)[q] == before[q];
    if p < |Flatten(init)| {
      i, j := FirstInBlocks(ult, init, k, p);
    } else {
      i, j := n, p - |Flatten(init)|;
      assert AllBelow(ult, Flatten(init), k);
      BelowFlat(ult, init, k);
      assert forall a :: 0 <= a < n ==> blocks[a] == init[a];
      assert forall b :: 0 <= b < j ==> Flatten(blocks)[|Flatten(init)| + b] == blocks[n][b];
    }
  }

  lemma {:induction false} FirstInList(ult: KeyOrder, blocks: seq<Chunk>, k: Bytes, i: nat, j: nat) returns (p: nat)
    requires FirstAt(ult, blocks, k, i, j)
    ensures FirstIn(ult, Flatten(blocks), k, p) && blocks[i][j] == Flatten(blocks)[p]
  {
    hide InternalLess;
    var n := |blocks| - 1;
    var init := blocks[..n];
    if i < n {
      p := FirstInList(ult, init, k, i, j);
    } else {
      p := |Flatten(init)| + j;
      assert BlocksBelow(ult, init, k);
      BelowFlat(ult, init, k);
      assert forall b :: 0 <= b < j ==> Flatten(blocks)[|Flatten(init)| + b] == blocks[n][b];
    }
  }

  /** A read hands over the first entry at or after the key, or nothing; and not nothing if
      that entry has the user key that is looked for. */
  ghost predicate Answered(ult: KeyOrder, es: seq<Entry>, k: Bytes, r: Option<Entry>) {
    && (r.Some? ==> exists p: nat :: FirstIn(ult, es, k, p) && es[p] == r.value)
    && (r.None? ==> forall p: nat :: FirstIn(ult, es, k, p) ==> !SameUser(ult, es[p].key, k))
  }

  lemma AnswersInList(ult: KeyOrder, blocks: seq<Chunk>, k: Bytes, r: Option<Entry>)
    requires Answers(ult, blocks, k, r)
    ensures Answered(ult, Flatten(blocks), k, r)
  {
    hide InternalLess, SameUser, Flatten;
    if r.Some? {
      var i: nat, j: nat :| FirstAt(ult, blocks, k, i, j) && blocks[i][j] == r.value;
      var p := FirstInList(ult, blocks, k, i, j);
    } else {
      forall p: nat | FirstIn(ult, Flatten(blocks), k, p) ensures !SameUser(ult, Flatten(blocks)[p].key, k) {
        var i, j := FirstInBlocks(ult, blocks, k, p);
      }
    }
  }

  /** Whatever ascending entries are added, for any filter policy that serves the comparator, a
      lookup in the file finds the first entry at or after the key unless it belongs to
      another user key. */
  method BuildAndGet(ult: KeyOrder, shorten: (Bytes, Bytes) -> Bytes, successor: Bytes -> Bytes, sum: Log.Checksum,
                     interval: nat, blockSize: nat, policy: F.Policy, name: Bytes, es: seq<Entry>, k: Bytes)
      returns (file: Bytes, ghost v: View, r: Option<Entry>, outside: bool)
    requires WeakOrder(ult) && Separates(ult, shorten) && sum.Sound() && interval >= 1 && Increasing(Internal(ult), es)
    ensures |file| < TWO_32 ==> !outside && (policy.Serves(ult) ==> Answered(ult, es, k, r))
    ensures |file| < TWO_64 && SmallBlocks(v) ==> FileOk(ult, policy, name, file, v) && Flatten(v.blocks) == es && !outside
    ensures |file| < TWO_64 && SmallBlocks(v) && policy.Serves(ult) ==> Answered(ult, es, k, r)
  {
    hide FileOk, SmallBlocks, Answers, Answered, F.Policy.Serves, WeakOrder, Separates, FilteredBuilder.Valid, InternalLess, Flatten;
    var b := new FilteredBuilder(ult, shorten, successor, sum, interval, blockSize, policy, name);
    for n := 0 to |es|
      invariant b.Valid() && b.table.ult == ult && b.table.sum == sum && b.policy == policy && b.name == name
      invariant b.Entries() == es[..n] && (n > 0 ==> b.table.lastKey == es[n - 1].key)
      invariant fresh(b) && fresh(b.table) && fresh(b.table.dataBlock) && fresh(b.table.indexBlock) && fresh(b.filter)
    {
      FlatEmpty(b.table.Chunks());
      assert n > 0 ==> Internal(ult)(es[n - 1].key, es[n].key);
      b.Add(es[n].key, es[n].value);
      assert es[..n] + [es[n]] == es[..n + 1];
    }
    file, v := b.Finish();
    assert es[..|es|] == es;
    r, outside := Get(ult, sum, policy, name, file, k, v);
    if Answers(ult, v.blocks, k, r) {
      AnswersInList(ult, v.blocks, k, r);
    }
  }

  lemma FlatEmpty(chunks: seq<Chunk>)
    ensures Flatten(chunks) == [] <==> chunks == []
  {
  }
}
