/** Logs that were damaged: fragments that are cut off or no longer match their checksums.
    A record comes back whole or not at all, and nothing comes back that was not written. */
module LogDamage {
  import opened Wrappers
  import opened Coding
  import opened Log
  import opened LogRoundTrip

  // ---------------------------------------------------------- one physical record at a time

  /** Reading on from `pos` when the fragments in `partial` have been collected. */
  function ReadOn(read: nat -> Physical, size: nat, pos: nat, partial: Option<Bytes>): (seq<Bytes>, int) {
    var r := AssembleFrom(read, size, pos, partial);
    match r.record
    case None => ([], r.reports)
    case Some(record) =>
      if pos < r.next <= size then
        var (later, reports) := ReadAllFrom(read, size, r.next);
        ([record] + later, r.reports + reports)
      else ([], r.reports)
  }

  function ReadRest(sum: Checksum, file: Bytes, pos: nat, partial: Option<Bytes>): (seq<Bytes>, int) {
    ReadOn(Source(sum, file), |file|, pos, partial)
  }

  lemma ReadOnMore(sum: Checksum, file: Bytes, pos: nat, partial: Option<Bytes>)
    requires pos <= |file|
    ensures var p := ReadPhysical(sum, file, pos);
            match Take(partial, p.code, p.fragment)
            case More(partial', reports) =>
              ReadRest(sum, file, pos, partial).0 == ReadRest(sum, file, p.next, partial').0
              && ReadRest(sum, file, pos, partial).1 == p.reports + reports + ReadRest(sum, file, p.next, partial').1
            case Done(None, reports) => ReadRest(sum, file, pos, partial) == ([], p.reports + reports)
            case Done(Some(record), reports) =>
              ReadRest(sum, file, pos, partial).0 == [record] + ReadRest(sum, file, p.next, None).0
              && ReadRest(sum, file, pos, partial).1 == p.reports + reports + ReadRest(sum, file, p.next, None).1
  {
    var p := ReadPhysical(sum, file, pos);
    var taken := Take(partial, p.code, p.fragment);
    if taken.More? {
      AssembleAdvances(sum, file, p.next, taken.partial);
    }
  }

  lemma {:induction false} ReportsAreCounted(sum: Checksum, file: Bytes, pos: nat, partial: Option<Bytes>)
    requires pos <= |file|
    ensures Assemble(sum, file, pos, partial).reports >= 0
    decreases |file| - pos
  {
    hide ReadPhysical;
    var p := ReadPhysical(sum, file, pos);
    var taken := Take(partial, p.code, p.fragment);
    if taken.More? {
      AssembleAdvances(sum, file, p.next, taken.partial);
      ReportsAreCounted(sum, file, p.next, taken.partial);
    }
  }

  // -------------------------------------------------------------------------- any bytes

  /** The physical records of a file from `pos` on, up to the end. */
  function Physicals(sum: Checksum, file: Bytes, pos: nat): seq<Physical>
    requires pos <= |file|
    decreases |file| - pos
  {
    var p := ReadPhysical(sum, file, pos);
    if p.code == EOF then [] else [p] + Physicals(sum, file, p.next)
  }

  /** A first fragment at `i` and middle ones up to `n`. */
  ghost predicate OpenChain(ps: seq<Physical>, i: nat, n: nat) {
    i < n <= |ps| && ps[i].code == FIRST && forall m :: i < m < n ==> ps[m].code == MIDDLE
  }

  /** The physical records from `i` to `j` are one record. */
  ghost predicate Chain(ps: seq<Physical>, i: nat, j: nat) {
    j < |ps| && if i == j then ps[j].code == FULL else OpenChain(ps, i, j) && ps[j].code == LAST
  }

  function Joined(ps: seq<Physical>, i: nat, j: nat): Bytes
    requires i <= j < |ps|
  {
    if i == j then ps[i].fragment else Joined(ps, i, j - 1) + ps[j].fragment
  }

  /** The records that end at physical record `n` or later, in order. */
  ghost function Chains(ps: seq<Physical>, n: nat): seq<Bytes>
    requires n <= |ps|
    decreases |ps| - n
  {
    if n == |ps| then []
    else if i: nat :| Chain(ps, i, n) then [Joined(ps, i, n)] + Chains(ps, n + 1)
    else Chains(ps, n + 1)
  }

  /** What the reader has collected before physical record `n`. */
  ghost predicate Collected(ps: seq<Physical>, n: nat, partial: Option<Bytes>)
    requires n <= |ps|
  {
    match partial
    case None => forall i: nat :: !OpenChain(ps, i, n)
    case Some(bytes) => exists i: nat :: OpenChain(ps, i, n) && bytes == Joined(ps, i, n - 1)
  }

  /** At most one chain is open, and at most one ends at a physical record. */
  lemma ChainsApart(ps: seq<Physical>, n: nat, i: nat, i': nat)
    requires n <= |ps| && OpenChain(ps, i, n) && OpenChain(ps, i', n)
    ensures i == i'
  {
    assert forall m :: i < m < n ==> ps[m].code == MIDDLE;
    assert forall m :: i' < m < n ==> ps[m].code == MIDDLE;
  }

  lemma OpenChainStep(ps: seq<Physical>, n: nat, next: nat)
    requires n < |ps| && next == n + 1
    ensures forall i: nat :: OpenChain(ps, i, next) <==> if i == n then ps[n].code == FIRST else OpenChain(ps, i, n) && ps[n].code == MIDDLE
  {
    forall i: nat
      ensures OpenChain(ps, i, next) <==> if i == n then ps[n].code == FIRST else OpenChain(ps, i, n) && ps[n].code == MIDDLE
    {
      if i < n && OpenChain(ps, i, next) {
        assert forall m :: i < m < next ==> ps[m].code == MIDDLE;
      }
    }
  }

  /** A physical record that goes on collecting ends no chain. */
  lemma StillCollecting(ps: seq<Physical>, n: nat, partial: Option<Bytes>)
    requires n < |ps| && Collected(ps, n, partial) && ps[n].code != EOF
    requires Take(partial, ps[n].code, ps[n].fragment).More?
    ensures Collected(ps, n + 1, Take(partial, ps[n].code, ps[n].fragment).partial)
    ensures forall i: nat :: !Chain(ps, i, n)
  {
    var p := ps[n];
    OpenChainStep(ps, n, n + 1);
    if p.code == FIRST {
      assert OpenChain(ps, n, n + 1) && Joined(ps, n, n) == p.fragment;
    } else if p.code == MIDDLE && partial.Some? {
      var i: nat :| OpenChain(ps, i, n) && partial.value == Joined(ps, i, n - 1);
      assert OpenChain(ps, i, n + 1) && Joined(ps, i, n) == partial.value + p.fragment;
    }
  }

  /** A physical record that completes a record ends one chain. */
  lemma ChainEnds(ps: seq<Physical>, n: nat, partial: Option<Bytes>)
    requires n < |ps| && Collected(ps, n, partial) && ps[n].code != EOF
    requires Take(partial, ps[n].code, ps[n].fragment).Done?
    ensures Collected(ps, n + 1, None)
    ensures exists i: nat :: Chain(ps, i, n)
    ensures forall i: nat :: Chain(ps, i, n) ==> Take(partial, ps[n].code, ps[n].fragment).record == Some(Joined(ps, i, n))
  {
    var p := ps[n];
    if p.code == FULL {
      assert Chain(ps, n, n);
    } else {
      var i: nat :| OpenChain(ps, i, n) && partial.value == Joined(ps, i, n - 1);
      assert Chain(ps, i, n);
      forall i': nat | Chain(ps, i', n) ensures i' == i {
        ChainsApart(ps, n, i, i');
      }
    }
    OpenChainStep(ps, n, n + 1);
  }

  /** Reading on delivers the chains that end from here on. */
  lemma {:induction false} ReadRestIsChains(sum: Checksum, file: Bytes, pos: nat, ps: seq<Physical>, n: nat, partial: Option<Bytes>)
    requires pos <= |file| && n <= |ps| && ps[n..] == Physicals(sum, file, pos) && Collected(ps, n, partial)
    ensures ReadRest(sum, file, pos, partial).0 == Chains(ps, n)
    decreases |ps| - n
  {
    hide ReadPhysical, ReadRest, Collected, Chain, Joined;
    ReadOnMore(sum, file, pos, partial);
    if n < |ps| {
      var p := ReadPhysical(sum, file, pos);
      assert ps[n..][0] == p && ps[n + 1..] == Physicals(sum, file, p.next);
      var taken := Take(partial, p.code, p.fragment);
      if taken.More? {
        StillCollecting(ps, n, partial);
        ReadRestIsChains(sum, file, p.next, ps, n + 1, taken.partial);
      } else {
        ChainEnds(ps, n, partial);
        ReadRestIsChains(sum, file, p.next, ps, n + 1, None);
      }
    }
  }

  /** A fragment that stands in the file behind its header and matches its checksum. */
  ghost predicate StandsIn(sum: Checksum, file: Bytes, p: Physical) {
    exists at: nat :: StandsAt(sum, file, p, at)
  }

  ghost predicate StandsAt(sum: Checksum, file: Bytes, p: Physical, at: nat) {
    && at + HEADER_SIZE + |p.fragment| <= |file|
    && at / BLOCK_SIZE == (at + HEADER_SIZE + |p.fragment| - 1) / BLOCK_SIZE
    && |p.fragment| == Word(file[at + 4], file[at + 5]) && p.code == file[at + 6]
    && p.fragment == file[at + HEADER_SIZE..at + HEADER_SIZE + |p.fragment|]
    && sum.matches(file[at..at + 4], file[at + 6], p.fragment)
  }

  lemma PartOfRest(file: Bytes, at: nat, i: nat, j: nat)
    requires at <= |file| && i <= j <= |BlockRest(file, at)|
    ensures BlockRest(file, at)[i..j] == file[at + i..at + j]
  {
    var rest := BlockRest(file, at);
    forall k | 0 <= k < j - i ensures rest[i..j][k] == file[at + i..at + j][k] {
      assert rest[i + k] == file[at + (i + k)];
    }
  }

  lemma PhysicalStands(sum: Checksum, file: Bytes, pos: nat)
    requires pos <= |file|
    ensures var p := ReadPhysical(sum, file, pos);
            p.code in {FULL, FIRST, MIDDLE, LAST} ==> StandsIn(sum, file, p)
  {
    var p, at := ReadPhysical(sum, file, pos), HeaderAt(pos);
    if p.code in {FULL, FIRST, MIDDLE, LAST} {
      var rest := BlockRest(file, at);
      assert rest[4] == file[at + 4] && rest[5] == file[at + 5] && rest[6] == file[at + 6];
      assert rest[..4] == file[at..at + 4];
      var n := Word(rest[4], rest[5]);
      PartOfRest(file, at, HEADER_SIZE, HEADER_SIZE + n);
      assert StandsAt(sum, file, p, at);
    }
  }

  lemma {:induction false} AllStand(sum: Checksum, file: Bytes, pos: nat)
    requires pos <= |file|
    ensures forall p :: p in Physicals(sum, file, pos) && p.code in {FULL, FIRST, MIDDLE, LAST} ==> StandsIn(sum, file, p)
    decreases |file| - pos
  {
    hide ReadPhysical, StandsIn;
    PhysicalStands(sum, file, pos);
    var p := ReadPhysical(sum, file, pos);
    if p.code != EOF {
      AllStand(sum, file, p.next);
    }
  }

  /** From any bytes: what is returned is, in order, every unbroken chain of a first, middle
      and last fragments, or a full one, each of which stands in the file and matches its
      checksum. */
  lemma ReadsChains(sum: Checksum, file: Bytes)
    ensures var ps := Physicals(sum, file, 0);
            && ReadAll(sum, file).0 == Chains(ps, 0)
            && forall p :: p in ps && p.code in {FULL, FIRST, MIDDLE, LAST} ==> StandsIn(sum, file, p)
  {
    hide Physicals, Chains, StandsIn;
    var ps := Physicals(sum, file, 0);
    assert ps[0..] == ps;
    ReadRestIsChains(sum, file, 0, ps, 0, None);
    AllStand(sum, file, 0);
  }

  // --------------------------------------------------------------------- damaged logs

  /** A fragment of the log and where its header stands. */
  datatype Fragment = Fragment(at: nat, t: Byte, data: Bytes)

  function Placed(pos: nat, pieces: seq<Piece>): seq<Fragment>
    decreases |pieces|
  {
    if pieces == [] then []
    else [Fragment(pos + pieces[0].pad, pieces[0].t, pieces[0].data)] + Placed(Next(pos, pieces[0]), pieces[1..])
  }

  /** The fragments of a record that is added to a file of `pos` bytes, and where it ends. */
  function FragmentsOf(pos: nat, record: Bytes): seq<Fragment> {
    Placed(pos, Cut(pos, record, true))
  }

  function EndOfRecord(pos: nat, record: Bytes): nat {
    EndOf(pos, Cut(pos, record, true))
  }

  /** The fragments of a log. */
  function Fragments(pos: nat, records: seq<Bytes>): seq<Fragment>
    decreases |records|
  {
    if records == [] then [] else FragmentsOf(pos, records[0]) + Fragments(EndOfRecord(pos, records[0]), records[1..])
  }

  function LogEnd(pos: nat, records: seq<Bytes>): nat
    decreases |records|
  {
    if records == [] then pos else LogEnd(EndOfRecord(pos, records[0]), records[1..])
  }

  predicate SameBlock(a: nat, b: nat) {
    a / BLOCK_SIZE == b / BLOCK_SIZE
  }

  /** Where the block of `at`, or the file in it, ends. */
  function Limit(file: Bytes, at: nat): nat {
    if |file| < BlockEnd(at) then |file| else BlockEnd(at)
  }

  /** The header at `at`, or what it announces, is cut off. */
  predicate CutOff(file: Bytes, at: nat) {
    |file| < at + HEADER_SIZE || at + HEADER_SIZE + Word(file[at + 4], file[at + 5]) > Limit(file, at)
  }

  predicate ZeroedHeader(file: Bytes, at: nat)
    requires !CutOff(file, at)
  {
    file[at + 6] == 0 && Word(file[at + 4], file[at + 5]) == 0
  }

  /** There is nothing at `at` that a checksum vouches for. */
  predicate Unreadable(sum: Checksum, file: Bytes, at: nat)
    requires at % BLOCK_SIZE + HEADER_SIZE <= BLOCK_SIZE
  {
    CutOff(file, at) || ZeroedHeader(file, at)
    || var n := Word(file[at + 4], file[at + 5]);
       !sum.matches(file[at..at + 4], file[at + 6], file[at + HEADER_SIZE..at + HEADER_SIZE + n])
  }

  /** What the reader reports of it: not a file that just ends, and not a zeroed header. */
  predicate Noticeable(file: Bytes, at: nat) {
    if CutOff(file, at) then at + HEADER_SIZE <= |file| && BlockEnd(at) <= |file| else !ZeroedHeader(file, at)
  }

  /** Each fragment still stands in the file, or is unreadable; bytes between fragments do
      not matter. */
  ghost predicate Damaged(sum: Checksum, file: Bytes, fragments: seq<Fragment>, bad: set<nat>) {
    forall f :: f in fragments ==>
      && f.at % BLOCK_SIZE + HEADER_SIZE <= BLOCK_SIZE
      && if f.at in bad then Unreadable(sum, file, f.at) else Holds(file, f.at, PhysicalRecord(sum, f.t, f.data))
  }

  /** A fragment at `at` is bad, or behind a bad one in its block. */
  ghost predicate Behind(bad: set<nat>, at: nat) {
    exists b :: b in bad && b <= at && SameBlock(b, at)
  }

  /** Some fragment of the record is bad or behind a bad one. */
  ghost predicate Lost(fragments: seq<Fragment>, bad: set<nat>) {
    exists f :: f in fragments && Behind(bad, f.at)
  }

  /** The records that are not lost, in order. */
  ghost function Intact(pos: nat, records: seq<Bytes>, bad: set<nat>): seq<Bytes>
    decreases |records|
  {
    if records == [] then []
    else
      var later := Intact(EndOfRecord(pos, records[0]), records[1..], bad);
      if Lost(FragmentsOf(pos, records[0]), bad) then later else [records[0]] + later
  }

  // ------------------------------------------------------------ the reader on a damaged log

  /** Something in the block of `at` and before it is bad. */
  ghost predicate Past(bad: set<nat>, at: nat) {
    exists b :: b in bad && b < at && SameBlock(b, at)
  }

  /** The reader is where the fragment behind `pos` stands, or it has given up its block. */
  ghost predicate Synced(file: Bytes, bad: set<nat>, q: nat, pos: nat) {
    && q <= |file|
    && var at := HeaderAt(pos);
       if Past(bad, at) then q == Limit(file, at) else HeaderAt(q) == at || q == |file| < at
  }

  /** No bad header is inside the fragment. */
  ghost predicate Apart(bad: set<nat>, f: Fragment) {
    forall b :: b in bad ==> b <= f.at || f.at + HEADER_SIZE + |f.data| <= b
  }

  lemma BlockArithmetic(at: nat, n: nat)
    requires at % BLOCK_SIZE + HEADER_SIZE + n <= BLOCK_SIZE
    ensures HeaderAt(at) == at
    ensures var next := HeaderAt(at + HEADER_SIZE + n);
            if SameBlock(at, next) then BlockEnd(next) == BlockEnd(at) else next == BlockEnd(at) == HeaderAt(BlockEnd(at))
    ensures forall b: nat :: SameBlock(b, at) <==> BlockEnd(at) - BLOCK_SIZE <= b < BlockEnd(at)
  {
  }

  /** Behind a bad fragment nothing of the block is looked at. */
  lemma SyncedPast(file: Bytes, bad: set<nat>, q: nat, pos: nat, f: Fragment)
    requires Synced(file, bad, q, pos) && f.at == HeaderAt(pos) && f.at % BLOCK_SIZE + HEADER_SIZE + |f.data| <= BLOCK_SIZE
    requires Past(bad, f.at)
    ensures Synced(file, bad, q, f.at + HEADER_SIZE + |f.data|)
  {
    BlockArithmetic(f.at, |f.data|);
    var b :| b in bad && b < f.at && SameBlock(b, f.at);
    var next := HeaderAt(f.at + HEADER_SIZE + |f.data|);
    if SameBlock(f.at, next) {
      assert Past(bad, next);
    } else {
      BlockArithmetic(next, 0);
    }
  }

  /** A fragment that still stands is read. */
  lemma SyncedWhole(sum: Checksum, file: Bytes, bad: set<nat>, q: nat, pos: nat, f: Fragment)
    requires sum.Sound() && f.t != ZERO
    requires Synced(file, bad, q, pos) && f.at == HeaderAt(pos) && f.at % BLOCK_SIZE + HEADER_SIZE + |f.data| <= BLOCK_SIZE
    requires !Behind(bad, f.at) && Apart(bad, f) && Holds(file, f.at, PhysicalRecord(sum, f.t, f.data))
    ensures var end := f.at + HEADER_SIZE + |f.data|;
            && ReadPhysical(sum, file, q) == Physical(f.t, f.data, end, 0)
            && Synced(file, bad, end, end) && !Past(bad, HeaderAt(end))
  {
    hide PhysicalRecord, BlockEnd;
    assert !Past(bad, f.at);
    assert HeaderAt(q) == f.at;
    WholeFragment(sum, file, q, f.t, f.data);
    GoodBehind(file, bad, f);
  }

  lemma GoodBehind(file: Bytes, bad: set<nat>, f: Fragment)
    requires f.at % BLOCK_SIZE + HEADER_SIZE + |f.data| <= BLOCK_SIZE && f.at + HEADER_SIZE + |f.data| <= |file|
    requires !Behind(bad, f.at) && Apart(bad, f)
    ensures var end := f.at + HEADER_SIZE + |f.data|; Synced(file, bad, end, end) && !Past(bad, HeaderAt(end))
  {
    BlockArithmetic(f.at, |f.data|);
    BlockArithmetic(HeaderAt(f.at + HEADER_SIZE + |f.data|), 0);
    assert forall b :: b in bad && SameBlock(b, f.at) ==> b >= f.at + HEADER_SIZE + |f.data|;
  }

  /** At a bad fragment the reader gives up the block, and what it has collected. */
  lemma SyncedBad(sum: Checksum, file: Bytes, bad: set<nat>, q: nat, pos: nat, f: Fragment, partial: Option<Bytes>)
    requires Synced(file, bad, q, pos) && f.at == HeaderAt(pos) && f.at % BLOCK_SIZE + HEADER_SIZE + |f.data| <= BLOCK_SIZE
    requires f.at in bad && !Past(bad, f.at) && Unreadable(sum, file, f.at)
    ensures var limit := Limit(file, f.at);
            && Synced(file, bad, limit, f.at + HEADER_SIZE + |f.data|)
            && ReadRest(sum, file, q, partial).0 == ReadRest(sum, file, limit, None).0
            && ReadRest(sum, file, q, partial).1 >= ReadRest(sum, file, limit, None).1
            && (Noticeable(file, f.at) ==> ReadRest(sum, file, q, partial).1 > ReadRest(sum, file, limit, None).1)
  {
    hide ReadRest;
    var limit := Limit(file, f.at);
    ReadUnreadable(sum, file, q, f.at);
    ReadOnMore(sum, file, q, partial);
    ReadOnMore(sum, file, |file|, None);
    BadBehind(file, bad, f);
  }

  /** What ReadPhysicalRecord makes of it. */
  lemma ReadUnreadable(sum: Checksum, file: Bytes, q: nat, at: nat)
    requires q <= |file| && at % BLOCK_SIZE + HEADER_SIZE <= BLOCK_SIZE && Unreadable(sum, file, at)
    requires HeaderAt(q) == at || q == |file| < at
    ensures var p := ReadPhysical(sum, file, q);
            && p.next == Limit(file, at) && p.fragment == []
            && (if p.code == EOF then p.next == |file| && p.reports == 0 else p.code == BAD_RECORD)
            && (Noticeable(file, at) ==> p.code == BAD_RECORD && p.reports == 1)
  {
    if at + HEADER_SIZE <= |file| {
      var rest := BlockRest(file, at);
      assert rest[4] == file[at + 4] && rest[5] == file[at + 5] && rest[6] == file[at + 6];
      assert rest[..4] == file[at..at + 4];
      var n := Word(rest[4], rest[5]);
      if HEADER_SIZE + n <= |rest| {
        PartOfRest(file, at, HEADER_SIZE, HEADER_SIZE + n);
      }
    }
  }

  lemma BadBehind(file: Bytes, bad: set<nat>, f: Fragment)
    requires f.at in bad && f.at % BLOCK_SIZE + HEADER_SIZE + |f.data| <= BLOCK_SIZE
    ensures Synced(file, bad, Limit(file, f.at), f.at + HEADER_SIZE + |f.data|)
  {
    BlockArithmetic(f.at, |f.data|);
    var next := HeaderAt(f.at + HEADER_SIZE + |f.data|);
    if SameBlock(f.at, next) {
      assert Past(bad, next);
    } else {
      BlockArithmetic(next, 0);
    }
  }

  ghost predicate Noticed(file: Bytes, bad: set<nat>, at: nat) {
    at in bad && !Past(bad, at) && Noticeable(file, at)
  }

  ghost predicate SomeNoticed(file: Bytes, bad: set<nat>, fragments: seq<Fragment>) {
    exists f :: f in fragments && Noticed(file, bad, f.at)
  }

  /** What the lemmas below rely on: the fragments of some pieces in a damaged file. */
  ghost predicate DamagedPieces(sum: Checksum, file: Bytes, bad: set<nat>, pos: nat, pieces: seq<Piece>) {
    && Laid(pos, pieces)
    && Damaged(sum, file, Placed(pos, pieces), bad)
    && (forall f :: f in Placed(pos, pieces) ==> Apart(bad, f))
  }

  lemma FirstPlaced(sum: Checksum, file: Bytes, bad: set<nat>, pos: nat, pieces: seq<Piece>)
    requires pieces != [] && DamagedPieces(sum, file, bad, pos, pieces)
    ensures var f, rest := Fragment(HeaderAt(pos), pieces[0].t, pieces[0].data), Placed(Next(pos, pieces[0]), pieces[1..]);
            && Placed(pos, pieces) == [f] + rest && Apart(bad, f) && f.t != ZERO
            && f.at % BLOCK_SIZE + HEADER_SIZE + |f.data| <= BLOCK_SIZE && f.at + HEADER_SIZE + |f.data| == Next(pos, pieces[0])
            && (if f.at in bad then Unreadable(sum, file, f.at) else Holds(file, f.at, PhysicalRecord(sum, f.t, f.data)))
            && (Lost([f] + rest, bad) <==> Behind(bad, f.at) || Lost(rest, bad))
            && (SomeNoticed(file, bad, [f] + rest) <==> Noticed(file, bad, f.at) || SomeNoticed(file, bad, rest))
            && DamagedPieces(sum, file, bad, Next(pos, pieces[0]), pieces[1..])
            && EndOf(pos, pieces) == EndOf(Next(pos, pieces[0]), pieces[1..])
  {
    hide Unreadable, PhysicalRecord, Apart, Noticed, Behind;
    var f, rest := Fragment(HeaderAt(pos), pieces[0].t, pieces[0].data), Placed(Next(pos, pieces[0]), pieces[1..]);
    assert f in [f] + rest;
    assert forall g :: g in [f] + rest <==> g == f || g in rest;
  }

  /** Reading on from `q'` instead of `q` delivers the same but `first`; what was reported on the way. */
  ghost predicate Leads(sum: Checksum, file: Bytes, q: nat, partial: Option<Bytes>, first: seq<Bytes>, q': nat,
                        clean: bool, noticed: bool) {
    var now, later := ReadRest(sum, file, q, partial), ReadRest(sum, file, q', None);
    && now.0 == first + later.0 && now.1 >= later.1
    && (clean ==> now.1 == later.1) && (noticed ==> now.1 > later.1)
  }

  /** The rest of a record that was given up: its fragments are passed over. */
  lemma {:induction false} RestOfLost(sum: Checksum, file: Bytes, bad: set<nat>, q: nat, pos: nat, pieces: seq<Piece>)
    returns (q': nat)
    requires sum.Sound() && Synced(file, bad, q, pos) && DamagedPieces(sum, file, bad, pos, pieces)
    requires forall p :: p in pieces ==> p.t in {MIDDLE, LAST}
    ensures Synced(file, bad, q', EndOf(pos, pieces))
    ensures Leads(sum, file, q, None, [], q', false, SomeNoticed(file, bad, Placed(pos, pieces)))
    decreases |pieces|
  {
    hide Synced, DamagedPieces, Past, Noticeable, ReadRest, Placed, PhysicalRecord;
    q' := q;
    if pieces == [] {
      NothingPlaced(pos);
    } else {
      FirstPlaced(sum, file, bad, pos, pieces);
      var f, next := Fragment(HeaderAt(pos), pieces[0].t, pieces[0].data), Next(pos, pieces[0]);
      if Past(bad, f.at) {
        SyncedPast(file, bad, q, pos, f);
      } else if f.at in bad {
        SyncedBad(sum, file, bad, q, pos, f, None);
        q' := Limit(file, f.at);
      } else {
        NotBehind(bad, f.at);
        SyncedWhole(sum, file, bad, q, pos, f);
        SyncedInside(file, bad, q, pos);
        ReadOnMore(sum, file, q, None);
        q' := next;
      }
      q' := RestOfLost(sum, file, bad, q', next, pieces[1..]);
    }
  }

  lemma NothingPlaced(pos: nat)
    ensures Placed(pos, []) == [] && EndOf(pos, []) == pos
  {
  }

  lemma NotBehind(bad: set<nat>, at: nat)
    requires at !in bad && !Past(bad, at)
    ensures !Behind(bad, at)
  {
  }

  lemma SyncedInside(file: Bytes, bad: set<nat>, q: nat, pos: nat)
    requires Synced(file, bad, q, pos)
    ensures q <= |file|
  {
  }

  lemma {:induction false} LaterTypes(pieces: seq<Piece>, data: Bytes)
    requires Spells(pieces, data, false)
    ensures forall p :: p in pieces ==> p.t in {MIDDLE, LAST}
    decreases |pieces|
  {
    if |pieces| > 1 {
      LaterTypes(pieces[1..], data[|pieces[0].data|..]);
    }
  }

  /** A record is read whole, or lost whole. */
  lemma {:induction false} WholeOrLost(sum: Checksum, file: Bytes, bad: set<nat>, q: nat, pos: nat, pieces: seq<Piece>,
                                       data: Bytes, begin: bool, scratch: Bytes) returns (q': nat)
    requires sum.Sound() && Synced(file, bad, q, pos) && DamagedPieces(sum, file, bad, pos, pieces)
    requires Spells(pieces, data, begin) && (begin ==> scratch == []) && (!begin ==> !Past(bad, HeaderAt(pos)))
    ensures Synced(file, bad, q', EndOf(pos, pieces))
    ensures Leads(sum, file, q, Scratch(begin, scratch), if Lost(Placed(pos, pieces), bad) then [] else [scratch + data], q',
                  bad == {}, SomeNoticed(file, bad, Placed(pos, pieces)))
    decreases |pieces|
  {
    hide Synced, DamagedPieces, Past, Noticeable, ReadRest, Placed, PhysicalRecord, Lost, Behind, SomeNoticed;
    FirstPlaced(sum, file, bad, pos, pieces);
    var f, next := Fragment(HeaderAt(pos), pieces[0].t, pieces[0].data), Next(pos, pieces[0]);
    if Past(bad, f.at) || f.at in bad {
      GivenUp(bad, f.at);
      if Past(bad, f.at) {
        SyncedPast(file, bad, q, pos, f);
        q' := q;
      } else {
        SyncedBad(sum, file, bad, q, pos, f, Scratch(begin, scratch));
        q' := Limit(file, f.at);
      }
      if |pieces| > 1 {
        LaterTypes(pieces[1..], data[|pieces[0].data|..]);
      }
      q' := RestOfLost(sum, file, bad, q', next, pieces[1..]);
    } else {
      NotBehind(bad, f.at);
      SyncedWhole(sum, file, bad, q, pos, f);
      SyncedInside(file, bad, q, pos);
      ReadOnMore(sum, file, q, Scratch(begin, scratch));
      if |pieces| == 1 {
        q' := next;
        assert begin ==> scratch + data == data;
        NothingPlaced(next);
        NothingLost(file, bad);
      } else {
        var more := scratch + f.data;
        assert begin ==> more == f.data;
        q' := WholeOrLost(sum, file, bad, next, next, pieces[1..], data[|f.data|..], false, more);
        assert more + data[|f.data|..] == scratch + data;
      }
    }
  }

  lemma GivenUp(bad: set<nat>, at: nat)
    requires Past(bad, at) || at in bad
    ensures Behind(bad, at) && bad != {}
  {
  }

  lemma NothingLost(file: Bytes, bad: set<nat>)
    ensures !Lost([], bad) && !SomeNoticed(file, bad, [])
  {
  }

  // ------------------------------------------------------------------------ whole logs

  /** Fragments one behind the other, from `lo` on. */
  ghost predicate Ascending(fragments: seq<Fragment>, lo: nat)
    decreases |fragments|
  {
    fragments != [] ==> lo <= fragments[0].at && Ascending(fragments[1..], fragments[0].at + HEADER_SIZE + |fragments[0].data|)
  }

  lemma {:induction false} PlacedAscending(pos: nat, pieces: seq<Piece>, later: seq<Fragment>)
    requires Ascending(later, EndOf(pos, pieces))
    ensures Ascending(Placed(pos, pieces) + later, pos)
    decreases |pieces|
  {
    hide Ascending;
    if pieces == [] {
      assert [] + later == later;
    } else {
      var f, next := Fragment(pos + pieces[0].pad, pieces[0].t, pieces[0].data), Next(pos, pieces[0]);
      PlacedAscending(next, pieces[1..], later);
      AscendingCons(f, Placed(next, pieces[1..]) + later, pos);
      ConcatAssoc([f], Placed(next, pieces[1..]), later);
    }
  }

  lemma AscendingCons(f: Fragment, rest: seq<Fragment>, lo: nat)
    requires Ascending(rest, f.at + HEADER_SIZE + |f.data|) && lo <= f.at
    ensures Ascending([f] + rest, lo)
  {
    assert ([f] + rest)[1..] == rest;
  }

  lemma {:induction false} FragmentsAscending(pos: nat, records: seq<Bytes>)
    ensures Ascending(Fragments(pos, records), pos)
    decreases |records|
  {
    if records != [] {
      FragmentsAscending(EndOfRecord(pos, records[0]), records[1..]);
      PlacedAscending(pos, Cut(pos, records[0], true), Fragments(EndOfRecord(pos, records[0]), records[1..]));
    }
  }

  lemma {:induction false} AscendingApart(fragments: seq<Fragment>, lo: nat)
    requires Ascending(fragments, lo)
    ensures forall f :: f in fragments ==> lo <= f.at
    ensures forall f, g :: f in fragments && g in fragments ==> g.at <= f.at || f.at + HEADER_SIZE + |f.data| <= g.at
    decreases |fragments|
  {
    if fragments != [] {
      AscendingApart(fragments[1..], fragments[0].at + HEADER_SIZE + |fragments[0].data|);
    }
  }

  /** The bad headers are headers. */
  ghost predicate HeadersOf(bad: set<nat>, fragments: seq<Fragment>) {
    forall b :: b in bad ==> exists f :: f in fragments && f.at == b
  }

  lemma {:induction false} ReadDamaged(sum: Checksum, file: Bytes, bad: set<nat>, q: nat, pos: nat, records: seq<Bytes>)
    returns (q': nat)
    requires sum.Sound() && Synced(file, bad, q, pos)
    requires Damaged(sum, file, Fragments(pos, records), bad)
    requires forall f :: f in Fragments(pos, records) ==> Apart(bad, f)
    ensures Synced(file, bad, q', LogEnd(pos, records))
    ensures Leads(sum, file, q, None, Intact(pos, records, bad), q', bad == {}, SomeNoticed(file, bad, Fragments(pos, records)))
    decreases |records|
  {
    hide Synced, Apart, Past, Noticed, ReadRest, Placed, PhysicalRecord, Lost, Unreadable, Cut;
    q' := q;
    if records != [] {
      var pieces := Cut(pos, records[0], true);
      CutLaid(pos, records[0], true);
      CutSpells(pos, records[0], true);
      var next := EndOfRecord(pos, records[0]);
      var q1 := WholeOrLost(sum, file, bad, q, pos, pieces, records[0], true, []);
      assert [] + records[0] == records[0];
      q' := ReadDamaged(sum, file, bad, q1, next, records[1..]);
      LeadsOn(sum, file, q, None, if Lost(Placed(pos, pieces), bad) then [] else [records[0]], q1,
              Intact(next, records[1..], bad), q', bad == {},
              SomeNoticed(file, bad, Placed(pos, pieces)), SomeNoticed(file, bad, Fragments(next, records[1..])));
    }
  }

  lemma LeadsOn(sum: Checksum, file: Bytes, q: nat, partial: Option<Bytes>, a: seq<Bytes>, q1: nat, b: seq<Bytes>, q2: nat,
                clean: bool, noticed: bool, noticed': bool)
    requires Leads(sum, file, q, partial, a, q1, clean, noticed) && Leads(sum, file, q1, None, b, q2, clean, noticed')
    ensures Leads(sum, file, q, partial, a + b, q2, clean, noticed || noticed')
  {
    hide ReadRest;
    ConcatAssoc(a, b, ReadRest(sum, file, q2, None).0);
  }

  /** Behind the last fragment there is nothing to read. */
  lemma ReadPastEnd(sum: Checksum, file: Bytes, bad: set<nat>, q: nat, end: nat)
    requires Synced(file, bad, q, end) && |file| <= end
    ensures ReadRest(sum, file, q, None) == ([], 0)
  {
    assert ReadPhysical(sum, file, q) == Physical(EOF, [], |file|, 0);
    ReadOnMore(sum, file, q, None);
  }

  lemma {:induction false} FragmentsSnoc(pos: nat, records: seq<Bytes>, record: Bytes)
    ensures Fragments(pos, records + [record]) == Fragments(pos, records) + FragmentsOf(LogEnd(pos, records), record)
    ensures LogEnd(pos, records + [record]) == EndOfRecord(LogEnd(pos, records), record)
    decreases |records|
  {
    var all := records + [record];
    if records == [] {
      assert all[1..] == [];
      assert FragmentsOf(pos, record) + [] == FragmentsOf(pos, record) == [] + FragmentsOf(pos, record);
    } else {
      FragmentsSnoc(EndOfRecord(pos, records[0]), records[1..], record);
      assert all[1..] == records[1..] + [record];
    }
  }

  /** Whole pieces stand where they are placed. */
  lemma {:induction false} PiecesStand(sum: Checksum, file: Bytes, pos: nat, pieces: seq<Piece>)
    requires Laid(pos, pieces) && Holds(file, pos, Flat(Renderer(sum), pieces))
    ensures Damaged(sum, file, Placed(pos, pieces), {})
    decreases |pieces|
  {
    hide PhysicalRecord;
    if pieces != [] {
      var p := pieces[0];
      HoldsSplit(file, pos, Renderer(sum)(p), Flat(Renderer(sum), pieces[1..]));
      HoldsSplit(file, pos, Zeros(p.pad), PhysicalRecord(sum, p.t, p.data));
      PiecesStand(sum, file, Next(pos, p), pieces[1..]);
    }
  }

  lemma StillDamaged(sum: Checksum, whole: Bytes, file: Bytes, fragments: seq<Fragment>)
    requires Damaged(sum, whole, fragments, {}) && whole <= file
    ensures Damaged(sum, file, fragments, {})
  {
    hide PhysicalRecord;
    forall f | f in fragments ensures Holds(file, f.at, PhysicalRecord(sum, f.t, f.data)) {
      HoldsOn(whole, file, f.at, PhysicalRecord(sum, f.t, f.data));
    }
  }

  /** In the file that AddRecord wrote every fragment stands. */
  lemma {:induction false} WrittenStands(sum: Checksum, records: seq<Bytes>)
    ensures LogEnd(0, records) == |Written(sum, records)|
    ensures Damaged(sum, Written(sum, records), Fragments(0, records), {})
    decreases |records|
  {
    hide PhysicalRecord, Cut;
    if records != [] {
      var init, last := records[..|records| - 1], records[|records| - 1];
      assert records == init + [last];
      WrittenStands(sum, init);
      var before, pieces := Written(sum, init), Cut(|Written(sum, init)|, last, true);
      FragmentsSnoc(0, init, last);
      EndOfPieces(sum, |before|, pieces);
      StillDamaged(sum, before, Written(sum, records), Fragments(0, init));
      CutLaid(|before|, last, true);
      PrefixHolds(Written(sum, records), before, Flat(Renderer(sum), pieces));
      PiecesStand(sum, Written(sum, records), |before|, pieces);
    }
  }

  /** A log whose bytes were changed or cut off anywhere, as long as each fragment still
      stands or is unreadable: exactly the records come back, in order, of which no fragment
      is bad or behind a bad one in its block.  The damage is reported, unless the file just
      ends or the header is zeroed. */
  lemma DamagedLogReadsBack(sum: Checksum, records: seq<Bytes>, file: Bytes, bad: set<nat>)
    requires sum.Sound() && |file| <= |Written(sum, records)|
    requires HeadersOf(bad, Fragments(0, records)) && Damaged(sum, file, Fragments(0, records), bad)
    ensures ReadAll(sum, file).0 == Intact(0, records, bad)
    ensures ReadAll(sum, file).1 >= 0 && (bad == {} ==> ReadAll(sum, file).1 == 0)
    ensures SomeNoticed(file, bad, Fragments(0, records)) ==> ReadAll(sum, file).1 > 0
  {
    hide Written, Damaged, Intact, SomeNoticed, ReadRest;
    FragmentsAscending(0, records);
    AscendingApart(Fragments(0, records), 0);
    forall f | f in Fragments(0, records) ensures Apart(bad, f) {
    }
    WrittenStands(sum, records);
    var q := ReadDamaged(sum, file, bad, 0, 0, records);
    ReadPastEnd(sum, file, bad, q, LogEnd(0, records));
    ReadRestIsAll(sum, file);
  }

  lemma ReadRestIsAll(sum: Checksum, file: Bytes)
    ensures ReadRest(sum, file, 0, None) == ReadAll(sum, file)
  {
  }

  /** The first bad header of a block is noticed. */
  lemma {:induction false} FirstBad(bad: set<nat>, b: nat) returns (first: nat)
    requires b in bad
    ensures first in bad && !Past(bad, first)
    decreases b
  {
    first := b;
    if Past(bad, b) {
      var sooner :| sooner in bad && sooner < b && SameBlock(sooner, b);
      first := FirstBad(bad, sooner);
    }
  }

  lemma {:induction false} IntactIsShorter(pos: nat, records: seq<Bytes>, bad: set<nat>)
    ensures |Intact(pos, records, bad)| <= |records|
    ensures bad == {} ==> Intact(pos, records, bad) == records
    ensures (exists f :: f in Fragments(pos, records) && f.at in bad) ==> |Intact(pos, records, bad)| < |records|
    decreases |records|
  {
    hide FragmentsOf;
    if records != [] {
      IntactIsShorter(EndOfRecord(pos, records[0]), records[1..], bad);
      forall f | f in FragmentsOf(pos, records[0]) && f.at in bad ensures Lost(FragmentsOf(pos, records[0]), bad) {
        assert Behind(bad, f.at);
      }
    }
  }

  /** Changed bytes cost records, and are reported, exactly if some fragment is bad. */
  lemma DamageIsReported(sum: Checksum, records: seq<Bytes>, file: Bytes, bad: set<nat>)
    requires sum.Sound() && |file| <= |Written(sum, records)|
    requires HeadersOf(bad, Fragments(0, records)) && Damaged(sum, file, Fragments(0, records), bad)
    requires forall b :: b in bad ==> Noticeable(file, b)
    ensures if bad == {} then ReadAll(sum, file) == (records, 0)
            else |ReadAll(sum, file).0| < |records| && ReadAll(sum, file).1 > 0
  {
    hide Written, Damaged, Intact, Noticeable;
    DamagedLogReadsBack(sum, records, file, bad);
    IntactIsShorter(0, records, bad);
    if b :| b in bad {
      var first := FirstBad(bad, b);
      assert Noticed(file, bad, first);
    }
  }
}
