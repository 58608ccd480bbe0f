/** Every run of the store: writes, snapshots, memtable flushes, trivial moves and
    compactions, with flushes installed while a compaction is under way.

    The invariant says that the levels stay ordered and that every live snapshot reads
    what the full history of writes says it should. */
module Lsm {
  import opened Wrappers
  import opened DbFormat
  import opened Tables
  import opened VersionedMap
  import opened Version
  import opened PointRead
  import opened CompactionInputs
  import Compaction

  /** A compaction between PickCompaction and InstallCompactionResults.  `deeper` is what
      IsBaseLevelForKey sees: the levels >= level + 2 of the input version. */
  datatype Job = Job(level: nat, in0: set<File>, in1: set<File>, smallest: Sequence, deeper: seq<seq<File>>) {
    ghost function Inputs(): set<File> { in0 + in1 }
  }

  /** The database.  `history` holds every entry ever written and `horizon` the largest
      `smallest_snapshot` of any finished compaction; neither exists in the program. */
  datatype Db = Db(history: set<Entry>, mem: set<Entry>, imm: set<Entry>, levels: Levels,
                   lastSequence: Sequence, snapshots: multiset<Sequence>, nextFile: nat,
                   horizon: Sequence, job: Option<Job>) {
    ghost function Stored(): set<Entry> { mem + imm + AllEntries(levels) }

    /** Sequence numbers a reader can hold: the live snapshots and anything from the last
        sequence number on. */
    ghost predicate Readable(s: Sequence) { s in snapshots || s >= lastSequence }
  }

  // ------------------------------------------------------------------------ steps

  /** `VersionSet::Builder`: a level after an edit, sorted by smallest key and number. */
  ghost predicate Edited(before: seq<File>, removed: set<File>, added: set<File>, after: seq<File>) {
    && (forall f :: f in after <==> (f in before && f !in removed) || f in added)
    && BySmallestKey(after)
  }

  ghost predicate BySmallestKey(files: seq<File>) {
    forall i, j :: 0 <= i < j < |files| ==> files[i] != files[j] && !Precedes(files[j].Smallest(), files[i].Smallest())
  }

  ghost predicate Init(d: Db) {
    && d.history == d.mem == d.imm == {}
    && (forall l :: 0 <= l < NUM_LEVELS ==> d.levels[l] == [])
    && d.snapshots == multiset{} && d.job == None && d.horizon <= d.lastSequence
    && d.lastSequence < MAX_SEQUENCE
  }

  /** A group of updates enters the memtable under fresh sequence numbers. */
  ghost predicate Write(d: Db, d': Db, batch: set<Entry>) {
    && (forall e :: e in batch ==> d.lastSequence < e.seqno <= d'.lastSequence && e.Parses())
    && Functional(batch)
    && d.lastSequence <= d'.lastSequence < MAX_SEQUENCE
    && d' == d.(history := d.history + batch, mem := d.mem + batch, lastSequence := d'.lastSequence)
  }

  ghost predicate TakeSnapshot(d: Db, d': Db) {
    d' == d.(snapshots := d.snapshots + multiset{d.lastSequence})
  }

  ghost predicate ReleaseSnapshot(d: Db, d': Db, s: Sequence) {
    d' == d.(snapshots := d.snapshots - multiset{s})
  }

  ghost predicate SwitchMemTable(d: Db, d': Db) {
    d.imm == {} && d' == d.(imm := d.mem, mem := {})
  }

  /** Where a new table may go (PickLevelForMemTableOutput). */
  ghost predicate FlushLevel(levels: Levels, f: File, level: nat) {
    && level <= MAX_MEM_COMPACT_LEVEL
    && (level > 0 ==> forall l, g :: 0 <= l <= level && g in levels[l] ==> !g.Overlaps(f.Smallest().key, f.Largest().key))
  }

  ghost predicate Flush(d: Db, d': Db, f: File, level: nat) {
    && Elems(f.entries) == d.imm
    && f.number == d.nextFile
    && FlushLevel(d.levels, f, level)
    && Edited(d.levels[level], {}, {f}, d'.levels[level])
    && d' == d.(imm := {}, levels := d.levels[level := d'.levels[level]], nextFile := d.nextFile + 1)
  }

  /** No user key is split between the selected files and the rest of their level. */
  ghost predicate NoSplitKey(files: seq<File>, selected: set<File>) {
    forall f, g :: f in files && f !in selected && g in selected ==> DisjointKeys(f, g)
  }

  ghost predicate DisjointKeys(f: File, g: File) {
    forall a, b :: a in f.entries && b in g.entries ==> a.key != b.key
  }

  /** `smallest_snapshot`: the oldest live snapshot, or the last sequence number. */
  ghost predicate SmallestSnapshot(d: Db, s: Sequence) {
    && (if d.snapshots == multiset{} then s == d.lastSequence else s in d.snapshots)
    && forall t :: t in d.snapshots ==> s <= t
  }

  /** The inputs of a compaction, under the hypothesis that no user key is split at a
      boundary of the selection, which the range tests do not establish. */
  ghost predicate StartsAs(d: Db, j: Job) {
    && d.job == None
    && LegalInputs(d.levels, j.level, j.in0, j.in1)
    && (j.level > 0 ==> NoSplitKey(d.levels[j.level], j.in0))
    && NoSplitKey(d.levels[j.level + 1], j.in1)
    && SmallestSnapshot(d, j.smallest)
    && j.deeper == d.levels[j.level + 2..]
  }

  ghost predicate StartCompaction(d: Db, d': Db, j: Job) {
    StartsAs(d, j) && Gapless(j.Inputs()) && d' == d.(job := Some(j))
  }

  ghost function Concat(files: seq<File>): seq<Entry> {
    if files == [] then [] else Concat(files[..|files| - 1]) + files[|files| - 1].entries
  }

  /** The merged input of a job and its output files: the survivors, cut anywhere. */
  ghost predicate Produces(j: Job, input: seq<Entry>, outs: seq<File>) {
    && Compaction.DeeperLevels(j.deeper)
    && Sorted(input) && Elems(input) == Contents(j.Inputs())
    && Concat(outs) == Compaction.Kept(input, |input|, j.smallest, j.deeper)
  }

  ghost predicate InstallCompaction(d: Db, d': Db, input: seq<Entry>, outs: seq<File>) {
    && d.job.Some?
    && var j := d.job.value;
    && Produces(j, input, outs)
    && (forall o :: o in outs ==> o.number < d'.nextFile)
    && d.nextFile <= d'.nextFile
    && Installs(d.levels, j.level, j.in0, j.in1, Files(outs), d'.levels)
    && d' == d.(levels := d'.levels, nextFile := d'.nextFile, job := None,
                horizon := if d.horizon < j.smallest then j.smallest else d.horizon)
  }

  /** Level `level` loses `in0`; level `level + 1` exchanges `in1` for `outs`. */
  ghost predicate Installs(levels: Levels, level: nat, in0: set<File>, in1: set<File>, outs: set<File>,
                           levels': Levels) {
    && level + 1 < NUM_LEVELS
    && Edited(levels[level], in0, {}, levels'[level])
    && Edited(levels[level + 1], in1, outs, levels'[level + 1])
    && levels' == levels[level := levels'[level]][level + 1 := levels'[level + 1]]
  }

  /** A single input with nothing to merge with moves down as it is. */
  ghost predicate TrivialMove(d: Db, d': Db, j: Job, f: File) {
    && StartsAs(d, j) && j.in0 == {f} && j.in1 == {}
    && Installs(d.levels, j.level, {f}, {}, {f}, d'.levels)
    && d' == d.(levels := d'.levels)
  }

  /** A manual compaction may leave gaps between its inputs; it runs without a flush in
      between. */
  ghost predicate ManualCompaction(d: Db, d': Db, j: Job, input: seq<Entry>, outs: seq<File>) {
    StartsAs(d, j) && InstallCompaction(d.(job := Some(j)), d', input, outs)
  }

  datatype Step =
    | WriteStep(batch: set<Entry>)
    | TakeSnapshotStep
    | ReleaseSnapshotStep(s: Sequence)
    | SwitchMemTableStep
    | FlushStep(f: File, level: nat)
    | StartCompactionStep(job: Job)
    | InstallCompactionStep(input: seq<Entry>, outs: seq<File>)
    | TrivialMoveStep(job: Job, f: File)
    | ManualCompactionStep(job: Job, input: seq<Entry>, outs: seq<File>)

  ghost predicate Next(d: Db, d': Db, step: Step) {
    match step
    case WriteStep(batch) => Write(d, d', batch)
    case TakeSnapshotStep => TakeSnapshot(d, d')
    case ReleaseSnapshotStep(s) => ReleaseSnapshot(d, d', s)
    case SwitchMemTableStep => SwitchMemTable(d, d')
    case FlushStep(f, level) => Flush(d, d', f, level)
    case StartCompactionStep(j) => StartCompaction(d, d', j)
    case InstallCompactionStep(input, outs) => InstallCompaction(d, d', input, outs)
    case TrivialMoveStep(j, f) => TrivialMove(d, d', j, f)
    case ManualCompactionStep(j, input, outs) => ManualCompaction(d, d', j, input, outs)
  }

  // -------------------------------------------------------------------- invariant

  ghost predicate Above(f: File, g: File) {
    NewerThan(Elems(f.entries), Elems(g.entries))
  }

  /** All entries of the inputs precede `g`, or all follow it. */
  ghost predicate Aside(g: File, inputs: set<File>) {
    || (forall f :: f in inputs ==> Precedes(f.Largest(), g.Smallest()))
    || (forall f :: f in inputs ==> Precedes(g.Largest(), f.Smallest()))
  }

  ghost predicate InputsPresent(levels: Levels, j: Job) {
    && j.level + 1 < NUM_LEVELS
    && (forall f :: f in j.in0 ==> f in levels[j.level])
    && (forall f :: f in j.in1 ==> f in levels[j.level + 1])
  }

  /** The unselected files of the two levels: newer than the inputs of their own level,
      and strangers to all inputs on the output level. */
  ghost predicate SiblingsOk(levels: Levels, j: Job)
    requires InputsPresent(levels, j)
  {
    && (forall f, g :: f in levels[j.level] && f !in j.in0 && g in j.in0 ==> Above(f, g))
    && (forall f, g :: f in levels[j.level + 1] && f !in j.in1 && g in j.Inputs() ==> DisjointKeys(f, g))
    && (forall f :: f in levels[j.level + 1] && f !in j.in1 ==> Aside(f, j.Inputs()))
  }

  /** Where `f` and `g` share a user key, the base-level test says so. */
  ghost predicate KnownBelow(deeper: seq<seq<File>>, f: File, g: File)
    requires Compaction.DeeperLevels(deeper)
  {
    forall a, b :: a in f.entries && b in g.entries && a.key == b.key ==> !Compaction.IsBaseLevel(deeper, b.key)
  }

  ghost predicate DeeperOk(levels: Levels, j: Job) {
    && Compaction.DeeperLevels(j.deeper)
    && (forall i, f, g :: j.level + 2 <= i < NUM_LEVELS && f in levels[i] && g in j.Inputs() ==> KnownBelow(j.deeper, f, g))
  }

  /** What a running compaction relies on, whatever is flushed meanwhile. */
  ghost predicate JobOk(d: Db, j: Job) {
    && InputsPresent(d.levels, j)
    && SiblingsOk(d.levels, j)
    && DeeperOk(d.levels, j)
    && j.smallest <= d.lastSequence
    && (forall t :: t in d.snapshots ==> j.smallest <= t)
  }

  ghost predicate ReadsAgree(A: set<Entry>, B: set<Entry>, horizon: Sequence) {
    forall k: UserKey, s: Sequence :: s >= horizon ==> Read(A, k, s) == Read(B, k, s)
  }

  ghost predicate Core(d: Db) {
    && LevelOrder(d.levels)
    && (forall l, f :: 0 <= l < NUM_LEVELS && f in d.levels[l] ==> f.number < d.nextFile)
    && d.Stored() <= d.history && Functional(d.history) && Compaction.AllParse(d.history)
    && (forall e :: e in d.history ==> e.seqno <= d.lastSequence)
    && NewerThan(d.mem, d.imm + AllEntries(d.levels)) && NewerThan(d.imm, AllEntries(d.levels))
    && d.lastSequence < MAX_SEQUENCE
    && d.horizon <= d.lastSequence && (forall t :: t in d.snapshots ==> d.horizon <= t <= d.lastSequence)
    && ReadsAgree(d.Stored(), d.history, d.horizon)
  }

  ghost predicate Inv(d: Db) {
    && Core(d)
    && (d.job.Some? ==> JobOk(d, d.job.value) && Gapless(d.job.value.Inputs()))
  }
}
