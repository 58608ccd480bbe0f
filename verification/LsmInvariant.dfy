/** The invariant of Lsm is kept by every step, so every run reads like its history. */
module LsmInvariant {
  import opened Wrappers
  import opened DbFormat
  import opened Tables
  import opened VersionedMap
  import opened Version
  import opened PointRead
  import opened CompactionInputs
  import opened Lsm
  import Compaction

  // ---------------------------------------------------------------- level order

  ghost predicate Apart(f: File, g: File) {
    Precedes(f.Largest(), g.Smallest()) || Precedes(g.Largest(), f.Smallest())
  }

  lemma DisjointApart(files: seq<File>, f: File, g: File)
    requires Disjoint(files) && f in files && g in files && f != g
    ensures Apart(f, g)
  {
    var i :| 0 <= i < |files| && files[i] == f;
    var j :| 0 <= j < |files| && files[j] == g;
    if i < j {
      assert Precedes(files[i].Largest(), files[j].Smallest());
    } else {
      assert Precedes(files[j].Largest(), files[i].Smallest());
    }
  }

  /** Sorting by smallest key turns pairwise disjoint files into a disjoint level. */
  lemma ApartSortedDisjoint(files: seq<File>)
    requires BySmallestKey(files)
    requires forall f, g :: f in files && g in files && f != g ==> Apart(f, g)
    ensures Disjoint(files)
  {
    forall i, j | 0 <= i < j < |files| ensures Precedes(files[i].Largest(), files[j].Smallest()) {
      var f, g := files[i], files[j];
      assert Apart(f, g);
      FileBounds(f, f.Largest());
      FileBounds(g, g.Largest());
    }
  }

  lemma AboveByLevel(levels: Levels, i: nat, j: nat, f: File, g: File)
    requires LevelOrder(levels) && i < j < NUM_LEVELS && f in levels[i] && g in levels[j]
    ensures Above(f, g)
  {
    assert NewerThan(LevelEntries(levels[i]), LevelEntries(levels[j]));
    forall a, b | a in Elems(f.entries) && b in Elems(g.entries) && a.key == b.key ensures a.seqno > b.seqno {
      assert a in LevelEntries(levels[i]) && b in LevelEntries(levels[j]);
    }
  }

  /** Level order, file by file. */
  lemma LevelOrderFromFiles(levels: Levels)
    requires forall l :: 1 <= l < NUM_LEVELS ==> Disjoint(levels[l])
    requires forall f, g :: f in levels[0] && g in levels[0] && f.number > g.number ==> Above(f, g)
    requires forall f, g :: f in levels[0] && g in levels[0] && f.number == g.number ==> f == g
    requires forall i, j, f, g :: 0 <= i < j < NUM_LEVELS && f in levels[i] && g in levels[j] ==> Above(f, g)
    ensures LevelOrder(levels)
  {
    forall i, j | 0 <= i < j < NUM_LEVELS ensures NewerThan(LevelEntries(levels[i]), LevelEntries(levels[j])) {
      forall a, b | a in LevelEntries(levels[i]) && b in LevelEntries(levels[j]) && a.key == b.key ensures a.seqno > b.seqno {
        var f :| f in levels[i] && a in f.entries;
        var g :| g in levels[j] && b in g.entries;
        assert Above(f, g);
        assert a in Elems(f.entries) && b in Elems(g.entries);
      }
    }
  }

  lemma InLevel(levels: Levels, l: nat, f: File)
    requires l < NUM_LEVELS && f in levels[l]
    ensures Elems(f.entries) <= LevelEntries(levels[l]) <= AllEntries(levels)
  {
  }

  // ----------------------------------------------------------------------- flush

  lemma FlushKeepsLevelOrder(d: Db, d': Db, f: File, level: nat)
    requires Inv(d) && Flush(d, d', f, level)
    ensures LevelOrder(d'.levels)
    ensures forall l, g :: 0 <= l < NUM_LEVELS ==> (g in d'.levels[l] <==> g in d.levels[l] || (l == level && g == f))
  {
    forall l, g | 0 <= l < NUM_LEVELS && g in d.levels[l] ensures Above(f, g) {
      InLevel(d.levels, l, g);
    }
    forall l | 1 <= l < NUM_LEVELS ensures Disjoint(d'.levels[l]) {
      if l == level {
        FlushedDisjoint(d, d', f, l);
      }
    }
    forall i, j, g, h | 0 <= i < j < NUM_LEVELS && g in d'.levels[i] && h in d'.levels[j] ensures Above(g, h) {
      FlushedAbove(d, d', f, level, i, j, g, h);
    }
    LevelOrderFromFiles(d'.levels);
  }

  lemma FlushedAbove(d: Db, d': Db, f: File, level: nat, i: nat, j: nat, g: File, h: File)
    requires Inv(d) && Flush(d, d', f, level) && i < j < NUM_LEVELS && g in d'.levels[i] && h in d'.levels[j]
    ensures Above(g, h)
  {
    if g in d.levels[i] && h in d.levels[j] {
      AboveByLevel(d.levels, i, j, g, h);
    } else if j == level && h == f {
      NoOverlapAbove(g, f);
    } else {
      InLevel(d.levels, j, h);
    }
  }

  lemma FlushedDisjoint(d: Db, d': Db, f: File, level: nat)
    requires Inv(d) && Flush(d, d', f, level) && level >= 1
    ensures Disjoint(d'.levels[level])
  {
    forall g, h | g in d'.levels[level] && h in d'.levels[level] && g != h ensures Apart(g, h) {
      if g in d.levels[level] && h in d.levels[level] {
        DisjointApart(d.levels[level], g, h);
      } else {
        NoOverlapApart(if g == f then h else g, f);
      }
    }
    ApartSortedDisjoint(d'.levels[level]);
  }

  lemma NoOverlapApart(g: File, f: File)
    requires !g.Overlaps(f.Smallest().key, f.Largest().key)
    ensures Apart(f, g) && Apart(g, f)
  {
  }

  /** Files whose user-key ranges do not meet share no user key. */
  lemma NoOverlapAbove(g: File, f: File)
    requires !g.Overlaps(f.Smallest().key, f.Largest().key)
    ensures Above(g, f) && Above(f, g) && DisjointKeys(f, g) && DisjointKeys(g, f)
  {
    forall a, b | a in g.entries && b in f.entries ensures a.key != b.key {
      FileBounds(g, a);
      FileBounds(f, b);
    }
  }

  lemma FlushEntries(d: Db, d': Db, f: File, level: nat)
    requires Inv(d) && Flush(d, d', f, level)
    ensures AllEntries(d'.levels) == AllEntries(d.levels) + d.imm
  {
    FlushKeepsLevelOrder(d, d', f, level);
    forall e ensures e in AllEntries(d'.levels) <==> e in AllEntries(d.levels) + d.imm {
      if e in AllEntries(d'.levels) {
        var l :| 0 <= l < NUM_LEVELS && e in LevelEntries(d'.levels[l]);
        var g :| g in d'.levels[l] && e in g.entries;
        if g in d.levels[l] { InLevel(d.levels, l, g); assert e in Elems(g.entries); }
      }
      if e in AllEntries(d.levels) {
        var l :| 0 <= l < NUM_LEVELS && e in LevelEntries(d.levels[l]);
        var g :| g in d.levels[l] && e in g.entries;
        InLevel(d'.levels, l, g);
        assert e in Elems(g.entries);
      }
      if e in d.imm {
        InLevel(d'.levels, level, f);
        assert e in Elems(f.entries);
      }
    }
  }

  /** A table that meets no input lies beside all of them, since they leave no gap. */
  lemma BesideGapless(f: File, S: set<File>)
    requires Gapless(S)
    requires forall g :: g in S ==> !g.Overlaps(f.Smallest().key, f.Largest().key)
    ensures Aside(f, S)
  {
    FileBounds(f, f.Largest());
    assert !CoveredBy(S, f.Smallest().key);
    if a :| a in S && !Precedes(a.Largest(), f.Smallest()) {
      forall b | b in S ensures Precedes(f.Largest(), b.Smallest()) {
        FileBounds(b, b.Largest());
        assert b.Largest().key < f.Smallest().key ==> Between(f.Smallest().key, b, a);
      }
    }
  }

  /** The flushed table is newer than every file, and shares no user key with the files
      of the levels it passed. */
  lemma FlushedVersusFile(levels: Levels, f: File, level: nat, l: nat, g: File)
    requires NewerThan(Elems(f.entries), AllEntries(levels)) && FlushLevel(levels, f, level)
    requires l < NUM_LEVELS && g in levels[l]
    ensures Above(f, g)
    ensures level > 0 && l <= level ==> DisjointKeys(f, g) && !g.Overlaps(f.Smallest().key, f.Largest().key)
  {
    InLevel(levels, l, g);
    if level > 0 && l <= level {
      NoOverlapAbove(g, f);
    }
  }

  /** The levels of `d'` are those of `d` plus `f` on `level`. */
  ghost predicate Added(d: Db, d': Db, f: File, level: nat) {
    && d' == d.(imm := d'.imm, levels := d'.levels, nextFile := d'.nextFile)
    && (forall l, g :: 0 <= l < NUM_LEVELS ==> (g in d'.levels[l] <==> g in d.levels[l] || (l == level && g == f)))
    && NewerThan(Elems(f.entries), AllEntries(d.levels)) && FlushLevel(d.levels, f, level)
  }

  lemma FlushKeepsSiblings(d: Db, d': Db, f: File, level: nat, j: Job)
    requires Added(d, d', f, level) && InputsPresent(d.levels, j) && SiblingsOk(d.levels, j) && Gapless(j.Inputs())
    ensures InputsPresent(d'.levels, j) && SiblingsOk(d'.levels, j)
  {
    forall h | h in j.Inputs() ensures Above(f, h) && (level > j.level ==> DisjointKeys(f, h) && !h.Overlaps(f.Smallest().key, f.Largest().key)) {
      FlushedVersusFile(d.levels, f, level, if h in j.in0 then j.level else j.level + 1, h);
    }
    if level == j.level + 1 {
      BesideGapless(f, j.Inputs());
    }
  }

  lemma FlushKeepsBaseLevel(d: Db, d': Db, f: File, level: nat, j: Job, i: nat, g: File, h: File)
    requires Added(d, d', f, level) && InputsPresent(d.levels, j) && DeeperOk(d.levels, j)
    requires j.level + 2 <= i < NUM_LEVELS && g in d'.levels[i] && h in j.Inputs()
    ensures KnownBelow(j.deeper, g, h)
  {
    if g !in d.levels[i] {
      FlushedVersusFile(d.levels, f, level, if h in j.in0 then j.level else j.level + 1, h);
    }
  }

  lemma FlushKeepsJob(d: Db, d': Db, f: File, level: nat, j: Job)
    requires Added(d, d', f, level) && JobOk(d, j) && Gapless(j.Inputs())
    ensures JobOk(d', j)
  {
    FlushKeepsSiblings(d, d', f, level, j);
    forall i, g, h | j.level + 2 <= i < NUM_LEVELS && g in d'.levels[i] && h in j.Inputs() ensures KnownBelow(j.deeper, g, h) {
      FlushKeepsBaseLevel(d, d', f, level, j, i, g, h);
    }
  }

  lemma FlushKeepsInv(d: Db, d': Db, f: File, level: nat)
    requires Inv(d) && Flush(d, d', f, level)
    ensures Inv(d')
  {
    FlushKeepsLevelOrder(d, d', f, level);
    FlushEntries(d, d', f, level);
    if d.job.Some? {
      FlushKeepsJob(d, d', f, level, d.job.value);
    }
    assert d'.Stored() == d.Stored();
  }

  // ------------------------------------------------------------ starting a job

  /** Outside the hull of `in0` means no shared user key with any of its files. */
  lemma OutsideHull(g: File, in0: set<File>, h: File)
    requires !MeetsHull(g, in0) && h in in0
    ensures !g.Overlaps(h.Smallest().key, h.Largest().key)
    ensures DisjointKeys(g, h) && Apart(g, h)
  {
    assert !g.Overlaps(h.Smallest().key, h.Largest().key);
    NoOverlapAbove(g, h);
    NoOverlapApart(g, h);
  }

  /** An unselected file of the output level lies beside all inputs. */
  lemma UnselectedAside(levels: Levels, level: nat, in0: set<File>, in1: set<File>, g: File)
    requires LevelOrder(levels) && LegalInputs(levels, level, in0, in1)
    requires g in levels[level + 1] && g !in in1
    ensures Aside(g, in0 + in1)
  {
    var a :| a in in0;
    FileBounds(a, a.Largest());
    FileBounds(g, g.Largest());
    OutsideHull(g, in0, a);
    if g.Smallest().key > a.Largest().key {
      forall f | f in in0 + in1 ensures Precedes(f.Largest(), g.Smallest()) {
        FileBounds(f, f.Largest());
        if f in in0 {
          assert !g.Overlaps(a.Smallest().key, f.Largest().key);
        } else {
          var p, q :| p in in0 && q in in0 && f.Overlaps(p.Smallest().key, q.Largest().key);
          assert !g.Overlaps(a.Smallest().key, q.Largest().key);
          DisjointApart(levels[level + 1], f, g);
        }
      }
    } else {
      forall f | f in in0 + in1 ensures Precedes(g.Largest(), f.Smallest()) {
        FileBounds(f, f.Largest());
        if f in in0 {
          assert !g.Overlaps(f.Smallest().key, a.Largest().key);
        } else {
          var p, q :| p in in0 && q in in0 && f.Overlaps(p.Smallest().key, q.Largest().key);
          assert !g.Overlaps(p.Smallest().key, a.Largest().key);
          DisjointApart(levels[level + 1], f, g);
        }
      }
    }
  }

  lemma StartDeeper(d: Db, j: Job, i: nat, f: File, g: File)
    requires j.level + 2 <= i < NUM_LEVELS && j.deeper == d.levels[j.level + 2..] && Compaction.DeeperLevels(j.deeper)
    requires f in d.levels[i]
    ensures KnownBelow(j.deeper, f, g)
  {
    assert j.deeper[i - (j.level + 2)] == d.levels[i];
    forall a | a in f.entries ensures !Compaction.IsBaseLevel(j.deeper, a.key) {
      FileBounds(f, a);
    }
  }

  lemma StartSiblings(levels: Levels, j: Job)
    requires LegalInputs(levels, j.level, j.in0, j.in1)
    requires j.level > 0 ==> NoSplitKey(levels[j.level], j.in0)
    requires NoSplitKey(levels[j.level + 1], j.in1)
    ensures forall f, g :: f in levels[j.level] && f !in j.in0 && g in j.in0 ==> Above(f, g)
    ensures forall f, g :: f in levels[j.level + 1] && f !in j.in1 && g in j.Inputs() ==> DisjointKeys(f, g)
  {
    forall f, g | f in levels[j.level] && f !in j.in0 && g in j.in0 ensures Above(f, g) {
      if j.level == 0 {
        OutsideHull(f, j.in0, g);
      }
      assert DisjointKeys(f, g);
    }
    forall f, g | f in levels[j.level + 1] && f !in j.in1 && g in j.Inputs() ensures DisjointKeys(f, g) {
      if g in j.in0 {
        OutsideHull(f, j.in0, g);
      }
    }
  }

  lemma StartEstablishesJob(d: Db, j: Job)
    requires Inv(d) && StartsAs(d, j)
    ensures JobOk(d, j)
  {
    hide KnownBelow, Aside, Above, DisjointKeys, ReadsAgree, Functional, NewerThan, MeetsHull;
    StartSiblings(d.levels, j);
    assert Compaction.DeeperLevels(j.deeper);
    forall i, f, g | j.level + 2 <= i < NUM_LEVELS && f in d.levels[i] && g in j.Inputs() ensures KnownBelow(j.deeper, f, g) {
      StartDeeper(d, j, i, f, g);
    }
    forall f | f in d.levels[j.level + 1] && f !in j.in1 ensures Aside(f, j.Inputs()) {
      UnselectedAside(d.levels, j.level, j.in0, j.in1, f);
    }
  }

  // --------------------------------------------------------- installing outputs

  /** Output files hold nothing but entries of the inputs, in one ascending chain. */
  ghost predicate FromInputs(outs: set<File>, inputs: set<File>) {
    && (forall o, e :: o in outs && e in o.entries ==> exists h :: h in inputs && e in h.entries)
    && (forall o, p :: o in outs && p in outs && o != p ==> Apart(o, p))
  }

  lemma OutputVersusFile(inputs: set<File>, outs: set<File>, o: File, g: File)
    requires FromInputs(outs, inputs) && o in outs
    ensures (forall h :: h in inputs ==> Above(g, h)) ==> Above(g, o)
    ensures (forall h :: h in inputs ==> Above(h, g)) ==> Above(o, g)
  {
    if forall h :: h in inputs ==> Above(g, h) {
      forall a, b | a in Elems(g.entries) && b in Elems(o.entries) && a.key == b.key ensures a.seqno > b.seqno {
        var h :| h in inputs && b in h.entries;
        assert Above(g, h) && b in Elems(h.entries);
      }
    }
    if forall h :: h in inputs ==> Above(h, g) {
      forall a, b | a in Elems(o.entries) && b in Elems(g.entries) && a.key == b.key ensures a.seqno > b.seqno {
        var h :| h in inputs && a in h.entries;
        assert Above(h, g) && a in Elems(h.entries);
      }
    }
  }

  lemma OutputAside(inputs: set<File>, outs: set<File>, o: File, g: File)
    requires FromInputs(outs, inputs) && o in outs && Aside(g, inputs)
    ensures Apart(o, g)
  {
    FileBounds(o, o.Largest());
    assert o.Largest() in o.entries && o.Smallest() in o.entries;
    var h :| h in inputs && o.Largest() in h.entries;
    var h' :| h' in inputs && o.Smallest() in h'.entries;
    FileBounds(h, o.Largest());
    FileBounds(h', o.Smallest());
  }

  ghost predicate InstallReady(d: Db, j: Job, outs: set<File>, levels': Levels) {
    && LevelOrder(d.levels) && InputsPresent(d.levels, j) && SiblingsOk(d.levels, j)
    && FromInputs(outs, j.Inputs())
    && Installs(d.levels, j.level, j.in0, j.in1, outs, levels')
  }

  /** Which files are where after the install. */
  lemma InstalledMembers(d: Db, j: Job, outs: set<File>, levels': Levels, i: nat, f: File)
    requires InstallReady(d, j, outs, levels') && i < NUM_LEVELS
    ensures f in levels'[i] <==>
      || (f in d.levels[i] && !(i == j.level && f in j.in0) && !(i == j.level + 1 && f in j.in1))
      || (i == j.level + 1 && f in outs)
  {
    assert levels'[i] == if i == j.level || i == j.level + 1 then levels'[i] else d.levels[i];
  }

  lemma InstalledDisjoint(d: Db, j: Job, outs: set<File>, levels': Levels, i: nat)
    requires InstallReady(d, j, outs, levels') && 1 <= i < NUM_LEVELS
    ensures Disjoint(levels'[i])
  {
    if i == j.level || i == j.level + 1 {
      forall f, g | f in levels'[i] && g in levels'[i] && f != g ensures Apart(f, g) {
        InstalledApart(d, j, outs, levels', i, f, g);
      }
      ApartSortedDisjoint(levels'[i]);
    }
  }

  lemma InstalledApart(d: Db, j: Job, outs: set<File>, levels': Levels, i: nat, f: File, g: File)
    requires InstallReady(d, j, outs, levels') && 1 <= i < NUM_LEVELS && (i == j.level || i == j.level + 1)
    requires f in levels'[i] && g in levels'[i] && f != g
    ensures Apart(f, g)
  {
    InstalledMembers(d, j, outs, levels', i, f);
    InstalledMembers(d, j, outs, levels', i, g);
    if f in d.levels[i] && g in d.levels[i] {
      DisjointApart(d.levels[i], f, g);
    } else if f in outs && g !in outs {
      OutputAside(j.Inputs(), outs, f, g);
    } else if g in outs && f !in outs {
      OutputAside(j.Inputs(), outs, g, f);
    }
  }

  /** Everything above an output in the levels is newer, everything below is older. */
  lemma InstalledAbove(d: Db, j: Job, outs: set<File>, levels': Levels, i: nat, k: nat, f: File, g: File)
    requires InstallReady(d, j, outs, levels') && i < k < NUM_LEVELS
    requires f in levels'[i] && g in levels'[k]
    ensures Above(f, g)
  {
    InstalledMembers(d, j, outs, levels', i, f);
    InstalledMembers(d, j, outs, levels', k, g);
    if f in d.levels[i] && g in d.levels[k] {
      AboveByLevel(d.levels, i, k, f, g);
    } else if k == j.level + 1 && g in outs {
      AboveOutputs(d, j, outs, i, f, g);
    } else {
      BelowOutputs(d, j, outs, k, f, g);
    }
  }

  /** Whatever lies above an input and is not one itself is newer than it. */
  lemma AboveInput(levels: Levels, j: Job, i: nat, f: File, h: File)
    requires LevelOrder(levels) && InputsPresent(levels, j) && SiblingsOk(levels, j)
    requires i <= j.level && f in levels[i] && (i == j.level ==> f !in j.in0) && h in j.Inputs()
    ensures Above(f, h)
  {
    if h in j.in0 {
      if i < j.level {
        AboveByLevel(levels, i, j.level, f, h);
      }
    } else {
      AboveByLevel(levels, i, j.level + 1, f, h);
    }
  }

  lemma BelowInput(levels: Levels, j: Job, i: nat, g: File, h: File)
    requires LevelOrder(levels) && InputsPresent(levels, j)
    requires j.level + 1 < i < NUM_LEVELS && g in levels[i] && h in j.Inputs()
    ensures Above(h, g)
  {
    AboveByLevel(levels, if h in j.in0 then j.level else j.level + 1, i, h, g);
  }

  lemma AboveOutputs(d: Db, j: Job, outs: set<File>, i: nat, f: File, o: File)
    requires LevelOrder(d.levels) && InputsPresent(d.levels, j) && SiblingsOk(d.levels, j) && FromInputs(outs, j.Inputs()) && o in outs
    requires i <= j.level && f in d.levels[i] && (i == j.level ==> f !in j.in0)
    ensures Above(f, o)
  {
    forall h | h in j.Inputs() ensures Above(f, h) {
      AboveInput(d.levels, j, i, f, h);
    }
    OutputVersusFile(j.Inputs(), outs, o, f);
  }

  lemma BelowOutputs(d: Db, j: Job, outs: set<File>, k: nat, o: File, g: File)
    requires LevelOrder(d.levels) && InputsPresent(d.levels, j) && FromInputs(outs, j.Inputs()) && o in outs
    requires j.level + 1 < k < NUM_LEVELS && g in d.levels[k]
    ensures Above(o, g)
  {
    forall h | h in j.Inputs() ensures Above(h, g) {
      BelowInput(d.levels, j, k, g, h);
    }
    OutputVersusFile(j.Inputs(), outs, o, g);
  }

  lemma InstallKeepsLevelOrder(d: Db, j: Job, outs: set<File>, levels': Levels)
    requires InstallReady(d, j, outs, levels')
    ensures LevelOrder(levels')
  {
    forall l | 1 <= l < NUM_LEVELS ensures Disjoint(levels'[l]) {
      InstalledDisjoint(d, j, outs, levels', l);
    }
    forall i, k, f, g | 0 <= i < k < NUM_LEVELS && f in levels'[i] && g in levels'[k] ensures Above(f, g) {
      InstalledAbove(d, j, outs, levels', i, k, f, g);
    }
    forall f | f in levels'[0] ensures f in d.levels[0] {
      InstalledMembers(d, j, outs, levels', 0, f);
    }
    LevelOrderFromFiles(levels');
  }

  // ----------------------------------------------------------- reads at install

  ghost predicate Unselected(j: Job, l: nat, f: File) {
    !(l == j.level && f in j.in0) && !(l == j.level + 1 && f in j.in1)
  }

  /** The entries of the files a job leaves alone. */
  ghost function Remaining(levels: Levels, j: Job): set<Entry> {
    set l, f, e | 0 <= l < NUM_LEVELS && f in levels[l] && Unselected(j, l, f) && e in f.entries :: e
  }

  lemma RemainingVersusInput(levels: Levels, j: Job, l: nat, f: File, a: Entry, h: File, b: Entry)
    requires LevelOrder(levels) && InputsPresent(levels, j) && SiblingsOk(levels, j) && DeeperOk(levels, j)
    requires l < NUM_LEVELS && f in levels[l] && Unselected(j, l, f)
    requires h in j.Inputs() && a in f.entries && b in h.entries && a.key == b.key
    ensures a.seqno > b.seqno || (a.seqno < b.seqno && !Compaction.IsBaseLevel(j.deeper, b.key))
  {
    if l <= j.level {
      AboveInput(levels, j, l, f, h);
    } else if l > j.level + 1 {
      BelowInput(levels, j, l, f, h);
      assert KnownBelow(j.deeper, f, h);
    } else {
      var disjoint := DisjointKeys(f, h);
    }
    var fs, hs := Elems(f.entries), Elems(h.entries);
    assert a in fs && b in hs;
  }

  ghost function Rest(d: Db, j: Job): set<Entry> {
    d.mem + d.imm + Remaining(d.levels, j)
  }

  lemma RestVersusInput(d: Db, j: Job, r: Entry, e: Entry)
    requires LevelOrder(d.levels) && InputsPresent(d.levels, j) && SiblingsOk(d.levels, j) && DeeperOk(d.levels, j)
    requires NewerThan(d.mem, AllEntries(d.levels)) && NewerThan(d.imm, AllEntries(d.levels))
    requires r in Rest(d, j) && e in Contents(j.Inputs()) && r.key == e.key
    ensures r.seqno > e.seqno || (r.seqno < e.seqno && !Compaction.IsBaseLevel(j.deeper, e.key))
  {
    var h :| h in j.Inputs() && e in h.entries;
    if r in d.mem || r in d.imm {
      FileInLevels(d.levels, if h in j.in0 then j.level else j.level + 1, h, e);
    } else {
      var l, f :| 0 <= l < NUM_LEVELS && f in d.levels[l] && Unselected(j, l, f) && r in f.entries;
      RemainingVersusInput(d.levels, j, l, f, r, h, e);
    }
  }

  lemma BelowRestFromPairs(R: set<Entry>, input: seq<Entry>, deeper: seq<seq<File>>)
    requires Compaction.DeeperLevels(deeper)
    requires forall r, e :: r in R && e in Elems(input) && r.key == e.key ==>
      r.seqno > e.seqno || (r.seqno < e.seqno && !Compaction.IsBaseLevel(deeper, e.key))
    ensures R !! Elems(input)
    ensures Compaction.InputsBelowRest(input, deeper, R)
  {
  }

  /** What Compaction asks of everything that is not an input. */
  lemma RestIsBelowInputs(d: Db, j: Job, input: seq<Entry>)
    requires LevelOrder(d.levels) && InputsPresent(d.levels, j) && SiblingsOk(d.levels, j) && DeeperOk(d.levels, j)
    requires NewerThan(d.mem, AllEntries(d.levels)) && NewerThan(d.imm, AllEntries(d.levels))
    requires Elems(input) == Contents(j.Inputs())
    ensures Rest(d, j) !! Elems(input)
    ensures Compaction.InputsBelowRest(input, j.deeper, Rest(d, j))
  {
    var R := Rest(d, j);
    forall r, e | r in R && e in Elems(input) && r.key == e.key
      ensures r.seqno > e.seqno || (r.seqno < e.seqno && !Compaction.IsBaseLevel(j.deeper, e.key))
    {
      RestVersusInput(d, j, r, e);
    }
    BelowRestFromPairs(R, input, j.deeper);
  }

  lemma EntryInFile(levels: Levels, e: Entry) returns (l: nat, f: File)
    requires e in AllEntries(levels)
    ensures l < NUM_LEVELS && f in levels[l] && e in f.entries
  {
    l :| 0 <= l < NUM_LEVELS && e in LevelEntries(levels[l]);
    f :| f in levels[l] && e in f.entries;
  }

  lemma FileInLevels(levels: Levels, l: nat, f: File, e: Entry)
    requires l < NUM_LEVELS && f in levels[l] && e in f.entries
    ensures e in AllEntries(levels)
  {
    assert e in LevelEntries(levels[l]);
  }

  lemma EntriesBefore(levels: Levels, j: Job)
    requires InputsPresent(levels, j)
    ensures AllEntries(levels) == Remaining(levels, j) + Contents(j.Inputs())
  {
    forall e | e in AllEntries(levels) ensures e in Remaining(levels, j) + Contents(j.Inputs()) {
      var l, f := EntryInFile(levels, e);
      if !Unselected(j, l, f) {
        assert f in j.Inputs();
      }
    }
    forall e | e in Contents(j.Inputs()) ensures e in AllEntries(levels) {
      var h :| h in j.Inputs() && e in h.entries;
      FileInLevels(levels, if h in j.in0 then j.level else j.level + 1, h, e);
    }
    forall e | e in Remaining(levels, j) ensures e in AllEntries(levels) {
      var l, f :| 0 <= l < NUM_LEVELS && f in levels[l] && Unselected(j, l, f) && e in f.entries;
      FileInLevels(levels, l, f, e);
    }
  }

  lemma EntriesAfter(d: Db, j: Job, outs: set<File>, levels': Levels)
    requires InstallReady(d, j, outs, levels')
    ensures AllEntries(levels') == Remaining(d.levels, j) + Contents(outs)
  {
    forall e | e in AllEntries(levels') ensures e in Remaining(d.levels, j) + Contents(outs) {
      var l, f := EntryInFile(levels', e);
      InstalledMembers(d, j, outs, levels', l, f);
      if f !in outs {
        assert f in d.levels[l] && Unselected(j, l, f);
      }
    }
    forall e | e in Contents(outs) ensures e in AllEntries(levels') {
      var o :| o in outs && e in o.entries;
      InstalledMembers(d, j, outs, levels', j.level + 1, o);
      FileInLevels(levels', j.level + 1, o, e);
    }
    forall e | e in Remaining(d.levels, j) ensures e in AllEntries(levels') {
      var l, f :| 0 <= l < NUM_LEVELS && f in d.levels[l] && Unselected(j, l, f) && e in f.entries;
      InstalledMembers(d, j, outs, levels', l, f);
      FileInLevels(levels', l, f, e);
    }
  }

  /** Cutting an ascending sequence into files gives files apart from each other. */
  lemma {:induction false} ConcatFiles(outs: seq<File>)
    ensures Elems(Concat(outs)) == Contents(Files(outs))
    ensures Sorted(Concat(outs)) ==> forall o, p :: o in outs && p in outs && o != p ==> Apart(o, p)
  {
    if outs != [] {
      var n := |outs| - 1;
      var init, last := outs[..n], outs[n];
      ConcatFiles(init);
      var c := Concat(init);
      assert Concat(outs) == c + last.entries;
      assert outs == init + [last];
      assert Files(outs) == Files(init) + {last};
      assert Contents(Files(outs)) == Contents(Files(init)) + Elems(last.entries);
      if Sorted(Concat(outs)) {
        assert c == Concat(outs)[..|c|];
        forall o | o in init ensures Precedes(o.Largest(), last.Smallest()) {
          assert o in Files(init) && o.Largest() in o.entries;
          assert o.Largest() in Elems(c);
          var i :| 0 <= i < |c| && c[i] == o.Largest();
          assert Concat(outs)[i] == c[i] && Concat(outs)[|c|] == last.entries[0];
        }
      }
    }
  }

  lemma OutputsFromInputs(j: Job, input: seq<Entry>, outs: seq<File>)
    requires Produces(j, input, outs)
    ensures FromInputs(Files(outs), j.Inputs())
    ensures Contents(Files(outs)) == Compaction.Output(input, j.smallest, j.deeper)
    ensures Contents(Files(outs)) <= Contents(j.Inputs())
  {
    ConcatFiles(outs);
    Compaction.KeptSorted(input, |input|, j.smallest, j.deeper);
    Compaction.OutputSubset(input, j.smallest, j.deeper);
    forall o, e | o in Files(outs) && e in o.entries ensures exists h :: h in j.Inputs() && e in h.entries {
      assert e in Contents(Files(outs));
    }
  }

  /** An edit of the levels that adds no entry and keeps the reads keeps the invariant. */
  lemma LevelsEdited(d: Db, d': Db)
    requires Inv(d)
    requires d'.job == None && d' == d.(levels := d'.levels, nextFile := d'.nextFile, horizon := d'.horizon, job := None)
    requires LevelOrder(d'.levels) && AllEntries(d'.levels) <= AllEntries(d.levels)
    requires forall l, f :: 0 <= l < NUM_LEVELS && f in d'.levels[l] ==> f.number < d'.nextFile
    requires d'.horizon <= d.lastSequence && forall t :: t in d.snapshots ==> d'.horizon <= t
    requires ReadsAgree(d'.Stored(), d.history, d'.horizon)
    ensures Inv(d')
  {
    assert d'.Stored() <= d.Stored();
  }

  /** The store before and after an install, split into inputs and rest. */
  lemma InstallSplit(d: Db, d': Db, j: Job, input: seq<Entry>, outs: seq<File>)
    requires Produces(j, input, outs) && InstallReady(d, j, Files(outs), d'.levels)
    requires d'.mem == d.mem && d'.imm == d.imm
    ensures d.Stored() == Rest(d, j) + Elems(input)
    ensures d'.Stored() == Rest(d, j) + Compaction.Output(input, j.smallest, j.deeper)
    ensures AllEntries(d'.levels) <= AllEntries(d.levels)
  {
    hide Contents, AllEntries, Remaining, Compaction.Output, Installs, Edited, SiblingsOk, FromInputs, LevelOrder;
    OutputsFromInputs(j, input, outs);
    EntriesBefore(d.levels, j);
    EntriesAfter(d, j, Files(outs), d'.levels);
  }

  lemma InstallKeepsReads(d: Db, d': Db, j: Job, input: seq<Entry>, outs: seq<File>)
    requires Core(d) && DeeperOk(d.levels, j) && j.smallest <= d.lastSequence
    requires Produces(j, input, outs) && InstallReady(d, j, Files(outs), d'.levels)
    requires d'.history == d.history && d'.mem == d.mem && d'.imm == d.imm
    requires d'.horizon >= d.horizon && d'.horizon >= j.smallest
    ensures AllEntries(d'.levels) <= AllEntries(d.levels)
    ensures ReadsAgree(d'.Stored(), d.history, d'.horizon)
  {
    InstallSplit(d, d', j, input, outs);
    assert NewerThan(d.mem, AllEntries(d.levels));
    RestIsBelowInputs(d, j, input);
    var rest := Rest(d, j);
    assert rest + Elems(input) <= d.history;
    Compaction.OrderedCompactionPreservesReads(input, j.smallest, j.deeper, rest);
    forall k: UserKey, s: Sequence | s >= d'.horizon ensures Read(d'.Stored(), k, s) == Read(d.history, k, s) {
      assert Read(d'.Stored(), k, s) == Read(d.Stored(), k, s);
    }
  }

  lemma InstalledNumbers(d: Db, j: Job, outs: set<File>, levels': Levels, limit: nat)
    requires InstallReady(d, j, outs, levels')
    requires forall l, f :: 0 <= l < NUM_LEVELS && f in d.levels[l] ==> f.number < limit
    requires forall o :: o in outs ==> o.number < limit
    ensures forall l, f :: 0 <= l < NUM_LEVELS && f in levels'[l] ==> f.number < limit
  {
    forall l, f | 0 <= l < NUM_LEVELS && f in levels'[l] ensures f.number < limit {
      InstalledMembers(d, j, outs, levels', l, f);
    }
  }

  /** Installing the results of a job keeps the invariant; gaps do not matter here. */
  lemma InstallKeepsInv(d: Db, d': Db, j: Job, input: seq<Entry>, outs: seq<File>)
    requires Inv(d.(job := None)) && JobOk(d, j) && d.job == Some(j)
    requires InstallCompaction(d, d', input, outs)
    ensures Inv(d')
  {
    var idle := d.(job := None);
    OutputsFromInputs(j, input, outs);
    InstallKeepsLevelOrder(idle, j, Files(outs), d'.levels);
    InstallKeepsReads(idle, d', j, input, outs);
    InstalledNumbers(idle, j, Files(outs), d'.levels, d'.nextFile);
    LevelsEdited(idle, d');
  }

  // ------------------------------------------------------------------ other steps

  lemma TrivialMoveEntries(d: Db, j: Job, f: File, levels': Levels)
    requires LevelOrder(d.levels) && InputsPresent(d.levels, j) && SiblingsOk(d.levels, j) && j.in0 == {f} && j.in1 == {}
    requires Installs(d.levels, j.level, {f}, {}, {f}, levels')
    ensures InstallReady(d, j, {f}, levels')
    ensures AllEntries(levels') == AllEntries(d.levels)
  {
    assert j.Inputs() == {f};
    EntriesBefore(d.levels, j);
    EntriesAfter(d, j, {f}, levels');
  }

  lemma TrivialMoveKeepsInv(d: Db, d': Db, j: Job, f: File)
    requires Inv(d) && TrivialMove(d, d', j, f)
    ensures Inv(d')
  {
    StartEstablishesJob(d, j);
    TrivialMoveEntries(d, j, f, d'.levels);
    InstallKeepsLevelOrder(d, j, {f}, d'.levels);
    assert f in d.levels[j.level];
    InstalledNumbers(d, j, {f}, d'.levels, d'.nextFile);
    assert d'.Stored() == d.Stored();
    LevelsEdited(d, d');
  }

  lemma CoreIgnoresJobField(d: Db, d': Db)
    requires Core(d) && d' == d.(job := d'.job)
    ensures Core(d')
  {
    assert d'.Stored() == d.Stored();
  }

  lemma StartKeepsInv(d: Db, d': Db, j: Job)
    requires Inv(d) && StartCompaction(d, d', j)
    ensures Inv(d')
  {
    StartEstablishesJob(d, j);
    JobIgnoresJobField(d, d', j);
    CoreIgnoresJobField(d, d');
  }

  lemma JobIgnoresJobField(d: Db, d': Db, j: Job)
    requires JobOk(d, j) && d'.levels == d.levels && d'.lastSequence == d.lastSequence && d'.snapshots == d.snapshots
    ensures JobOk(d', j)
  {
  }

  lemma ManualKeepsInv(d: Db, d': Db, j: Job, input: seq<Entry>, outs: seq<File>)
    requires Inv(d) && ManualCompaction(d, d', j, input, outs)
    ensures Inv(d')
  {
    var busy := d.(job := Some(j));
    StartEstablishesJob(d, j);
    JobIgnoresJobField(d, busy, j);
    assert busy.(job := None) == d;
    InstallKeepsInv(busy, d', j, input, outs);
  }

  /** New entries are newer than everything stored, so they decide wherever they are
      visible, in the store as in the history. */
  lemma WriteKeepsInv(d: Db, d': Db, batch: set<Entry>)
    requires Inv(d) && Write(d, d', batch)
    ensures Inv(d')
  {
    forall k: UserKey, s: Sequence | s >= d'.horizon ensures Read(d'.Stored(), k, s) == Read(d'.history, k, s) {
      assert d'.Stored() == batch + d.Stored();
      assert d'.history == batch + d.history;
      ReadLayered(batch, d.Stored(), k, s);
      ReadLayered(batch, d.history, k, s);
    }
  }

  lemma SwitchKeepsInv(d: Db, d': Db)
    requires Inv(d) && SwitchMemTable(d, d')
    ensures Inv(d')
  {
    assert d'.Stored() == d.Stored();
  }

  lemma SnapshotsKeepInv(d: Db, d': Db)
    requires Inv(d) && (TakeSnapshot(d, d') || exists s :: ReleaseSnapshot(d, d', s))
    ensures Inv(d')
  {
    forall t | t in d'.snapshots ensures t in d.snapshots || t == d.lastSequence {
    }
    assert d'.Stored() == d.Stored();
  }

  lemma JobInstallKeepsInv(d: Db, d': Db, input: seq<Entry>, outs: seq<File>)
    requires Inv(d) && InstallCompaction(d, d', input, outs)
    ensures Inv(d')
  {
    CoreIgnoresJobField(d, d.(job := None));
    InstallKeepsInv(d, d', d.job.value, input, outs);
  }

  lemma StepKeepsInv(d: Db, d': Db, step: Step)
    requires Inv(d) && Next(d, d', step)
    ensures Inv(d')
  {
    match step
    case WriteStep(batch) => WriteKeepsInv(d, d', batch);
    case TakeSnapshotStep => SnapshotsKeepInv(d, d');
    case ReleaseSnapshotStep(s) => SnapshotsKeepInv(d, d');
    case SwitchMemTableStep => SwitchKeepsInv(d, d');
    case FlushStep(f, level) => FlushKeepsInv(d, d', f, level);
    case StartCompactionStep(j) => StartKeepsInv(d, d', j);
    case InstallCompactionStep(input, outs) => JobInstallKeepsInv(d, d', input, outs);
    case TrivialMoveStep(j, f) => TrivialMoveKeepsInv(d, d', j, f);
    case ManualCompactionStep(j, input, outs) => ManualKeepsInv(d, d', j, input, outs);
  }
}
