/** The runs of Lsm are not empty: one with a compaction and a flush inside it. */
module LsmWitness {
  import opened Wrappers
  import opened DbFormat
  import opened Tables
  import opened VersionedMap
  import opened Version
  import opened PointRead
  import opened CompactionInputs
  import opened Lsm
  import opened LsmRuns
  import Compaction

  ghost function WithTable(d: Db, f: File): Db {
    d.(imm := {}, levels := d.levels[0 := [f] + d.levels[0]], nextFile := d.nextFile + 1)
  }

  /** A flush to level 0 in front of its files. */
  lemma FlushInFront(d: Db, f: File)
    requires Elems(f.entries) == d.imm && f.number == d.nextFile
    requires |d.levels[0]| <= 1 && (d.levels[0] != [] ==> d.levels[0][0] != f && Precedes(f.Smallest(), d.levels[0][0].Smallest()))
    ensures Next(d, WithTable(d, f), FlushStep(f, 0))
  {
    var d' := WithTable(d, f);
    forall g ensures g in d'.levels[0] <==> g in d.levels[0] || g == f {
      assert d'.levels[0][0] == f;
      if g in d.levels[0] {
        var i :| 0 <= i < |d.levels[0]| && d.levels[0][i] == g;
        assert d'.levels[0][i + 1] == g;
      }
    }
    assert Flush(d, d', f, 0);
  }

  lemma StartOne(d: Db, f: File, j: Job)
    requires d.levels == [[f], [], [], [], [], [], []] && d.job == None && d.snapshots == multiset{}
    requires j == Job(0, {f}, {}, d.lastSequence, [[], [], [], [], []])
    ensures Next(d, d.(job := Some(j)), StartCompactionStep(j))
  {
    assert d.levels[2..] == j.deeper;
    assert LegalInputs(d.levels, 0, {f}, {});
    forall x, a, b | a in j.Inputs() && b in j.Inputs() && CompactionInputs.Between(x, a, b) ensures CoveredBy(j.Inputs(), x) {
      assert a in j.Inputs() && a.Covers(x);
    }
  }

  /** Both entries go: the marker is obsolete, the value hidden behind it. */
  lemma NothingKept(input: seq<Entry>, smallest: Sequence, deeper: seq<seq<File>>)
    requires deeper == [[], [], [], [], []] && |input| == 2 && input[0].key == input[1].key
    requires input[0].IsDeletion() && input[1].Parses() && input[0].seqno <= smallest < MAX_SEQUENCE
    ensures Compaction.DeeperLevels(deeper) && Compaction.Kept(input, 2, smallest, deeper) == []
  {
    assert Compaction.ObsoleteMarker(input, 0, smallest, deeper);
    assert Compaction.Hidden(input, 1, smallest);
    assert Compaction.Kept(input, 0, smallest, deeper) == [];
    assert Compaction.Kept(input, 1, smallest, deeper) == [];
  }

  lemma InstallNothing(d: Db, d': Db, f: File, g: File, j: Job)
    requires d.levels == [[g, f], [], [], [], [], [], []] && f != g && d.job == Some(j)
    requires j == Job(0, {f}, {}, j.smallest, [[], [], [], [], []]) && d.horizon <= j.smallest
    requires Compaction.DeeperLevels(j.deeper) && Compaction.Kept(f.entries, |f.entries|, j.smallest, j.deeper) == []
    requires d' == d.(levels := [[g], [], [], [], [], [], []], job := None, horizon := j.smallest)
    ensures Next(d, d', InstallCompactionStep(f.entries, []))
  {
    hide Compaction.Kept, Compaction.DeeperLevels;
    assert j.Inputs() == {f} && Contents(j.Inputs()) == Elems(f.entries);
    assert Produces(j, f.entries, []);
    assert Edited(d.levels[0], {f}, {}, d'.levels[0]);
    assert Files([]) == {};
    assert Edited(d.levels[1], {}, {}, d'.levels[1]);
    assert d'.levels == d.levels[0 := d'.levels[0]][1 := d'.levels[1]];
    assert Installs(d.levels, 0, {f}, {}, Files([]), d'.levels);
  }

  /** A state without memtables, snapshots or compaction. */
  ghost function Settled(history: set<Entry>, files: seq<File>, last: Sequence, nextFile: nat, horizon: Sequence): Db {
    Db(history, {}, {}, [files, [], [], [], [], [], []], last, multiset{}, nextFile, horizon, None)
  }

  /** Entries are written, set aside and flushed, whatever else is going on. */
  lemma WriteAndFlush(d: Db, batch: set<Entry>, f: File, last: Sequence) returns (d1: Db, d2: Db, d3: Db)
    requires d.mem == d.imm == {} && Elems(f.entries) == batch && f.number == d.nextFile
    requires Write(d, d.(history := d.history + batch, mem := batch, lastSequence := last), batch)
    requires |d.levels[0]| <= 1 && (d.levels[0] != [] ==> d.levels[0][0] != f && Precedes(f.Smallest(), d.levels[0][0].Smallest()))
    ensures Next(d, d1, WriteStep(batch)) && Next(d1, d2, SwitchMemTableStep) && Next(d2, d3, FlushStep(f, 0))
    ensures d3 == d.(history := d.history + batch, lastSequence := last, nextFile := d.nextFile + 1,
                     levels := d.levels[0 := [f] + d.levels[0]])
  {
    hide Next, Write;
    d1 := d.(history := d.history + batch, mem := batch, lastSequence := last);
    Writes(d, d1, batch);
    d2 := d1.(mem := {}, imm := batch);
    Switches(d1, d2);
    d3 := WithTable(d2, f);
    FlushInFront(d2, f);
  }

  /** A value and its deletion become one table, which is chosen for compaction. */
  lemma UntilTheJob(a: Entry, b: Entry, f: File, j: Job) returns (s0: Db, s1: Db, s2: Db, s3: Db)
    requires a.seqno == 1 && b.seqno == 2 && a.Parses() && b.Parses() && f == Table(1, [b, a])
    requires j == Job(0, {f}, {}, 2, [[], [], [], [], []])
    ensures Init(s0) && s3 == Settled({a, b}, [f], 2, 2, 0)
    ensures Next(s0, s1, WriteStep({a, b})) && Next(s1, s2, SwitchMemTableStep) && Next(s2, s3, FlushStep(f, 0))
    ensures Next(s3, s3.(job := Some(j)), StartCompactionStep(j))
  {
    hide Next, Init, Write;
    s0 := Settled({}, [], 0, 1, 0);
    Starts(s0);
    BatchOf(s0, {a, b}, 2);
    s1, s2, s3 := WriteAndFlush(s0, {a, b}, f, 2);
    assert [f] + [] == [f] && {} + {a, b} == {a, b};
    StartOne(s3, f, j);
  }

  /** While it runs, a new value is written and flushed; then both old entries go. */
  lemma WhileItRuns(a: Entry, b: Entry, c: Entry, f: File, g: File, j: Job) returns (s4: Db, s5: Db, s6: Db, s7: Db, s8: Db)
    requires c.seqno == 3 && c.Parses() && g == Table(2, [c]) && f == Table(1, [b, a]) && a.key == b.key == c.key
    requires b == Entry(a.key, 2, DELETION, []) && a.Parses() && j == Job(0, {f}, {}, 2, [[], [], [], [], []])
    ensures s4 == Settled({a, b}, [f], 2, 2, 0).(job := Some(j)) && s8 == Settled({a, b, c}, [g], 3, 3, 2)
    ensures Next(s4, s5, WriteStep({c})) && Next(s5, s6, SwitchMemTableStep) && Next(s6, s7, FlushStep(g, 0))
    ensures Next(s7, s8, InstallCompactionStep([b, a], []))
  {
    hide Next, Init, Write, Compaction.Kept, Compaction.DeeperLevels;
    s4 := Settled({a, b}, [f], 2, 2, 0).(job := Some(j));
    BatchOf(s4, {c}, 3);
    s5, s6, s7 := WriteAndFlush(s4, {c}, g, 3);
    assert [g] + [f] == [g, f] && {a, b} + {c} == {a, b, c};
    s8 := Settled({a, b, c}, [g], 3, 3, 2);
    NothingKept([b, a], 2, j.deeper);
    InstallNothing(s7, s8, f, g, j);
  }

  /** A compaction with a flush inside it: it drops a value and its deletion, and the history
      still reads as before. */
  lemma FlushDuringCompaction(k: UserKey, x: Value, y: Value) returns (states: seq<Db>, steps: seq<Step>)
    ensures Run(states, steps) && |steps| == 8
    ensures steps[3].StartCompactionStep? && steps[6].FlushStep? && steps[7].InstallCompactionStep?
    ensures var a, b, c := Entry(k, 1, VALUE, x), Entry(k, 2, DELETION, []), Entry(k, 3, VALUE, y);
            states[8].history == {a, b, c} && states[8].Stored() == {c} && states[8].horizon == 2
  {
    hide Next, Init, Write, Db.Stored;
    var a, b, c := Entry(k, 1, VALUE, x), Entry(k, 2, DELETION, []), Entry(k, 3, VALUE, y);
    var f: File, g: File := Table(1, [b, a]), Table(2, [c]);
    var j := Job(0, {f}, {}, 2, [[], [], [], [], []]);
    var s0, s1, s2, s3 := UntilTheJob(a, b, f, j);
    var s4, s5, s6, s7, s8 := WhileItRuns(a, b, c, f, g, j);
    OneTable(s8, g);
    states := [s0, s1, s2, s3, s4, s5, s6, s7, s8];
    steps := [WriteStep({a, b}), SwitchMemTableStep, FlushStep(f, 0), StartCompactionStep(j), WriteStep({c}),
              SwitchMemTableStep, FlushStep(g, 0), InstallCompactionStep([b, a], [])];
    forall i | 0 <= i < 8 ensures Next(states[i], states[i + 1], steps[i]) {
    }
  }

  lemma BatchOf(d: Db, batch: set<Entry>, last: Sequence)
    requires d.mem == {} && last < MAX_SEQUENCE && Functional(batch)
    requires forall e :: e in batch ==> d.lastSequence < e.seqno <= last && e.Parses()
    requires d.lastSequence <= last
    ensures Write(d, d.(history := d.history + batch, mem := batch, lastSequence := last), batch)
  {
  }

  lemma Starts(d: Db)
    requires d == Settled({}, [], 0, 1, 0)
    ensures Init(d)
  {
  }

  lemma Writes(d: Db, d': Db, batch: set<Entry>)
    requires Write(d, d', batch)
    ensures Next(d, d', WriteStep(batch))
  {
  }

  lemma Switches(d: Db, d': Db)
    requires SwitchMemTable(d, d')
    ensures Next(d, d', SwitchMemTableStep)
  {
  }

  lemma OneTable(d: Db, g: File)
    requires d.levels == [[g], [], [], [], [], [], []] && d.mem == d.imm == {}
    ensures d.Stored() == Elems(g.entries)
  {
    assert LevelEntries(d.levels[0]) == Elems(g.entries) by {
      assert forall f :: f in d.levels[0] <==> f == g;
    }
    assert AllEntries(d.levels) == Elems(g.entries) by {
      assert forall l :: 0 < l < NUM_LEVELS ==> LevelEntries(d.levels[l]) == {};
    }
  }
}
