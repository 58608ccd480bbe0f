/** What the invariant of Lsm means to a caller: over every run, `Get` at every live
    snapshot answers from the full history of writes, and a snapshot never changes. */
module LsmRuns {
  import opened Wrappers
  import opened DbFormat
  import opened Tables
  import opened VersionedMap
  import opened Version
  import opened PointRead
  import opened Lsm
  import opened LsmInvariant
  import Compaction

  ghost predicate Run(states: seq<Db>, steps: seq<Step>) {
    && |states| == |steps| + 1
    && Init(states[0])
    && forall i :: 0 <= i < |steps| ==> Next(states[i], states[i + 1], steps[i])
  }

  lemma InitEstablishesInv(d: Db)
    requires Init(d)
    ensures Inv(d)
  {
    assert d.Stored() == {};
  }

  lemma {:induction false} RunsKeepInv(states: seq<Db>, steps: seq<Step>, n: nat)
    requires Run(states, steps) && n <= |steps|
    ensures Inv(states[n])
  {
    hide Inv, Next, Init;
    if n == 0 {
      InitEstablishesInv(states[0]);
    } else {
      RunsKeepInv(states, steps, n - 1);
      StepKeepsInv(states[n - 1], states[n], steps[n - 1]);
    }
  }

  /** In every reachable state every live snapshot reads its history. */
  lemma RunsReadHistory(states: seq<Db>, steps: seq<Step>, n: nat, k: UserKey, s: Sequence)
    requires Run(states, steps) && n <= |steps| && states[n].Readable(s)
    ensures Read(states[n].Stored(), k, s) == Read(states[n].history, k, s)
  {
    RunsKeepInv(states, steps, n);
  }

  /** A step adds to the history only above the last sequence number. */
  lemma StepExtendsHistory(d: Db, d': Db, step: Step, k: UserKey, s: Sequence)
    requires Inv(d) && Inv(d') && Next(d, d', step) && s <= d.lastSequence
    ensures d.lastSequence <= d'.lastSequence
    ensures Read(d'.history, k, s) == Read(d.history, k, s)
  {
    if step.WriteStep? {
      assert forall e :: e in step.batch ==> e.seqno > s;
    }
    assert forall e :: Visible(e, k, s) ==> (e in d.history <==> e in d'.history);
    ReadAgrees(d.history, d'.history, k, s);
  }

  lemma RunStepExtends(states: seq<Db>, steps: seq<Step>, n: nat, k: UserKey, s: Sequence)
    requires Run(states, steps) && n < |steps| && s <= states[n].lastSequence
    ensures s <= states[n + 1].lastSequence
    ensures Read(states[n + 1].history, k, s) == Read(states[n].history, k, s)
  {
    RunsKeepInv(states, steps, n);
    RunsKeepInv(states, steps, n + 1);
    StepExtendsHistory(states[n], states[n + 1], steps[n], k, s);
  }

  /** Repeatable reads: what a sequence number reads is settled once it has been reached. */
  lemma {:induction false} SnapshotsAreStable(states: seq<Db>, steps: seq<Step>, m: nat, n: nat, k: UserKey,
                                              s: Sequence)
    requires Run(states, steps) && m <= n <= |steps| && s <= states[m].lastSequence
    ensures s <= states[n].lastSequence
    ensures Read(states[n].history, k, s) == Read(states[m].history, k, s)
    decreases n - m
  {
    hide Run, Read;
    if m < n {
      SnapshotsAreStable(states, steps, m, n - 1, k, s);
      RunStepExtends(states, steps, n - 1, k, s);
    }
  }

  /** `MemTable::Get`: `None` when the table says nothing about the key. */
  method SearchMemTable(table: seq<Entry>, k: UserKey, s: Sequence) returns (r: Option<GetResult>)
    requires Sorted(table) && Compaction.AllParse(Elems(table))
    ensures r.Some? ==> exists e :: Newest(e, Elems(table), k, s) && r.value.Answers(AnswerOf(e))
    ensures r.None? ==> forall e :: e in table ==> !Visible(e, k, s)
  {
    SeekDecides(table, k, s);
    var landed := FirstAtOrAfter(table, k, s);
    r := None;
    if landed.Some? {
      var e := landed.value;
      assert e in Elems(table);
      if e.key == k {
        if e.kind == VALUE {
          r := Some(Value(e.value));
        } else if e.kind == DELETION {
          r := Some(NotFound);
        }
      }
    }
  }

  /** A memtable that a reader took in state `d`, as it may have become since: whatever was
      added lies above the last sequence number of that moment. */
  ghost predicate GrownFrom(d: Db, table: set<Entry>) {
    d.mem <= table && Compaction.AllParse(table) && forall e :: e in table && e !in d.mem ==> e.seqno > d.lastSequence
  }

  /** The memtable taken in state `m`, as it is in state `n`, and whether it has become the
      immutable one in between. */
  ghost function TableAt(states: seq<Db>, steps: seq<Step>, m: nat, n: nat): (set<Entry>, bool)
    requires |states| == |steps| + 1 && m <= n <= |steps|
    decreases n
  {
    if n == m then (states[m].mem, false)
    else
      var (table, switched) := TableAt(states, steps, m, n - 1);
      if switched || steps[n - 1].SwitchMemTableStep? then (table, true) else (states[n].mem, false)
  }

  /** Over every run, a memtable only grows, above the number of any earlier reader. */
  lemma {:induction false} MemTablesGrow(states: seq<Db>, steps: seq<Step>, m: nat, n: nat)
    requires Run(states, steps) && m <= n <= |steps|
    ensures GrownFrom(states[m], TableAt(states, steps, m, n).0)
    ensures !TableAt(states, steps, m, n).1 ==> TableAt(states, steps, m, n).0 == states[n].mem
    ensures states[m].lastSequence <= states[n].lastSequence
    decreases n
  {
    hide Inv, Next, Init;
    RunsKeepInv(states, steps, n);
    MemTableParses(states[n]);
    if m < n {
      MemTablesGrow(states, steps, m, n - 1);
      OneStepGrows(states[n - 1], states[n], steps[n - 1]);
    }
  }

  lemma MemTableParses(d: Db)
    requires Inv(d)
    ensures Compaction.AllParse(d.mem)
  {
    assert d.mem <= d.history;
  }

  lemma OneStepGrows(d: Db, d': Db, step: Step)
    requires Next(d, d', step)
    ensures d.lastSequence <= d'.lastSequence
    ensures !step.SwitchMemTableStep? ==> d.mem <= d'.mem && forall e :: e in d'.mem && e !in d.mem ==> e.seqno > d.lastSequence
  {
  }

  /** `DBImpl::Get`: under the mutex it takes a sequence number, the two memtables and a version
      of one state; it searches them later, without the mutex, when the memtable may have
      grown.  The answer is that of the full history of writes at that number. */
  method DbGet(ghost d: Db, mem: seq<Entry>, imm: seq<Entry>, levels: Levels, k: UserKey, s: Sequence,
               mayMatch: (File, UserKey) -> bool) returns (r: GetResult)
    requires Inv(d) && d.Readable(s) && s <= d.lastSequence
    requires Sorted(mem) && GrownFrom(d, Elems(mem)) && Sorted(imm) && Elems(imm) == d.imm && levels == d.levels
    requires forall l, f, e :: 0 <= l < NUM_LEVELS && f in levels[l] && e in f.entries ==> mayMatch(f, e.key)
    ensures r.Answers(Read(d.history, k, s))
  {
    var O := d.imm + AllEntries(levels);
    assert d.Stored() == d.mem + O;
    assert Read(d.Stored(), k, s) == Read(d.history, k, s);
    ReadLayered(d.mem, O, k, s);
    ReadLayered(d.imm, AllEntries(levels), k, s);
    assert forall e :: Visible(e, k, s) ==> (e in Elems(mem) <==> e in d.mem);

    var found := SearchMemTable(mem, k, s);
    if found.Some? {
      ghost var e :| Newest(e, Elems(mem), k, s) && found.value.Answers(AnswerOf(e));
      assert e in d.mem && Visible(e, k, s);
      assert Newest(e, d.mem, k, s);
      ReadIs(d.mem, k, s, e);
      return found.value;
    }
    assert forall e :: e in d.mem ==> !Visible(e, k, s);
    found := SearchMemTable(imm, k, s);
    if found.Some? {
      ghost var e :| Newest(e, Elems(imm), k, s) && found.value.Answers(AnswerOf(e));
      ReadIs(d.imm, k, s, e);
      assert e in d.imm && Visible(e, k, s);
      return found.value;
    }
    assert forall e :: e in d.imm ==> !Visible(e, k, s);
    assert AllEntries(levels) <= d.history;
    r := Get(levels, k, s, mayMatch);
  }
}
