/** The write queue (db/db_impl.cc: Write, BuildBatchGroup).

    One step is one region run with the mutex held, or one action of the leading writer
    while it is released.  Other writers may join the queue between any two steps, and
    readers may look at the memtable between any two insertions. */
module GroupCommit {
  import opened Wrappers
  import opened Coding
  import opened WriteBatch

  /** A call of `Write`.  No batch means a caller that only waits for earlier writes. */
  datatype Writer = Writer(batch: Option<seq<Op>>, sync: bool) {
    function Updates(): seq<Op> {
      if batch.Some? then batch.value else []
    }
  }

  /** One log record: the group's first sequence number and its updates.  Of a record that is
      not `whole` only some part may have reached the file: AddRecord returned an error. */
  datatype Record = Record(first: nat, ops: seq<Op>, whole: bool)

  /** How a call of `Write` returned: with success, or with an error before its group had taken
      sequence numbers, or with one after that. */
  datatype Outcome = Acked | Refused | Burned

  /** What the leader has done so far with its group of `n` writers. */
  datatype Phase =
    | Idle
    | Leading(n: nat, updates: seq<Op>, first: nat, logged: bool, logFailed: bool, synced: bool, syncFailed: bool, applied: nat)
  {
    predicate Appended() {
      Leading? && (logged || logFailed)
    }

    predicate Failed() {
      Leading? && (logFailed || syncFailed)
    }
  }

  /** `writers` lists every call of `Write` in the order of arrival; the first |outcome| of
      them have returned; the rest is the queue.  Records from `fileStart` on are in the
      current log file; `durable` holds the indices of the records that some Sync has
      covered. */
  datatype State = State(writers: seq<Writer>, outcome: seq<Outcome>, log: seq<Record>, fileStart: nat, durable: set<nat>,
                         mem: seq<Numbered>, lastSequence: nat, bgError: bool, phase: Phase) {
    ghost predicate WellFormed() { |outcome| <= |writers| }

    ghost function Queue(): seq<Writer> {
      if |outcome| <= |writers| then writers[|outcome|..] else []
    }
  }

  /** The updates of the writers lo..hi-1, in order. */
  function UpdatesIn(ws: seq<Writer>, lo: nat, hi: nat): seq<Op>
    requires lo <= hi <= |ws|
  {
    if hi == lo then [] else UpdatesIn(ws, lo, hi - 1) + ws[hi - 1].Updates()
  }

  // ------------------------------------------------------------- BuildBatchGroup

  const SMALL_WRITE := 0x2_0000   // 128 << 10
  const MAX_GROUP := 0x10_0000    // 1 << 20

  function ByteSize(ops: seq<Op>): nat {
    HEADER + |EncodeOps(ops)|
  }

  function MaxSize(first: nat): nat {
    if first <= SMALL_WRITE then first + SMALL_WRITE else MAX_GROUP
  }

  /** The bytes of the batches among the first `n` writers. */
  function GroupSize(ws: seq<Writer>, n: nat): nat
    requires n <= |ws|
  {
    if n == 0 then 0
    else GroupSize(ws, n - 1) + if ws[n - 1].batch.Some? then ByteSize(ws[n - 1].batch.value) else 0
  }

  /** `ws[n]` may not join the group that the first writer leads. */
  ghost predicate Barred(ws: seq<Writer>, n: nat)
    requires 0 < n < |ws|
  {
    || (ws[n].sync && !ws[0].sync)
    || (ws[n].batch.Some? && GroupSize(ws, n + 1) > MaxSize(GroupSize(ws, 1)))
  }

  /** The group is the longest run of writers from the front none of whom is barred. */
  ghost predicate IsGroup(ws: seq<Writer>, n: nat) {
    && 0 < n <= |ws|
    && (forall i :: 0 < i < n ==> !Barred(ws, i))
    && (n < |ws| ==> Barred(ws, n))
  }

  method BuildBatchGroup(ws: seq<Writer>) returns (n: nat, updates: seq<Op>)
    requires ws != [] && ws[0].batch.Some?
    ensures IsGroup(ws, n)
    ensures updates == UpdatesIn(ws, 0, n)
  {
    var size := ByteSize(ws[0].batch.value);
    var maxSize := MAX_GROUP;
    if size <= SMALL_WRITE {
      maxSize := size + SMALL_WRITE;
    }
    updates := ws[0].batch.value;
    assert UpdatesIn(ws, 0, 1) == UpdatesIn(ws, 0, 0) + updates;
    assert GroupSize(ws, 1) == GroupSize(ws, 0) + size;
    n := 1;
    while n < |ws|
      invariant 0 < n <= |ws| && updates == UpdatesIn(ws, 0, n)
      invariant size == GroupSize(ws, n) && maxSize == MaxSize(GroupSize(ws, 1))
      invariant forall i :: 0 < i < n ==> !Barred(ws, i)
    {
      var w := ws[n];
      if w.sync && !ws[0].sync {
        // A sync write needs a leader that syncs
        break;
      }
      if w.batch.Some? {
        size := size + ByteSize(w.batch.value);
        if size > maxSize {
          // The group has its size
          break;
        }
        updates := updates + w.batch.value;
      }
      n := n + 1;
    }
  }

  // ------------------------------------------------------------------------ steps

  ghost predicate Init(s: State) {
    s == State([], [], [], 0, {}, [], 0, false, Idle)
  }

  /** `writers_.push_back(&w)`. */
  ghost predicate Arrive(s: State, s': State, w: Writer) {
    s' == s.(writers := s.writers + [w])
  }

  /** MakeRoomForWrite reports an error: the front writer returns it alone. */
  ghost predicate Refuse(s: State, s': State) {
    s.phase == Idle && s.Queue() != [] && s' == s.(outcome := s.outcome + [Refused])
  }

  /** A front writer without a batch is done once there is room. */
  ghost predicate PassThrough(s: State, s': State) {
    && s.phase == Idle && !s.bgError && s.Queue() != [] && s.Queue()[0].batch.None?
    && s' == s.(outcome := s.outcome + [Acked])
  }

  /** MakeRoomForWrite switches to a new memtable and log file. */
  ghost predicate SwitchLog(s: State, s': State) {
    s.phase == Idle && !s.bgError && s.Queue() != [] && s' == s.(fileStart := |s.log|)
  }

  /** The front writer gathers its group and releases the mutex. */
  ghost predicate Lead(s: State, s': State, n: nat) {
    && s.phase == Idle && !s.bgError && s.Queue() != [] && s.Queue()[0].batch.Some?
    && IsGroup(s.Queue(), n)
    && s' == s.(phase := Leading(n, UpdatesIn(s.Queue(), 0, n), s.lastSequence + 1, false, false, false, false, 0))
  }

  /** AddRecord, which may fail: then neither Sync nor the memtable follows. */
  ghost predicate AppendLog(s: State, s': State, ok: bool) {
    && s.phase.Leading? && !s.phase.Appended()
    && s' == s.(log := s.log + [Record(s.phase.first, s.phase.updates, ok)],
                phase := if ok then s.phase.(logged := true) else s.phase.(logFailed := true))
  }

  ghost predicate MustSync(s: State)
    requires s.Queue() != []
  {
    s.Queue()[0].sync
  }

  ghost predicate SyncLog(s: State, s': State, ok: bool) {
    && s.phase.Leading? && s.phase.logged && !s.phase.synced && !s.phase.syncFailed && s.Queue() != [] && MustSync(s)
    && s' == if ok then s.(durable := s.durable + Indices(s.fileStart, |s.log|), phase := s.phase.(synced := true)) else s.(phase := s.phase.(syncFailed := true))
  }

  function Indices(lo: nat, hi: nat): set<nat>
    decreases hi - lo
  {
    if lo >= hi then {} else {lo} + Indices(lo + 1, hi)
  }

  lemma {:induction false} IndicesAre(lo: nat, hi: nat, i: nat)
    ensures i in Indices(lo, hi) <==> lo <= i < hi
    decreases hi - lo
  {
    if lo < hi {
      IndicesAre(lo + 1, hi, i);
    }
  }

  /** One update enters the memtable. */
  ghost predicate Insert(s: State, s': State) {
    && s.phase.Leading? && s.phase.logged && s.Queue() != [] && (MustSync(s) ==> s.phase.synced)
    && s.phase.applied < |s.phase.updates|
    && s' == s.(mem := s.mem + [Numbered(s.phase.first + s.phase.applied, s.phase.updates[s.phase.applied])],
                phase := s.phase.(applied := s.phase.applied + 1))
  }

  /** The leader takes the mutex again, publishes the sequence numbers and answers its
      group. */
  ghost predicate Finish(s: State, s': State) {
    && s.phase.Leading? && s.Queue() != []
    && (s.phase.Failed() || (s.phase.logged && (MustSync(s) ==> s.phase.synced) && s.phase.applied == |s.phase.updates|))
    && s' == s.(lastSequence := s.lastSequence + |s.phase.updates|,
                outcome := s.outcome + Answers(if s.phase.Failed() then Burned else Acked, s.phase.n),
                bgError := s.bgError || s.phase.syncFailed,
                phase := Idle)
  }

  /** The leader's status, once for every member of its group. */
  function Answers(o: Outcome, n: nat): (r: seq<Outcome>)
    ensures |r| == n && forall i :: 0 <= i < n ==> r[i] == o
  {
    seq(n, _ => o)
  }

  ghost predicate Next(s: State, s': State) {
    && s.WellFormed()
    && (|| (exists w :: Arrive(s, s', w))
        || Refuse(s, s') || PassThrough(s, s') || SwitchLog(s, s')
        || (exists n :: Lead(s, s', n))
        || AppendLog(s, s', true) || AppendLog(s, s', false) || SyncLog(s, s', true) || SyncLog(s, s', false) || Insert(s, s') || Finish(s, s'))
  }

  // -------------------------------------------------------------------- invariant

  /** The updates of the first `n` writers that have taken sequence numbers. */
  function IssuedOf(ws: seq<Writer>, outcome: seq<Outcome>, n: nat): seq<Op>
    requires n <= |outcome| <= |ws|
  {
    if n == 0 then [] else IssuedOf(ws, outcome, n - 1) + if outcome[n - 1].Refused? then [] else ws[n - 1].Updates()
  }

  /** The updates of the first `n` writers that were acknowledged, under their numbers. */
  function AckedOf(ws: seq<Writer>, outcome: seq<Outcome>, n: nat): seq<Numbered>
    requires n <= |outcome| <= |ws|
  {
    if n == 0 then []
    else
      AckedOf(ws, outcome, n - 1)
      + if outcome[n - 1].Acked? then Number(|IssuedOf(ws, outcome, n - 1)| + 1, ws[n - 1].Updates()) else []
  }

  ghost function Issued(s: State, n: nat): seq<Op>
    requires n <= |s.outcome| <= |s.writers|
  {
    IssuedOf(s.writers, s.outcome, n)
  }

  ghost function Committed(s: State): seq<Numbered>
    requires s.WellFormed()
  {
    AckedOf(s.writers, s.outcome, |s.outcome|)
  }

  /** The updates in the first `n` log records. */
  function LogOps(log: seq<Record>, n: nat): seq<Op>
    requires n <= |log|
  {
    if n == 0 then [] else LogOps(log, n - 1) + log[n - 1].ops
  }

  /** Each record starts one above the updates logged before it. */
  ghost predicate NumberedAt(log: seq<Record>, i: nat)
    requires i < |log|
  {
    log[i].first == |LogOps(log, i)| + 1
  }

  ghost predicate LogNumbered(log: seq<Record>) {
    forall i :: 0 <= i < |log| ==> NumberedAt(log, i)
  }

  lemma {:induction false} LogStable(log: seq<Record>, log': seq<Record>, n: nat)
    requires n <= |log| && log <= log'
    ensures LogOps(log, n) == LogOps(log', n)
  {
    if n > 0 {
      LogStable(log, log', n - 1);
    }
  }

  /** The entries of the whole records among the first `n`, under their numbers. */
  function WholeOf(log: seq<Record>, n: nat): seq<Numbered>
    requires n <= |log|
  {
    if n == 0 then [] else WholeOf(log, n - 1) + if log[n - 1].whole then Number(log[n - 1].first, log[n - 1].ops) else []
  }

  /** The updates of the group under way, once AddRecord has been tried. */
  ghost function Pending(s: State): seq<Op> {
    if s.phase.Appended() then s.phase.updates else []
  }

  /** The same as entries, if AddRecord succeeded. */
  ghost function Logged(s: State): seq<Numbered> {
    if s.phase.Leading? && s.phase.logged then Number(s.phase.first, s.phase.updates) else []
  }

  ghost function Applied(s: State): seq<Numbered> {
    if s.phase.Leading? && s.phase.applied <= |s.phase.updates| then Number(s.phase.first, s.phase.updates[..s.phase.applied]) else []
  }

  ghost predicate PhaseOk(s: State)
    requires s.WellFormed()
  {
    s.phase.Leading? ==>
      && !s.bgError
      && 0 < s.phase.n <= |s.Queue()|
      && s.phase.updates == UpdatesIn(s.writers, |s.outcome|, |s.outcome| + s.phase.n)
      && (!MustSync(s) ==> forall i :: 0 <= i < s.phase.n ==> !s.Queue()[i].sync)
      && s.phase.first == s.lastSequence + 1
      && s.phase.applied <= |s.phase.updates|
      && (s.phase.applied > 0 ==> s.phase.logged && (MustSync(s) ==> s.phase.synced))
      && !(s.phase.logged && s.phase.logFailed)
      && (s.phase.Appended() ==> s.fileStart < |s.log| && s.log[|s.log| - 1] == Record(s.phase.first, s.phase.updates, s.phase.logged))
      && (s.phase.synced ==> s.phase.logged && |s.log| - 1 in s.durable && !s.phase.syncFailed)
      && (s.phase.syncFailed ==> s.phase.logged && MustSync(s) && !s.phase.synced)
  }

  /** The updates numbered lo+1..hi lie in record `r` of the log. */
  ghost predicate InRecord(log: seq<Record>, r: nat, lo: nat, hi: nat)
    requires r < |log|
  {
    |LogOps(log, r)| <= lo && hi <= |LogOps(log, r + 1)|
  }

  /** The updates of the `i`th writer lie in record `r`, which was written without an error,
      and synced if the writer asked for it. */
  ghost predicate Keeps(s: State, r: nat, i: nat)
    requires s.WellFormed() && i < |s.outcome| && r < |s.log|
  {
    s.log[r].whole && (s.writers[i].sync ==> r in s.durable) && InRecord(s.log, r, |Issued(s, i)|, |Issued(s, i + 1)|)
  }

  ghost predicate KeptAt(s: State, i: nat)
    requires s.WellFormed() && i < |s.outcome|
  {
    s.outcome[i].Acked? && s.writers[i].batch.Some? ==> exists r :: 0 <= r < |s.log| && Keeps(s, r, i)
  }

  ghost predicate AllKept(s: State)
    requires s.WellFormed()
  {
    forall i :: 0 <= i < |s.outcome| ==> KeptAt(s, i)
  }

  /** The memtable holds the acknowledged updates and what the leader inserted so far. */
  ghost predicate MemOk(s: State)
    requires s.WellFormed()
  {
    s.mem == Committed(s) + Applied(s)
  }

  /** The log has a record, whole or not, for everything that took sequence numbers. */
  ghost predicate LogOk(s: State)
    requires s.WellFormed()
  {
    && LogNumbered(s.log) && s.lastSequence == |Issued(s, |s.outcome|)|
    && LogOps(s.log, |s.log|) == Issued(s, |s.outcome|) + Pending(s)
  }

  /** The whole records hold the acknowledged updates and the group under way; after a failed
      Sync also one group that was refused. */
  ghost predicate WholeOk(s: State)
    requires s.WellFormed()
  {
    if s.bgError then Committed(s) <= WholeOf(s.log, |s.log|) else WholeOf(s.log, |s.log|) == Committed(s) + Logged(s)
  }

  ghost predicate Inv(s: State) {
    s.WellFormed() && s.fileStart <= |s.log| && PhaseOk(s) && AllKept(s) && MemOk(s) && LogOk(s) && WholeOk(s)
  }

  // ------------------------------------------------------------------ the steps keep it

  /** What earlier writers were told does not depend on later events. */
  lemma {:induction false} IssuedStable(ws: seq<Writer>, oc: seq<Outcome>, ws': seq<Writer>, oc': seq<Outcome>, n: nat)
    requires n <= |oc| <= |ws| && |oc'| <= |ws'|
    requires oc <= oc' && ws <= ws'
    ensures IssuedOf(ws, oc, n) == IssuedOf(ws', oc', n) && AckedOf(ws, oc, n) == AckedOf(ws', oc', n)
  {
    if n > 0 {
      IssuedStable(ws, oc, ws', oc', n - 1);
    }
  }

  /** Answering `n` writers at once adds their updates in queue order; they are acknowledged
      together, or none is. */
  lemma {:induction false} AnswerGroup(ws: seq<Writer>, oc: seq<Outcome>, oc': seq<Outcome>, m: nat, o: Outcome)
    requires |oc| + m <= |oc'| <= |ws| && oc <= oc' && !o.Refused?
    requires forall i :: |oc| <= i < |oc'| ==> oc'[i] == o
    ensures IssuedOf(ws, oc', |oc| + m) == IssuedOf(ws, oc, |oc|) + UpdatesIn(ws, |oc|, |oc| + m)
    ensures AckedOf(ws, oc', |oc| + m)
         == AckedOf(ws, oc, |oc|) + if o.Acked? then Number(|IssuedOf(ws, oc, |oc|)| + 1, UpdatesIn(ws, |oc|, |oc| + m)) else []
  {
    hide IssuedOf, AckedOf, UpdatesIn, Writer.Updates;
    NoUpdates(ws, |oc|);
    if m == 0 {
      IssuedStable(ws, oc, ws, oc', |oc|);
    } else {
      var n := |oc| + m;
      AnswerGroup(ws, oc, oc', m - 1, o);
      OneMoreAnswer(ws, oc', |oc|, n);
      assert oc'[n - 1] == o;
      var before, group, more := IssuedOf(ws, oc, |oc|), UpdatesIn(ws, |oc|, n - 1), ws[n - 1].Updates();
      ConcatAssoc(before, group, more);
      NumberConcat(|before| + 1, group, more);
      if o.Acked? {
        ConcatAssoc(AckedOf(ws, oc, |oc|), Number(|before| + 1, group), Number(|before| + |group| + 1, more));
      }
    }
  }

  lemma NumberConcat(first: nat, a: seq<Op>, b: seq<Op>)
    ensures Number(first, a + b) == Number(first, a) + Number(first + |a|, b)
  {
  }

  lemma NoUpdates(ws: seq<Writer>, n: nat)
    requires n <= |ws|
    ensures UpdatesIn(ws, n, n) == []
  {
  }

  lemma OneMoreAnswer(ws: seq<Writer>, oc: seq<Outcome>, lo: nat, n: nat)
    requires lo < n <= |oc| <= |ws|
    ensures IssuedOf(ws, oc, n) == IssuedOf(ws, oc, n - 1) + if oc[n - 1].Refused? then [] else ws[n - 1].Updates()
    ensures AckedOf(ws, oc, n) == AckedOf(ws, oc, n - 1)
              + if oc[n - 1].Acked? then Number(|IssuedOf(ws, oc, n - 1)| + 1, ws[n - 1].Updates()) else []
    ensures UpdatesIn(ws, lo, n) == UpdatesIn(ws, lo, n - 1) + ws[n - 1].Updates()
  {
  }

  /** The acknowledged writes stay where they are. */
  lemma KeptStable(s: State, s': State, i: nat)
    requires s.WellFormed() && s'.WellFormed() && AllKept(s) && i < |s.outcome|
    requires s.writers <= s'.writers && s.outcome <= s'.outcome && s.log <= s'.log && s.durable <= s'.durable
    ensures KeptAt(s', i)
  {
    IssuedStable(s.writers, s.outcome, s'.writers, s'.outcome, i);
    IssuedStable(s.writers, s.outcome, s'.writers, s'.outcome, i + 1);
    assert KeptAt(s, i);
    if s.outcome[i].Acked? && s.writers[i].batch.Some? {
      var r :| 0 <= r < |s.log| && Keeps(s, r, i);
      LogStable(s.log, s'.log, r);
      LogStable(s.log, s'.log, r + 1);
      assert Keeps(s', r, i);
    }
  }

  lemma KeptExtends(s: State, s': State)
    requires s.WellFormed() && s'.WellFormed() && AllKept(s)
    requires s.writers <= s'.writers && s.outcome == s'.outcome && s.log <= s'.log && s.durable <= s'.durable
    ensures AllKept(s')
  {
    forall i | 0 <= i < |s'.outcome| ensures KeptAt(s', i) {
      KeptStable(s, s', i);
    }
  }

  /** A writer that does not join the log changes nothing but the queue. */
  lemma AnswerOneKeepsInv(s: State, s': State, o: Outcome)
    requires Inv(s) && s.phase == Idle && s.Queue() != []
    requires o.Refused? || (o.Acked? && s.Queue()[0].batch.None?)
    requires s' == s.(outcome := s.outcome + [o])
    ensures Inv(s')
  {
    AnswerOneCommits(s.writers, s.outcome, o);
    forall i | 0 <= i < |s'.outcome| ensures KeptAt(s', i) {
      if i < |s.outcome| {
        KeptStable(s, s', i);
      }
    }
  }

  lemma AnswerOneCommits(ws: seq<Writer>, oc: seq<Outcome>, o: Outcome)
    requires |oc| < |ws| && (o.Refused? || (o.Acked? && ws[|oc|].batch.None?))
    ensures IssuedOf(ws, oc + [o], |oc| + 1) == IssuedOf(ws, oc, |oc|)
    ensures AckedOf(ws, oc + [o], |oc| + 1) == AckedOf(ws, oc, |oc|)
  {
    IssuedStable(ws, oc, ws, oc + [o], |oc|);
  }

  lemma ArriveKeepsInv(s: State, s': State, w: Writer)
    requires Inv(s) && Arrive(s, s', w)
    ensures Inv(s')
  {
    IssuedStable(s.writers, s.outcome, s'.writers, s'.outcome, |s.outcome|);
    KeptExtends(s, s');
    ArriveKeepsPhase(s, s', w);
    assert Committed(s') == Committed(s) && Applied(s') == Applied(s) && Pending(s') == Pending(s) && Logged(s') == Logged(s);
  }

  lemma ArriveKeepsPhase(s: State, s': State, w: Writer)
    requires s.WellFormed() && PhaseOk(s) && Arrive(s, s', w)
    ensures PhaseOk(s')
  {
    assert s'.Queue() == s.Queue() + [w];
    if s.phase.Leading? {
      UpdatesStable(s.writers, s'.writers, |s.outcome|, |s.outcome| + s.phase.n);
    }
  }

  lemma {:induction false} UpdatesStable(ws: seq<Writer>, ws': seq<Writer>, lo: nat, hi: nat)
    requires lo <= hi <= |ws| && ws <= ws'
    ensures UpdatesIn(ws, lo, hi) == UpdatesIn(ws', lo, hi)
  {
    if lo < hi {
      UpdatesStable(ws, ws', lo, hi - 1);
    }
  }

  lemma {:induction false} UpdatesOfTail(ws: seq<Writer>, c: nat, n: nat)
    requires c + n <= |ws|
    ensures UpdatesIn(ws[c..], 0, n) == UpdatesIn(ws, c, c + n)
  {
    if n > 0 {
      UpdatesOfTail(ws, c, n - 1);
    }
  }

  lemma LeadKeepsInv(s: State, s': State, n: nat)
    requires Inv(s) && Lead(s, s', n)
    ensures Inv(s')
  {
    hide IssuedOf, AckedOf, LogOps, WholeOf, NumberedAt, UpdatesIn, InRecord, AllKept;
    var q := s.Queue();
    forall i | 0 <= i < n && !q[0].sync ensures !q[i].sync {
      assert i > 0 ==> !Barred(q, i);
    }
    assert s'.Queue() == q;
    UpdatesOfTail(s.writers, |s.outcome|, n);
    assert Applied(s') == [] && Pending(s') == [] && Logged(s') == [];
    KeptExtends(s, s');
  }

  lemma AppendKeepsNumbers(log: seq<Record>, r: Record)
    requires LogNumbered(log) && r.first == |LogOps(log, |log|)| + 1
    ensures LogNumbered(log + [r])
    ensures LogOps(log + [r], |log| + 1) == LogOps(log, |log|) + r.ops
  {
    LogStable(log, log + [r], |log|);
    forall i | 0 <= i < |log| + 1 ensures NumberedAt(log + [r], i) {
      LogStable(log, log + [r], i);
      assert i < |log| ==> NumberedAt(log, i);
    }
  }

  lemma AppendLogKeepsLog(s: State, s': State, ok: bool)
    requires s.WellFormed() && PhaseOk(s) && LogOk(s) && WholeOk(s) && AppendLog(s, s', ok)
    ensures LogOk(s') && WholeOk(s')
  {
    var r := Record(s.phase.first, s.phase.updates, ok);
    AppendKeepsNumbers(s.log, r);
    WholeStable(s.log, s'.log, |s.log|);
    assert Issued(s, |s.outcome|) + [] == Issued(s, |s.outcome|) && Committed(s) + [] == Committed(s);
  }

  lemma {:induction false} WholeStable(log: seq<Record>, log': seq<Record>, n: nat)
    requires n <= |log| && log <= log'
    ensures WholeOf(log, n) == WholeOf(log', n)
  {
    if n > 0 {
      WholeStable(log, log', n - 1);
    }
  }

  lemma AppendLogKeepsInv(s: State, s': State, ok: bool)
    requires Inv(s) && AppendLog(s, s', ok)
    ensures Inv(s')
  {
    KeptExtends(s, s');
    AppendLogKeepsLog(s, s', ok);
  }

  lemma SyncLogKeepsInv(s: State, s': State, ok: bool)
    requires Inv(s) && SyncLog(s, s', ok)
    ensures Inv(s')
  {
    hide IssuedOf, AckedOf, LogOps, WholeOf, UpdatesIn, Indices, AllKept, LogNumbered;
    IndicesAre(s.fileStart, |s.log|, |s.log| - 1);
    KeptExtends(s, s');
  }

  lemma InsertKeepsInv(s: State, s': State)
    requires Inv(s) && Insert(s, s')
    ensures Inv(s')
  {
    KeptExtends(s, s');
    InsertKeepsMem(s, s');
    InsertKeepsPhase(s, s');
  }

  lemma InsertKeepsPhase(s: State, s': State)
    requires s.WellFormed() && PhaseOk(s) && Insert(s, s')
    ensures PhaseOk(s')
  {
  }

  lemma InsertKeepsMem(s: State, s': State)
    requires s.WellFormed() && MemOk(s) && Insert(s, s')
    ensures MemOk(s')
  {
    var p := s.phase;
    assert p.updates[..p.applied + 1] == p.updates[..p.applied] + [p.updates[p.applied]];
    NumberSnoc(p.first, p.updates[..p.applied], p.updates[p.applied]);
  }

  /** Where the updates of the `m`th writer of a group lie among all that took numbers. */
  lemma GroupMember(ws: seq<Writer>, oc: seq<Outcome>, oc': seq<Outcome>, m: nat)
    requires |oc| + m < |oc'| <= |ws| && oc <= oc'
    requires forall k :: |oc| <= k < |oc'| ==> oc'[k] == Acked
    ensures |IssuedOf(ws, oc, |oc|)| <= |IssuedOf(ws, oc', |oc| + m)|
    ensures |IssuedOf(ws, oc', |oc| + m + 1)| <= |IssuedOf(ws, oc, |oc|)| + |UpdatesIn(ws, |oc|, |oc'|)|
  {
    hide IssuedOf, AckedOf, UpdatesIn;
    AnswerGroup(ws, oc, oc', m, Acked);
    AnswerGroup(ws, oc, oc', m + 1, Acked);
    UpdatesGrow(ws, |oc|, |oc| + m + 1, |oc'|);
  }

  /** The record just written holds the updates of the group and nothing else. */
  lemma GroupLogged(s: State)
    requires Inv(s) && s.phase.Appended()
    ensures |s.log| > 0
    ensures |LogOps(s.log, |s.log| - 1)| == |Issued(s, |s.outcome|)|
    ensures |LogOps(s.log, |s.log|)| == |Issued(s, |s.outcome|)| + |s.phase.updates|
  {
    hide IssuedOf, AckedOf, WholeOf, UpdatesIn, AllKept, MemOk, WholeOk;
    assert NumberedAt(s.log, |s.log| - 1);
  }

  /** A member that succeeded: the record is whole, and its leader synced it if the member
      asked for that. */
  lemma GroupSynced(s: State, s': State, i: nat)
    requires Inv(s) && Finish(s, s') && |s.outcome| <= i < |s'.outcome| && s'.outcome[i].Acked?
    ensures s.phase.logged && !s.phase.Failed() && |s.log| > 0 && s.log[|s.log| - 1].whole
    ensures s.writers[i].sync ==> |s.log| - 1 in s.durable
  {
    assert s.Queue()[i - |s.outcome|] == s.writers[i];
  }

  /** The updates of a member of the group that is answered lie in the record just
      written. */
  lemma GroupInLastRecord(s: State, s': State, i: nat)
    requires Inv(s) && Finish(s, s') && |s.outcome| <= i < |s'.outcome| <= |s'.writers| && s'.outcome[i].Acked?
    ensures |s'.log| > 0 && Keeps(s', |s'.log| - 1, i)
  {
    hide LogOps, IssuedOf, AckedOf, AllKept, MemOk, LogOk, WholeOk;
    GroupSynced(s, s', i);
    GroupLogged(s);
    GroupMember(s.writers, s.outcome, s'.outcome, i - |s.outcome|);
  }

  lemma FinishCommits(s: State, s': State)
    requires s.WellFormed() && PhaseOk(s) && Finish(s, s')
    ensures Issued(s', |s'.outcome|) == Issued(s, |s.outcome|) + s.phase.updates
    ensures Committed(s') == Committed(s) + if s.phase.Failed() then [] else Number(|Issued(s, |s.outcome|)| + 1, s.phase.updates)
  {
    hide IssuedOf, AckedOf;
    AnswerGroup(s.writers, s.outcome, s'.outcome, s.phase.n, if s.phase.Failed() then Burned else Acked);
  }

  lemma FinishKeepsAll(s: State, s': State)
    requires Inv(s) && Finish(s, s')
    ensures AllKept(s')
  {
    forall i | 0 <= i < |s'.outcome| ensures KeptAt(s', i) {
      if i < |s.outcome| {
        KeptStable(s, s', i);
      } else if s'.outcome[i].Acked? {
        GroupInLastRecord(s, s', i);
      }
    }
  }

  /** The leader has finished: AddRecord has been tried, and a failed one inserts nothing. */
  lemma FinishPhase(s: State, s': State)
    requires Inv(s) && Finish(s, s')
    ensures s.phase.Appended() && s'.WellFormed()
    ensures Applied(s) == if s.phase.Failed() then [] else Number(s.phase.first, s.phase.updates)
    ensures s.phase.logFailed ==> Logged(s) == []
    ensures !s.phase.Failed() ==> Logged(s) == Applied(s)
  {
    assert s.phase.updates[..|s.phase.updates|] == s.phase.updates;
  }

  lemma FinishKeepsInv(s: State, s': State)
    requires Inv(s) && Finish(s, s')
    ensures Inv(s')
  {
    hide LogOps, IssuedOf, AckedOf, WholeOf, AllKept, NumberedAt;
    FinishCommits(s, s');
    FinishKeepsAll(s, s');
    FinishPhase(s, s');
  }

  lemma {:induction false} UpdatesGrow(ws: seq<Writer>, lo: nat, m: nat, hi: nat)
    requires lo <= m <= hi <= |ws|
    ensures |UpdatesIn(ws, lo, m)| <= |UpdatesIn(ws, lo, hi)|
    decreases hi - m
  {
    if m < hi {
      UpdatesGrow(ws, lo, m, hi - 1);
    }
  }

  lemma StepKeepsInv(s: State, s': State)
    requires Inv(s) && Next(s, s')
    ensures Inv(s')
  {
    if w :| Arrive(s, s', w) {
      ArriveKeepsInv(s, s', w);
    } else if Refuse(s, s') {
      AnswerOneKeepsInv(s, s', Refused);
    } else if PassThrough(s, s') {
      AnswerOneKeepsInv(s, s', Acked);
    } else if SwitchLog(s, s') {
      KeptExtends(s, s');
    } else if n :| Lead(s, s', n) {
      LeadKeepsInv(s, s', n);
    } else if AppendLog(s, s', true) {
      AppendLogKeepsInv(s, s', true);
    } else if AppendLog(s, s', false) {
      AppendLogKeepsInv(s, s', false);
    } else if SyncLog(s, s', true) {
      SyncLogKeepsInv(s, s', true);
    } else if SyncLog(s, s', false) {
      SyncLogKeepsInv(s, s', false);
    } else if Insert(s, s') {
      InsertKeepsInv(s, s');
    } else {
      FinishKeepsInv(s, s');
    }
  }

  // ---------------------------------------------------------------- over every run

  ghost predicate Run(states: seq<State>) {
    && states != []
    && Init(states[0])
    && forall i :: 0 <= i < |states| - 1 ==> StepAt(states, i)
  }

  ghost predicate StepAt(states: seq<State>, i: nat)
    requires i + 1 < |states|
  {
    Next(states[i], states[i + 1])
  }

  lemma {:induction false} RunsKeepInv(states: seq<State>, n: nat)
    requires Run(states) && n < |states|
    ensures Inv(states[n])
  {
    if n == 0 {
      assert Committed(states[0]) + Applied(states[0]) == [];
    } else {
      RunsKeepInv(states, n - 1);
      assert StepAt(states, n - 1);
      StepKeepsInv(states[n - 1], states[n]);
    }
  }

  /** Unless a Sync has failed, the whole records of the log hold exactly the batches that were
      acknowledged, each once and in queue order, then at most the group under way; and the
      records, whole or not, use up the sequence numbers without a gap. */
  lemma LogIsTheQueue(states: seq<State>, n: nat)
    requires Run(states) && n < |states| && !states[n].bgError
    ensures states[n].WellFormed()
    ensures var s := states[n];
            && WholeOf(s.log, |s.log|) == Committed(s) + Logged(s)
            && s.lastSequence + |Pending(s)| == |LogOps(s.log, |s.log|)|
            && LogNumbered(s.log)
  {
    RunsKeepInv(states, n);
  }

  /** One step only adds writers and answers. */
  lemma StepGrows(s: State, s': State)
    requires Inv(s) && Next(s, s')
    ensures s.writers <= s'.writers && s.outcome <= s'.outcome
  {
    hide Inv, UpdatesIn, IsGroup, AllKept, LogOk, WholeOk, MemOk, IssuedOf, AckedOf;
  }

  lemma {:induction false} RunGrows(states: seq<State>, m: nat, n: nat)
    requires Run(states) && m <= n < |states|
    ensures states[m].writers <= states[n].writers && states[m].outcome <= states[n].outcome
    decreases n - m
  {
    hide Inv, Next;
    if m < n {
      RunGrows(states, m, n - 1);
      RunsKeepInv(states, n - 1);
      assert StepAt(states, n - 1);
      StepGrows(states[n - 1], states[n]);
    }
  }

  /** What is acknowledged later lies above the numbers that are taken now. */
  lemma {:induction false} AckedLater(ws: seq<Writer>, oc: seq<Outcome>, m: nat, n: nat)
    requires m <= n <= |oc| <= |ws|
    ensures IssuedOf(ws, oc, m) <= IssuedOf(ws, oc, n) && AckedOf(ws, oc, m) <= AckedOf(ws, oc, n)
    ensures forall j :: |AckedOf(ws, oc, m)| <= j < |AckedOf(ws, oc, n)| ==> AckedOf(ws, oc, n)[j].seqno > |IssuedOf(ws, oc, m)|
    decreases n - m
  {
    if m < n {
      AckedLater(ws, oc, m, n - 1);
      hide IssuedOf, AckedOf;
      OneMoreAnswer(ws, oc, m, n);
    }
  }

  /** What is acknowledged lies among the numbers that are taken. */
  lemma {:induction false} AckedBounded(ws: seq<Writer>, oc: seq<Outcome>, n: nat)
    requires n <= |oc| <= |ws|
    ensures forall j :: 0 <= j < |AckedOf(ws, oc, n)| ==> AckedOf(ws, oc, n)[j].seqno <= |IssuedOf(ws, oc, n)|
  {
    if n > 0 {
      AckedBounded(ws, oc, n - 1);
      hide IssuedOf, AckedOf;
      OneMoreAnswer(ws, oc, n - 1, n);
    }
  }

  /** The memtable at one moment, for a reader that fixed its sequence number then. */
  lemma ReaderSees(s: State)
    requires Inv(s)
    ensures s.WellFormed() && s.mem == Committed(s) + Applied(s) && s.lastSequence == |Issued(s, |s.outcome|)|
    ensures forall j :: 0 <= j < |Applied(s)| ==> Applied(s)[j].seqno > s.lastSequence
  {
  }

  /** A reader fixes LastSequence in one state and reads the memtable in any later one, with
      writers at work in between: at its number it sees exactly the batches that were
      acknowledged when it fixed the number, whole and in queue order; everything else in the
      memtable lies above its number.  This holds for reads, iterators and snapshots alike. */
  lemma ReadersSeeWholeBatches(states: seq<State>, m: nat, n: nat)
    requires Run(states) && m <= n < |states|
    ensures states[m].WellFormed()
    ensures var seen, mem := Committed(states[m]), states[n].mem;
            && |seen| <= |mem| && mem[..|seen|] == seen
            && (forall j :: 0 <= j < |mem| ==> (mem[j].seqno <= states[m].lastSequence <==> j < |seen|))
  {
    hide Inv, Run, IssuedOf, AckedOf, Applied;
    RunsKeepInv(states, m);
    RunsKeepInv(states, n);
    RunGrows(states, m, n);
    var s, s' := states[m], states[n];
    ReaderSees(s);
    ReaderSees(s');
    IssuedStable(s.writers, s.outcome, s'.writers, s'.outcome, |s.outcome|);
    AckedLater(s'.writers, s'.outcome, |s.outcome|, |s'.outcome|);
    AckedBounded(s.writers, s.outcome, |s.outcome|);
  }

  /** What took sequence numbers is in the log, at the positions of its numbers, and in a whole
      record if it was acknowledged. */
  lemma AcknowledgedIsLogged(s: State, i: nat)
    requires Inv(s) && i < |s.outcome|
    ensures var lo, hi := |Issued(s, i)|, |Issued(s, i + 1)|;
            && lo <= hi <= |LogOps(s.log, |s.log|)|
            && LogOps(s.log, |s.log|)[lo..hi] == if s.outcome[i].Refused? then [] else s.writers[i].Updates()
    ensures s.outcome[i].Acked? && s.writers[i].batch.Some? ==> exists r :: 0 <= r < |s.log| && Keeps(s, r, i)
  {
    var all, before := LogOps(s.log, |s.log|), Issued(s, i);
    AckedLater(s.writers, s.outcome, i + 1, |s.outcome|);
    assert Issued(s, i + 1) <= all;
    assert Issued(s, i + 1) == before + if s.outcome[i].Refused? then [] else s.writers[i].Updates();
    assert all[..|Issued(s, i + 1)|] == Issued(s, i + 1);
    assert KeptAt(s, i);
  }

  /** A sync write that returned success is in the log, its updates in order, inside one
      whole record that was synced; also after a later Sync or AddRecord has failed. */
  lemma SyncWritesAreDurable(states: seq<State>, n: nat, i: nat)
    requires Run(states) && n < |states| && i < |states[n].outcome| <= |states[n].writers|
    requires states[n].outcome[i].Acked? && states[n].writers[i].sync && states[n].writers[i].batch.Some?
    ensures var s := states[n];
            var lo, hi := |Issued(s, i)|, |Issued(s, i + 1)|;
            && lo <= hi <= |LogOps(s.log, |s.log|)| && LogOps(s.log, |s.log|)[lo..hi] == s.writers[i].batch.value
            && exists r :: 0 <= r < |s.log| && Keeps(s, r, i) && r in s.durable
  {
    hide IssuedOf, AckedOf, LogOps;
    RunsKeepInv(states, n);
    AcknowledgedIsLogged(states[n], i);
    var r :| 0 <= r < |states[n].log| && Keeps(states[n], r, i);
  }

  /** Inserting whole records one after the other restores the entries under the numbers they
      were written with. */
  lemma {:induction false} ReplayRestores(log: seq<Record>, from: nat, n: nat)
    requires LogNumbered(log) && from <= n <= |log| && forall r :: from <= r < n ==> log[r].whole
    ensures LogOps(log, from) <= LogOps(log, n)
    ensures WholeOf(log, n) == WholeOf(log, from) + Number(1, LogOps(log, n))[|LogOps(log, from)|..]
    decreases n
  {
    hide LogOps, WholeOf, Number;
    if from < n {
      ReplayRestores(log, from, n - 1);
      OneMoreWhole(log, n);
      var before, r := LogOps(log, n - 1), log[n - 1];
      NumberConcat(1, before, r.ops);
      ReplayTail(Number(1, before), Number(r.first, r.ops), |LogOps(log, from)|);
      ConcatAssoc(WholeOf(log, from), Number(1, before)[|LogOps(log, from)|..], Number(r.first, r.ops));
    }
  }

  lemma OneMoreWhole(log: seq<Record>, n: nat)
    requires LogNumbered(log) && 0 < n <= |log| && log[n - 1].whole
    ensures LogOps(log, n) == LogOps(log, n - 1) + log[n - 1].ops && log[n - 1].first == 1 + |LogOps(log, n - 1)|
    ensures WholeOf(log, n) == WholeOf(log, n - 1) + Number(log[n - 1].first, log[n - 1].ops)
  {
    assert NumberedAt(log, n - 1);
  }

  lemma ReplayTail(a: seq<Numbered>, b: seq<Numbered>, n: nat)
    requires n <= |a|
    ensures (a + b)[n..] == a[n..] + b
  {
  }

  // -------------------------------------------------------------------- one run

  lemma OneMoreStep(states: seq<State>, s': State)
    requires Run(states) && Next(states[|states| - 1], s')
    ensures Run(states + [s'])
  {
    var all := states + [s'];
    forall i | 0 <= i < |all| - 1 ensures StepAt(all, i) {
      assert i < |states| - 1 ==> StepAt(states, i);
    }
  }

  lemma LeadAlone(s: State, s': State, w: Writer)
    requires s.writers == [w] && s.outcome == [] && w.batch.Some? && s.phase == Idle && !s.bgError
    requires s' == s.(phase := Leading(1, w.batch.value, s.lastSequence + 1, false, false, false, false, 0))
    ensures Next(s, s')
  {
    assert s.Queue() == [w];
    GroupAlone(w);
    assert Lead(s, s', 1);
  }

  lemma GroupAlone(w: Writer)
    requires w.batch.Some?
    ensures IsGroup([w], 1) && UpdatesIn([w], 0, 1) == w.batch.value
  {
    assert UpdatesIn([w], 0, 1) == UpdatesIn([w], 0, 0) + w.batch.value;
  }

  lemma SyncOne(s: State, s': State)
    requires s.phase.Leading? && s.phase.logged && !s.phase.synced && !s.phase.syncFailed && s.Queue() != [] && MustSync(s)
    requires s.fileStart == 0 && |s.log| == 1 && s.WellFormed()
    requires s' == s.(durable := s.durable + {0}, phase := s.phase.(synced := true))
    ensures Next(s, s')
  {
    assert Indices(0, 1) == {0} + Indices(1, 1);
    assert SyncLog(s, s', true);
  }

  /** A run in which one sync write is logged, synced, inserted and acknowledged. */
  lemma OneSyncWrite(s0: State, op: Op) returns (states: seq<State>)
    requires Init(s0)
    ensures Run(states) && states[0] == s0 && |states| == 7
    ensures states[6].outcome == [Acked] && states[6].durable == {0} && states[6].log == [Record(1, [op], true)]
    ensures states[6].mem == [Numbered(1, op)] && states[6].lastSequence == 1
  {
    hide IsGroup, UpdatesIn, Indices, Run, Lead, SyncLog;
    var w := Writer(Some([op]), true);
    states := [s0];
    StartsRun(s0);
    var s1 := s0.(writers := [w]);
    assert Arrive(s0, s1, w);
    OneMoreStep(states, s1);
    var s2 := s1.(phase := Leading(1, [op], 1, false, false, false, false, 0));
    LeadAlone(s1, s2, w);
    OneMoreStep(states + [s1], s2);
    var s3 := s2.(log := [Record(1, [op], true)], phase := s2.phase.(logged := true));
    assert AppendLog(s2, s3, true);
    OneMoreStep(states + [s1] + [s2], s3);
    var s4 := s3.(durable := {0}, phase := s3.phase.(synced := true));
    assert s3.Queue() == [w];
    SyncOne(s3, s4);
    OneMoreStep(states + [s1] + [s2] + [s3], s4);
    var s5 := s4.(mem := [Numbered(1, op)], phase := s4.phase.(applied := 1));
    assert s4.Queue() == [w] && Insert(s4, s5);
    OneMoreStep(states + [s1] + [s2] + [s3] + [s4], s5);
    var s6 := s5.(lastSequence := 1, outcome := [Acked], phase := Idle);
    assert Answers(Acked, 1) == [Acked];
    assert s5.Queue() == [w] && Finish(s5, s6);
    OneMoreStep(states + [s1] + [s2] + [s3] + [s4] + [s5], s6);
    states := states + [s1] + [s2] + [s3] + [s4] + [s5] + [s6];
  }

  lemma StartsRun(s: State)
    requires Init(s)
    ensures Run([s])
  {
  }

  /** A run in which one AddRecord fails and a sync write behind it goes through. */
  lemma TornRun(s0: State, lost: Op, op: Op) returns (states: seq<State>)
    requires Init(s0)
    ensures Run(states) && |states| == 11
    ensures var s := states[10];
      && s.writers == [Writer(Some([lost]), false), Writer(Some([op]), true)] && s.outcome == [Burned, Acked]
      && s.log == [Record(1, [lost], false), Record(2, [op], true)] && s.durable == {0, 1} && s.fileStart == 0
      && s.mem == [Numbered(2, op)]
  {
    hide Run, Init, Next;
    var w, v := Writer(Some([lost]), false), Writer(Some([op]), true);
    var s1, s2, s3, s4 := FailAlone(s0, lost);
    var s5 := s4.(writers := [w, v]);
    Arrives(s4, s5, v);
    var s6, s7, s8, s9, s10 := SyncAlone(s5, lost, op);
    states := [s0, s1, s2, s3, s4, s5, s6, s7, s8, s9, s10];
    assert Run(states) by {
      AllSteps(states);
    }
  }

  lemma AllSteps(states: seq<State>)
    requires |states| == 11 && Init(states[0])
    requires Next(states[0], states[1]) && Next(states[1], states[2]) && Next(states[2], states[3]) && Next(states[3], states[4])
    requires Next(states[4], states[5]) && Next(states[5], states[6]) && Next(states[6], states[7]) && Next(states[7], states[8])
    requires Next(states[8], states[9]) && Next(states[9], states[10])
    ensures Run(states)
  {
    hide Init, Next;
  }

  lemma Arrives(s: State, s': State, w: Writer)
    requires s.WellFormed() && Arrive(s, s', w)
    ensures Next(s, s')
  {
  }

  /** A single writer whose record is torn. */
  lemma FailAlone(s0: State, lost: Op) returns (s1: State, s2: State, s3: State, s4: State)
    requires Init(s0)
    ensures Next(s0, s1) && Next(s1, s2) && Next(s2, s3) && Next(s3, s4)
    ensures s4 == State([Writer(Some([lost]), false)], [Burned], [Record(1, [lost], false)], 0, {}, [], 1, false, Idle)
  {
    hide IsGroup, UpdatesIn;
    var w := Writer(Some([lost]), false);
    s1 := s0.(writers := [w]);
    assert Arrive(s0, s1, w);
    s2 := s1.(phase := Leading(1, [lost], 1, false, false, false, false, 0));
    LeadAlone(s1, s2, w);
    s3 := s2.(log := [Record(1, [lost], false)], phase := s2.phase.(logFailed := true));
    assert AppendLog(s2, s3, false);
    s4 := State([w], [Burned], [Record(1, [lost], false)], 0, {}, [], 1, false, Idle);
    assert Answers(Burned, 1) == [Burned] && s3.Queue() == [w];
    assert Finish(s3, s4);
  }

  /** A sync write behind it that goes through. */
  lemma SyncAlone(s5: State, lost: Op, op: Op) returns (s6: State, s7: State, s8: State, s9: State, s10: State)
    requires s5 == State([Writer(Some([lost]), false), Writer(Some([op]), true)], [Burned], [Record(1, [lost], false)], 0, {}, [], 1, false, Idle)
    ensures Next(s5, s6) && Next(s6, s7) && Next(s7, s8) && Next(s8, s9) && Next(s9, s10)
    ensures s10 == State(s5.writers, [Burned, Acked], [Record(1, [lost], false), Record(2, [op], true)], 0, {0, 1},
                         [Numbered(2, op)], 2, false, Idle)
  {
    hide IsGroup, UpdatesIn;
    var v, log := Writer(Some([op]), true), [Record(1, [lost], false), Record(2, [op], true)];
    assert s5.Queue() == [v];
    s6 := s5.(phase := Leading(1, [op], 2, false, false, false, false, 0));
    GroupAlone(v);
    assert Lead(s5, s6, 1);
    s7 := s6.(log := log, phase := s6.phase.(logged := true));
    assert AppendLog(s6, s7, true);
    s8 := s7.(durable := {0, 1}, phase := s7.phase.(synced := true));
    assert s7.Queue() == [v] && Indices(0, 2) == {0, 1} by {
      assert Indices(1, 2) == {1} + Indices(2, 2);
    }
    assert SyncLog(s7, s8, true);
    s9 := s8.(mem := [Numbered(2, op)], phase := s8.phase.(applied := 1));
    assert s8.Queue() == [v] && Insert(s8, s9);
    s10 := State(s5.writers, [Burned, Acked], log, 0, {0, 1}, [Numbered(2, op)], 2, false, Idle);
    assert Answers(Acked, 1) == [Acked] && s9.Queue() == [v];
    assert Finish(s9, s10);
  }
}
