/** Which files may be removed (db/db_impl.cc: DeleteObsoleteFiles), beside readers, a
    writer that switches memtables or fails, and the one background thread.

    One step is one region run with the mutex held, or one file operation of the background
    thread while it is released. */
module FileGc {
  import opened Wrappers

  datatype File = Table(number: nat) | Log(number: nat) | Manifest(number: nat)

  /** A version in the list of `VersionSet`: its tables and its reference count. */
  datatype Version = Version(tables: set<nat>, refs: nat)

  /** A memtable flush: being written as table `number`, waiting for the mutex, or with its
      edit on the way to the MANIFEST. */
  datatype Flush =
    | NoFlush
    | Building(number: nat, base: nat, created: bool)
    | Built(number: nat, base: nat, ok: bool, empty: bool)
    | FlushLogging(added: set<nat>, logNumber: nat)

  /** A compaction of `inputs`, which holds on to the version it was picked from. */
  datatype Compaction =
    | NoCompaction
    | Working(inputVersion: nat, inputs: set<nat>, outputs: set<nat>, created: set<nat>)
    | CompactionLogging(inputVersion: nat, inputs: set<nat>, outputs: set<nat>)
    | MoveLogging

  datatype State = State(
    disk: set<File>, nextFile: nat, pending: set<nat>,
    versions: map<nat, Version>, current: nat, nextVersion: nat, readers: multiset<nat>,
    memLog: nat, immLog: Option<nat>,
    logNumber: nat, prevLog: nat, manifest: nat,
    named: set<nat>,           // tables that the MANIFEST may name, whatever became of the last write
    bgError: bool, flush: Flush, compaction: Compaction)

  // ------------------------------------------------------------------------ steps

  function Ref(vs: map<nat, Version>, id: nat): map<nat, Version>
    requires id in vs
  {
    vs[id := Version(vs[id].tables, vs[id].refs + 1)]
  }

  /** A version leaves the list with its last reference. */
  function Unref(vs: map<nat, Version>, id: nat): map<nat, Version>
    requires id in vs && vs[id].refs > 0
  {
    if vs[id].refs == 1 then vs - {id} else vs[id := Version(vs[id].tables, vs[id].refs - 1)]
  }

  ghost predicate Live(s: State, table: nat) {
    table in s.pending || exists id :: id in s.versions && table in s.versions[id].tables
  }

  ghost predicate Keep(s: State, f: File) {
    match f
    case Table(n) => Live(s, n)
    case Log(n) => n >= s.logNumber || n == s.prevLog
    case Manifest(n) => n >= s.manifest
  }

  ghost function DeleteObsoleteFiles(s: State): State {
    if s.bgError then s else s.(disk := set f | f in s.disk && Keep(s, f))
  }

  /** The edit of LogAndApply has been written (or not) and the mutex is held again. */
  ghost function Install(s: State, tables: set<nat>, logNumber: nat, ok: bool): State
    requires s.current in s.versions && s.versions[s.current].refs > 0 && s.nextVersion !in s.versions
  {
    if ok then
      s.(versions := Unref(s.versions, s.current)[s.nextVersion := Version(tables, 1)],
         current := s.nextVersion, nextVersion := s.nextVersion + 1,
         logNumber := logNumber, prevLog := 0,
         named := if s.bgError then s.named + tables else tables)
    else s.(bgError := true)
  }

  ghost predicate CurrentOk(s: State) {
    s.current in s.versions && s.versions[s.current].refs > 0 && s.nextVersion !in s.versions
  }

  ghost function Tables(s: State): set<nat>
    requires s.current in s.versions
  {
    s.versions[s.current].tables
  }

  /** Get, and iterators, take a reference to the current version. */
  ghost predicate Acquire(s: State, s': State) {
    CurrentOk(s) && s' == s.(versions := Ref(s.versions, s.current), readers := s.readers + multiset{s.current})
  }

  ghost predicate Release(s: State, s': State, id: nat) {
    && s.readers[id] > 0 && id in s.versions && s.versions[id].refs > 0
    && s' == s.(versions := Unref(s.versions, id), readers := s.readers - multiset{id})
  }

  /** MakeRoomForWrite starts a new log and memtable. */
  ghost predicate SwitchMemtable(s: State, s': State) {
    && s.immLog.None? && !s.bgError
    && s' == s.(disk := s.disk + {Log(s.nextFile)}, nextFile := s.nextFile + 1, immLog := Some(s.memLog), memLog := s.nextFile)
  }

  /** The background thread flushes at the start of its work or inside a compaction. */
  ghost predicate MayFlush(s: State) {
    s.immLog.Some? && s.flush == NoFlush && (s.compaction.Working? || (s.compaction == NoCompaction && !s.bgError))
  }

  /** WriteLevel0Table up to its first unlock. */
  ghost predicate BeginFlush(s: State, s': State) {
    && MayFlush(s) && CurrentOk(s)
    && s' == s.(nextFile := s.nextFile + 1, pending := s.pending + {s.nextFile},
                versions := Ref(s.versions, s.current), flush := Building(s.nextFile, s.current, false))
  }

  ghost predicate CreateFlushFile(s: State, s': State) {
    && s.flush.Building? && !s.flush.created
    && s' == s.(disk := s.disk + {Table(s.flush.number)}, flush := s.flush.(created := true))
  }

  /** BuildTable ends; it removes a file that is empty or could not be written. */
  ghost predicate EndBuild(s: State, s': State, ok: bool, empty: bool) {
    && s.flush.Building? && (ok && !empty ==> s.flush.created)
    && s' == s.(disk := if ok && !empty then s.disk else s.disk - {Table(s.flush.number)},
                flush := Built(s.flush.number, s.flush.base, ok, empty))
  }

  /** From the second lock to the unlock in LogAndApply: the table is no longer pending. */
  ghost predicate ApplyFlush(s: State, s': State, shuttingDown: bool) {
    && s.flush.Built? && s.flush.base in s.versions && s.versions[s.flush.base].refs > 0 && s.current in s.versions
    && var s1 := s.(pending := s.pending - {s.flush.number}, versions := Unref(s.versions, s.flush.base));
       s' == if !s.flush.ok || shuttingDown then s1.(bgError := true, flush := NoFlush)
             else
               var added := if s.flush.empty then {} else {s.flush.number};
               s1.(flush := FlushLogging(added, s.memLog), named := s.named + added)
  }

  /** The rest of CompactMemTable. */
  ghost predicate EndFlush(s: State, s': State, ok: bool) {
    && s.flush.FlushLogging? && CurrentOk(s)
    && var s1 := Install(s, Tables(s) + s.flush.added, s.flush.logNumber, ok);
       s' == if ok then DeleteObsoleteFiles(s1.(flush := NoFlush, immLog := None)) else s1.(flush := NoFlush)
  }

  /** A trivial move names the same tables at other levels. */
  ghost predicate BeginMove(s: State, s': State) {
    && s.compaction == NoCompaction && s.flush == NoFlush && !s.bgError
    && s' == s.(compaction := MoveLogging)
  }

  ghost predicate EndMove(s: State, s': State, ok: bool) {
    && s.compaction.MoveLogging? && CurrentOk(s)
    && s' == Install(s, Tables(s), s.logNumber, ok).(compaction := NoCompaction)
  }

  ghost predicate BeginCompaction(s: State, s': State, inputs: set<nat>) {
    && s.compaction == NoCompaction && s.flush == NoFlush && !s.bgError && CurrentOk(s) && inputs <= Tables(s)
    && s' == s.(versions := Ref(s.versions, s.current), compaction := Working(s.current, inputs, {}, {}))
  }

  /** OpenCompactionOutputFile: a number under the mutex, then the file. */
  ghost predicate NewOutput(s: State, s': State) {
    && s.compaction.Working? && s.flush == NoFlush
    && s' == s.(nextFile := s.nextFile + 1, pending := s.pending + {s.nextFile},
                compaction := Working(s.compaction.inputVersion, s.compaction.inputs,
                                      s.compaction.outputs + {s.nextFile}, s.compaction.created))
  }

  ghost predicate CreateOutput(s: State, s': State, n: nat) {
    && s.compaction.Working? && s.flush == NoFlush && n in s.compaction.outputs
    && s' == s.(disk := s.disk + {Table(n)}, compaction := s.compaction.(created := s.compaction.created + {n}))
  }

  /** CleanupCompaction, ReleaseInputs and DeleteObsoleteFiles. */
  ghost function Cleanup(s: State, inputVersion: nat, outputs: set<nat>): State
    requires inputVersion in s.versions && s.versions[inputVersion].refs > 0
  {
    DeleteObsoleteFiles(s.(pending := s.pending - outputs, versions := Unref(s.versions, inputVersion), compaction := NoCompaction))
  }

  /** The merge loop ends: with an error, or with every output in place. */
  ghost predicate EndWork(s: State, s': State, ok: bool) {
    && s.compaction.Working? && s.flush == NoFlush
    && s.compaction.inputVersion in s.versions && s.versions[s.compaction.inputVersion].refs > 0
    && var c := s.compaction;
       if ok then
         && c.outputs == c.created
         && s' == s.(compaction := CompactionLogging(c.inputVersion, c.inputs, c.outputs), named := s.named + c.outputs)
       else s' == Cleanup(s.(bgError := true), c.inputVersion, c.outputs)
  }

  ghost predicate EndCompaction(s: State, s': State, ok: bool) {
    && s.compaction.CompactionLogging? && CurrentOk(s)
    && var c, s1 := s.compaction, Install(s, (Tables(s) - s.compaction.inputs) + s.compaction.outputs, s.logNumber, ok);
       && c.inputVersion in s1.versions && s1.versions[c.inputVersion].refs > 0
       && s' == Cleanup(s1, c.inputVersion, c.outputs)
  }

  /** A writer whose Sync of the log failed records the error, whatever the background thread is
      about (RecordBackgroundError, called by Write). */
  ghost predicate FailWrite(s: State, s': State) {
    s' == s.(bgError := true)
  }

  ghost predicate Next(s: State, s': State) {
    || Acquire(s, s') || (exists id :: Release(s, s', id)) || SwitchMemtable(s, s') || FailWrite(s, s')
    || BeginFlush(s, s') || CreateFlushFile(s, s') || (exists ok, empty :: EndBuild(s, s', ok, empty))
    || (exists shuttingDown :: ApplyFlush(s, s', shuttingDown)) || EndFlush(s, s', true) || EndFlush(s, s', false)
    || BeginMove(s, s') || EndMove(s, s', true) || EndMove(s, s', false)
    || (exists inputs :: BeginCompaction(s, s', inputs)) || NewOutput(s, s') || (exists n :: CreateOutput(s, s', n))
    || EndWork(s, s', true) || EndWork(s, s', false) || EndCompaction(s, s', true) || EndCompaction(s, s', false)
  }

  /** A database just opened: one version, whose tables, log and MANIFEST are there. */
  ghost predicate Init(s: State) {
    && s.versions == map[0 := Version(s.named, 1)] && s.current == 0 && s.nextVersion == 1 && s.readers == multiset{}
    && s.pending == {} && s.immLog == None && !s.bgError && s.flush == NoFlush && s.compaction == NoCompaction
    && (forall t :: t in s.named ==> Table(t) in s.disk && t < s.nextFile)
    && Log(s.memLog) in s.disk && s.logNumber <= s.memLog < s.nextFile && Manifest(s.manifest) in s.disk
  }

  // -------------------------------------------------------------------- invariant

  /** How many references the holders account for. */
  ghost function Holders(s: State, id: nat): nat {
    (if id == s.current then 1 else 0) + s.readers[id]
    + (if (s.flush.Building? || s.flush.Built?) && s.flush.base == id then 1 else 0)
    + (if (s.compaction.Working? || s.compaction.CompactionLogging?) && s.compaction.inputVersion == id then 1 else 0)
  }

  ghost predicate Counted(s: State) {
    && (forall id :: id in s.versions ==> 0 < s.versions[id].refs == Holders(s, id))
    && (forall id :: Holders(s, id) > 0 ==> id in s.versions)
    && (forall id :: id in s.versions ==> id < s.nextVersion)
  }

  ghost predicate OnDisk(s: State, tables: set<nat>) {
    forall t :: t in tables ==> Table(t) in s.disk && t < s.nextFile
  }

  ghost predicate VersionsOnDisk(s: State) {
    (forall id :: id in s.versions ==> OnDisk(s, s.versions[id].tables)) && OnDisk(s, s.named)
  }

  /** Unless an error stopped the collector, what the MANIFEST may name is in the current
      version or about to enter it. */
  ghost predicate NamedOk(s: State)
    requires s.current in s.versions
  {
    !s.bgError ==>
      s.named <= Tables(s) + (if s.flush.FlushLogging? then s.flush.added else {})
                           + (if s.compaction.CompactionLogging? then s.compaction.outputs else {})
  }

  ghost predicate FlushOk(s: State) {
    match s.flush
    case NoFlush => true
    case Building(n, base, created) =>
      n in s.pending && Unnamed(s, n) && (created ==> Table(n) in s.disk) && s.immLog.Some?
    case Built(n, base, ok, empty) =>
      n in s.pending && Unnamed(s, n) && (ok && !empty ==> Table(n) in s.disk) && s.immLog.Some?
    case FlushLogging(added, logNumber) =>
      OnDisk(s, added) && logNumber == s.memLog && s.immLog.Some?
  }

  /** A table number that nothing but the flush under way knows. */
  ghost predicate Unnamed(s: State, n: nat) {
    && n < s.nextFile && n !in s.named
    && (forall id :: id in s.versions ==> n !in s.versions[id].tables)
    && (s.compaction.Working? ==> n !in s.compaction.outputs)
  }

  ghost predicate CompactionOk(s: State) {
    match s.compaction
    case NoCompaction => true
    case MoveLogging => s.flush == NoFlush
    case Working(v, inputs, outputs, created) =>
      created <= outputs <= s.pending && OnDisk(s, created) && (forall n :: n in outputs ==> n < s.nextFile)
    case CompactionLogging(v, inputs, outputs) => s.flush == NoFlush && outputs <= s.pending && OnDisk(s, outputs)
  }

  ghost predicate LogsOk(s: State) {
    && Log(s.memLog) in s.disk && Manifest(s.manifest) in s.disk && s.memLog < s.nextFile
    && (if s.immLog.Some? then Log(s.immLog.value) in s.disk && s.logNumber <= s.immLog.value < s.memLog
        else s.logNumber <= s.memLog)
  }

  ghost predicate Inv(s: State) {
    Counted(s) && VersionsOnDisk(s) && s.current in s.versions && NamedOk(s) && FlushOk(s) && CompactionOk(s) && LogsOk(s)
  }

  // ------------------------------------------------------------- the steps keep it

  /** The collector spares everything the invariant speaks of. */
  lemma CollectKeepsInv(s: State)
    requires Inv(s) && s.flush == NoFlush && !s.compaction.CompactionLogging?
    ensures Inv(DeleteObsoleteFiles(s))
  {
    var s' := DeleteObsoleteFiles(s);
    forall id, t | id in s.versions && t in s.versions[id].tables ensures Table(t) in s'.disk {
      assert OnDisk(s, s.versions[id].tables);
    }
    if !s.bgError {
      forall t | t in s.named ensures Table(t) in s'.disk {
        assert t in s.versions[s.current].tables;
      }
    }
  }

  lemma UnrefCounts(s: State, s': State, id: nat)
    requires Counted(s) && id in s.versions
    requires s'.versions == Unref(s.versions, id) && s'.nextVersion == s.nextVersion
    requires forall j :: Holders(s', j) == Holders(s, j) - if j == id then 1 else 0
    ensures Counted(s')
  {
    forall j | j in s'.versions ensures 0 < s'.versions[j].refs == Holders(s', j) {
      assert s.versions[j].refs == Holders(s, j);
    }
    forall j | Holders(s', j) > 0 ensures j in s'.versions {
      assert j in s.versions && s.versions[j].refs == Holders(s, j);
    }
  }

  lemma RefCounts(s: State, s': State)
    requires Counted(s) && s.current in s.versions
    requires s'.versions == Ref(s.versions, s.current) && s'.nextVersion == s.nextVersion
    requires forall j :: Holders(s', j) == Holders(s, j) + if j == s.current then 1 else 0
    ensures Counted(s')
  {
    forall j | Holders(s', j) > 0 ensures j in s'.versions {
      assert j == s.current || Holders(s, j) > 0;
    }
  }

  lemma AcquireKeepsInv(s: State, s': State)
    requires Inv(s) && Acquire(s, s')
    ensures Inv(s')
  {
    RefCounts(s, s');
  }

  lemma UnrefReleased(s: State, s': State, id: nat)
    requires Counted(s) && s.current in s.versions && Release(s, s', id)
    ensures Counted(s') && s'.current in s'.versions
  {
    UnrefCounts(s, s', id);
    assert Holders(s', s.current) > 0;
  }

  lemma ReleaseKeepsInv(s: State, s': State, id: nat)
    requires Inv(s) && Release(s, s', id)
    ensures Inv(s')
  {
    hide Counted;
    UnrefReleased(s, s', id);
  }

  lemma SwitchKeepsInv(s: State, s': State)
    requires Inv(s) && SwitchMemtable(s, s')
    ensures Inv(s')
  {
    forall id | id in s'.versions ensures OnDisk(s', s'.versions[id].tables) {
      assert OnDisk(s, s.versions[id].tables);
    }
  }

  lemma BeginFlushKeepsInv(s: State, s': State)
    requires Inv(s) && BeginFlush(s, s')
    ensures Inv(s')
  {
    RefCounts(s, s');
    forall id | id in s'.versions ensures OnDisk(s', s'.versions[id].tables) && s.nextFile !in s'.versions[id].tables {
      assert OnDisk(s, s.versions[id].tables);
    }
  }

  lemma CreateFlushFileKeepsInv(s: State, s': State)
    requires Inv(s) && CreateFlushFile(s, s')
    ensures Inv(s')
  {
    forall id | id in s'.versions ensures OnDisk(s', s'.versions[id].tables) {
      assert OnDisk(s, s.versions[id].tables);
    }
  }

  lemma EndBuildKeepsInv(s: State, s': State, ok: bool, empty: bool)
    requires Inv(s) && EndBuild(s, s', ok, empty)
    ensures Inv(s')
  {
    forall id | id in s'.versions ensures OnDisk(s', s'.versions[id].tables) {
      assert OnDisk(s, s.versions[id].tables);
    }
    forall j ensures Holders(s', j) == Holders(s, j) {
    }
  }

  lemma ApplyFlushCounts(s: State, s': State, shuttingDown: bool)
    requires Inv(s) && ApplyFlush(s, s', shuttingDown)
    ensures Counted(s') && s'.current in s'.versions
  {
    forall j ensures Holders(s', j) == Holders(s, j) - if j == s.flush.base then 1 else 0 {
    }
    UnrefCounts(s, s', s.flush.base);
    assert Holders(s', s.current) > 0;
  }

  lemma ApplyFlushKeepsInv(s: State, s': State, shuttingDown: bool)
    requires Inv(s) && ApplyFlush(s, s', shuttingDown)
    ensures Inv(s')
  {
    ApplyFlushCounts(s, s', shuttingDown);
    ApplyFlushKeepsFiles(s, s', shuttingDown);
    assert NamedOk(s') && LogsOk(s');
  }

  lemma ApplyFlushKeepsFiles(s: State, s': State, shuttingDown: bool)
    requires Inv(s) && ApplyFlush(s, s', shuttingDown)
    ensures VersionsOnDisk(s') && FlushOk(s') && CompactionOk(s')
  {
    forall id | id in s'.versions ensures OnDisk(s', s'.versions[id].tables) {
      assert OnDisk(s, s.versions[id].tables);
    }
    assert OnDisk(s', s'.named);
  }

  /** A new version takes over from the current one. */
  lemma InstallKeepsVersions(s: State, tables: set<nat>, logNumber: nat, s1: State)
    requires Inv(s) && OnDisk(s, tables)
    requires CurrentOk(s)
    requires var i := Install(s, tables, logNumber, true);
             s1.versions == i.versions && s1.current == i.current && s1.nextVersion == i.nextVersion && s1.named == i.named
             && s1.disk == s.disk && s1.nextFile == s.nextFile && s1.readers == s.readers
    requires s.flush.Building? || s.flush.Built? ==> s1.flush == s.flush
    requires s1.flush.Building? || s1.flush.Built? ==> s1.flush == s.flush
    requires s1.compaction == s.compaction || (s.compaction.MoveLogging? && s1.compaction == NoCompaction)
    ensures Counted(s1) && VersionsOnDisk(s1)
  {
    forall id | id in s1.versions ensures OnDisk(s1, s1.versions[id].tables) {
      assert id != s.nextVersion ==> OnDisk(s, s.versions[id].tables);
    }
    assert Holders(s, s.nextVersion) == 0;
    forall j ensures Holders(s1, j) == if j == s.nextVersion then 1 else if j == s.current then Holders(s, j) - 1 else Holders(s, j) {
    }
    forall j | j in s1.versions ensures 0 < s1.versions[j].refs == Holders(s1, j) && j < s1.nextVersion {
      assert j != s.nextVersion ==> s.versions[j].refs == Holders(s, j);
    }
    forall j | Holders(s1, j) > 0 ensures j in s1.versions {
      assert j != s.nextVersion ==> j in s.versions && s.versions[j].refs == Holders(s, j);
    }
  }

  lemma FailedInstallKeepsInv(s: State, s': State)
    requires Inv(s)
    requires (s.flush.FlushLogging? && s' == s.(bgError := true, flush := NoFlush))
          || (s.compaction.MoveLogging? && s' == s.(bgError := true, compaction := NoCompaction))
    ensures Inv(s')
  {
    forall j ensures Holders(s', j) == Holders(s, j) {
    }
    forall id | id in s'.versions ensures OnDisk(s', s'.versions[id].tables) {
      assert OnDisk(s, s.versions[id].tables);
    }
  }

  lemma EndFlushKeepsInv(s: State, s': State, ok: bool)
    requires Inv(s) && EndFlush(s, s', ok)
    ensures Inv(s')
  {
    if ok {
      var tables := Tables(s) + s.flush.added;
      var s1 := Install(s, tables, s.flush.logNumber, true).(flush := NoFlush, immLog := None);
      assert OnDisk(s, Tables(s));
      InstallKeepsVersions(s, tables, s.flush.logNumber, s1);
      CollectKeepsInv(s1);
    } else {
      FailedInstallKeepsInv(s, s');
    }
  }

  lemma EndMoveKeepsInv(s: State, s': State, ok: bool)
    requires Inv(s) && EndMove(s, s', ok)
    ensures Inv(s')
  {
    if ok {
      assert OnDisk(s, Tables(s));
      InstallKeepsVersions(s, Tables(s), s.logNumber, s');
    } else {
      FailedInstallKeepsInv(s, s');
    }
  }

  lemma BeginCompactionKeepsInv(s: State, s': State, inputs: set<nat>)
    requires Inv(s) && BeginCompaction(s, s', inputs)
    ensures Inv(s')
  {
    RefCounts(s, s');
  }

  lemma NewOutputKeepsInv(s: State, s': State)
    requires Inv(s) && NewOutput(s, s')
    ensures Inv(s')
  {
    forall id | id in s'.versions ensures OnDisk(s', s'.versions[id].tables) {
      assert OnDisk(s, s.versions[id].tables);
    }
    forall j ensures Holders(s', j) == Holders(s, j) {
    }
  }

  lemma CreateOutputKeepsInv(s: State, s': State, n: nat)
    requires Inv(s) && CreateOutput(s, s', n)
    ensures Inv(s')
  {
    forall id | id in s'.versions ensures OnDisk(s', s'.versions[id].tables) {
      assert OnDisk(s, s.versions[id].tables);
    }
    forall j ensures Holders(s', j) == Holders(s, j) {
    }
  }

  /** Everything of the invariant but the current compaction. */
  ghost predicate Core(s: State) {
    Counted(s) && VersionsOnDisk(s) && s.current in s.versions && LogsOk(s) && (!s.bgError ==> s.named <= Tables(s))
  }

  lemma CleanupKeepsInv(s: State, inputVersion: nat, outputs: set<nat>)
    requires Core(s) && s.flush == NoFlush
    requires (s.compaction.Working? || s.compaction.CompactionLogging?) && s.compaction.inputVersion == inputVersion
    requires inputVersion in s.versions && s.versions[inputVersion].refs > 0
    ensures Inv(Cleanup(s, inputVersion, outputs))
  {
    var s1 := s.(pending := s.pending - outputs, versions := Unref(s.versions, inputVersion), compaction := NoCompaction);
    UnrefCounts(s, s1, inputVersion);
    assert Holders(s1, s.current) > 0;
    forall id | id in s1.versions ensures OnDisk(s1, s1.versions[id].tables) {
      assert OnDisk(s, s.versions[id].tables);
    }
    CollectKeepsInv(s1);
  }

  lemma EndWorkKeepsInv(s: State, s': State, ok: bool)
    requires Inv(s) && EndWork(s, s', ok)
    ensures Inv(s')
  {
    if ok {
      forall j ensures Holders(s', j) == Holders(s, j) {
      }
      forall id | id in s'.versions ensures OnDisk(s', s'.versions[id].tables) {
        assert OnDisk(s, s.versions[id].tables);
      }
    } else {
      var s1 := s.(bgError := true);
      forall id | id in s1.versions ensures OnDisk(s1, s1.versions[id].tables) {
        assert OnDisk(s, s.versions[id].tables);
      }
      forall j ensures Holders(s1, j) == Holders(s, j) {
      }
      CleanupKeepsInv(s1, s.compaction.inputVersion, s.compaction.outputs);
    }
  }

  lemma EndCompactionKeepsInv(s: State, s': State, ok: bool)
    requires Inv(s) && EndCompaction(s, s', ok)
    ensures Inv(s')
  {
    var c := s.compaction;
    var tables := (Tables(s) - c.inputs) + c.outputs;
    var s1 := Install(s, tables, s.logNumber, ok);
    assert OnDisk(s, Tables(s));
    if ok {
      InstallKeepsVersions(s, tables, s.logNumber, s1);
    } else {
      forall id | id in s1.versions ensures OnDisk(s1, s1.versions[id].tables) {
        assert OnDisk(s, s.versions[id].tables);
      }
      forall j ensures Holders(s1, j) == Holders(s, j) {
      }
    }
    CleanupKeepsInv(s1, c.inputVersion, c.outputs);
  }

  lemma FailWriteKeepsInv(s: State, s': State)
    requires Inv(s) && FailWrite(s, s')
    ensures Inv(s')
  {
  }

  lemma StepKeepsInv(s: State, s': State)
    requires Inv(s) && Next(s, s')
    ensures Inv(s')
  {
    if Acquire(s, s') {
      AcquireKeepsInv(s, s');
    } else if id :| Release(s, s', id) {
      ReleaseKeepsInv(s, s', id);
    } else if SwitchMemtable(s, s') {
      SwitchKeepsInv(s, s');
    } else if FailWrite(s, s') {
      FailWriteKeepsInv(s, s');
    } else if BeginFlush(s, s') {
      BeginFlushKeepsInv(s, s');
    } else if CreateFlushFile(s, s') {
      CreateFlushFileKeepsInv(s, s');
    } else if ok, empty :| EndBuild(s, s', ok, empty) {
      EndBuildKeepsInv(s, s', ok, empty);
    } else if shuttingDown :| ApplyFlush(s, s', shuttingDown) {
      ApplyFlushKeepsInv(s, s', shuttingDown);
    } else if EndFlush(s, s', true) {
      EndFlushKeepsInv(s, s', true);
    } else if EndFlush(s, s', false) {
      EndFlushKeepsInv(s, s', false);
    } else if EndMove(s, s', true) {
      EndMoveKeepsInv(s, s', true);
    } else if EndMove(s, s', false) {
      EndMoveKeepsInv(s, s', false);
    } else {
      LaterStepKeepsInv(s, s');
    }
  }

  lemma LaterStepKeepsInv(s: State, s': State)
    requires Inv(s)
    requires BeginMove(s, s') || (exists inputs :: BeginCompaction(s, s', inputs)) || NewOutput(s, s') || (exists n :: CreateOutput(s, s', n))
          || EndWork(s, s', true) || EndWork(s, s', false) || EndCompaction(s, s', true) || EndCompaction(s, s', false)
    ensures Inv(s')
  {
    if BeginMove(s, s') {
      BeginMoveKeepsInv(s, s');
    } else if inputs :| BeginCompaction(s, s', inputs) {
      BeginCompactionKeepsInv(s, s', inputs);
    } else if NewOutput(s, s') {
      NewOutputKeepsInv(s, s');
    } else if n :| CreateOutput(s, s', n) {
      CreateOutputKeepsInv(s, s', n);
    } else if EndWork(s, s', true) {
      EndWorkKeepsInv(s, s', true);
    } else if EndWork(s, s', false) {
      EndWorkKeepsInv(s, s', false);
    } else if EndCompaction(s, s', true) {
      EndCompactionKeepsInv(s, s', true);
    } else {
      EndCompactionKeepsInv(s, s', false);
    }
  }

  lemma BeginMoveKeepsInv(s: State, s': State)
    requires Inv(s) && BeginMove(s, s')
    ensures Inv(s')
  {
    forall j ensures Holders(s', j) == Holders(s, j) {
    }
    forall id | id in s'.versions ensures OnDisk(s', s'.versions[id].tables) {
      assert OnDisk(s, s.versions[id].tables);
    }
  }

  // ---------------------------------------------------------------- over every run

  ghost predicate StepAt(states: seq<State>, i: nat)
    requires i + 1 < |states|
  {
    Next(states[i], states[i + 1])
  }

  ghost predicate Run(states: seq<State>) {
    && states != []
    && Init(states[0])
    && forall i :: 0 <= i < |states| - 1 ==> StepAt(states, i)
  }

  lemma InitEstablishesInv(s: State)
    requires Init(s)
    ensures Inv(s)
  {
    assert OnDisk(s, s.named);
    forall id ensures Holders(s, id) == if id == 0 then 1 else 0 {
    }
  }

  lemma {:induction false} RunsKeepInv(states: seq<State>, n: nat)
    requires Run(states) && n < |states|
    ensures Inv(states[n])
  {
    if n == 0 {
      InitEstablishesInv(states[0]);
    } else {
      RunsKeepInv(states, n - 1);
      assert StepAt(states, n - 1);
      StepKeepsInv(states[n - 1], states[n]);
    }
  }

  /** In every interleaving, whatever writes fail: every table of a referenced version,
      every table the MANIFEST may name after a crash, every flushed table and compaction
      output created so far, the logs of both memtables and the MANIFEST are on disk. */
  lemma NothingNeededIsRemoved(states: seq<State>, n: nat)
    requires Run(states) && n < |states|
    ensures var s := states[n];
      && (forall id, t :: id in s.versions && t in s.versions[id].tables ==> Table(t) in s.disk)
      && (forall id :: s.readers[id] > 0 ==> id in s.versions)
      && s.current in s.versions
      && (forall t :: t in s.named ==> Table(t) in s.disk)
      && (s.compaction.Working? ==> forall t :: t in s.compaction.created ==> Table(t) in s.disk)
      && (s.compaction.CompactionLogging? ==> forall t :: t in s.compaction.outputs ==> Table(t) in s.disk)
      && (s.flush.Building? && s.flush.created ==> Table(s.flush.number) in s.disk)
      && (s.flush.Built? && s.flush.ok && !s.flush.empty ==> Table(s.flush.number) in s.disk)
      && (s.flush.FlushLogging? ==> forall t :: t in s.flush.added ==> Table(t) in s.disk)
      && Log(s.memLog) in s.disk && (s.immLog.Some? ==> Log(s.immLog.value) in s.disk)
      && Manifest(s.manifest) in s.disk
  {
    RunsKeepInv(states, n);
    var s := states[n];
    forall id, t | id in s.versions && t in s.versions[id].tables ensures Table(t) in s.disk {
      assert OnDisk(s, s.versions[id].tables);
    }
    forall id | s.readers[id] > 0 ensures id in s.versions {
      assert Holders(s, id) > 0;
    }
  }

  // ------------------------------------------------------------- nothing is kept in vain

  /** The table numbers that work in progress has reserved. */
  ghost function Reserved(s: State): set<nat> {
    (if s.flush.Building? || s.flush.Built? then {s.flush.number} else {})
    + if s.compaction.Working? || s.compaction.CompactionLogging? then s.compaction.outputs else {}
  }

  /** A step that is not the last of its flush or compaction. */
  lemma ReservedWhileWorking(s: State, s': State)
    requires Inv(s) && s.pending == Reserved(s)
    requires Acquire(s, s') || (exists id :: Release(s, s', id)) || SwitchMemtable(s, s') || FailWrite(s, s') || BeginFlush(s, s') || CreateFlushFile(s, s')
          || (exists ok, empty :: EndBuild(s, s', ok, empty)) || BeginMove(s, s') || EndMove(s, s', true) || EndMove(s, s', false)
          || (exists inputs :: BeginCompaction(s, s', inputs)) || NewOutput(s, s') || (exists n :: CreateOutput(s, s', n))
    ensures s'.pending == Reserved(s')
  {
    hide Counted, VersionsOnDisk, NamedOk, LogsOk;
  }

  lemma ReservedAtTheEnd(s: State, s': State)
    requires Inv(s) && s.pending == Reserved(s)
    requires (exists shuttingDown :: ApplyFlush(s, s', shuttingDown)) || EndFlush(s, s', true) || EndFlush(s, s', false)
          || EndWork(s, s', true) || EndWork(s, s', false) || EndCompaction(s, s', true) || EndCompaction(s, s', false)
    ensures s'.pending == Reserved(s')
  {
    hide Counted, VersionsOnDisk, NamedOk, LogsOk;
  }

  /** A number leaves pending_outputs with the work that reserved it: none is kept forever. */
  lemma {:induction false} PendingIsReserved(states: seq<State>, n: nat)
    requires Run(states) && n < |states|
    ensures states[n].pending == Reserved(states[n])
  {
    hide Inv, Reserved, Acquire, Release, SwitchMemtable, FailWrite, BeginFlush, CreateFlushFile, EndBuild, BeginMove, EndMove, BeginCompaction, NewOutput,
         CreateOutput, ApplyFlush, EndFlush, EndWork, EndCompaction;
    if n == 0 {
      NothingReserved(states[0]);
    } else {
      PendingIsReserved(states, n - 1);
      RunsKeepInv(states, n - 1);
      assert StepAt(states, n - 1);
      var s, s' := states[n - 1], states[n];
      if (exists shuttingDown :: ApplyFlush(s, s', shuttingDown)) || EndFlush(s, s', true) || EndFlush(s, s', false)
         || EndWork(s, s', true) || EndWork(s, s', false) || EndCompaction(s, s', true) || EndCompaction(s, s', false) {
        ReservedAtTheEnd(s, s');
      } else {
        ReservedWhileWorking(s, s');
      }
    }
  }

  lemma NothingReserved(s: State)
    requires Init(s)
    ensures s.pending == Reserved(s)
  {
  }

  ghost predicate Held(s: State, table: nat) {
    exists id :: id in s.versions && table in s.versions[id].tables
  }

  /** The collector leaves no garbage: in every run, right after a successful flush or
      compaction without an earlier error, the tables on disk are those of the referenced
      versions and outputs of a compaction still at work, and no log is older than needed. */
  lemma GarbageIsRemoved(states: seq<State>, n: nat)
    requires Run(states) && n + 1 < |states| && !states[n].bgError
    requires EndFlush(states[n], states[n + 1], true) || EndCompaction(states[n], states[n + 1], true)
    ensures var s := states[n + 1];
      && (forall t: nat :: Table(t) in s.disk ==> Held(s, t) || (s.compaction.Working? && t in s.compaction.outputs))
      && (forall t :: Held(s, t) || (s.compaction.Working? && t in s.compaction.created) ==> Table(t) in s.disk)
      && (forall l: nat :: Log(l) in s.disk ==> l >= s.logNumber || l == s.prevLog)
  {
    NothingNeededIsRemoved(states, n + 1);
    PendingIsReserved(states, n + 1);
    RunsKeepInv(states, n);
    Collected(states[n], states[n + 1]);
  }

  lemma Collected(s: State, s': State)
    requires Inv(s) && !s.bgError && (EndFlush(s, s', true) || EndCompaction(s, s', true))
    ensures s'.flush == NoFlush && !s'.compaction.CompactionLogging?
    ensures forall f :: f in s'.disk ==> Keep(s', f)
  {
  }
}
