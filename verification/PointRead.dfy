/** Point reads: memtables, then the levels of a version (db/db_impl.cc DBImpl::Get,
    db/memtable.cc MemTable::Get, db/version_set.cc Version::Get). */
module PointRead {
  import opened Wrappers
  import opened DbFormat
  import opened Tables
  import opened VersionedMap
  import opened Version

  datatype GetResult = NotFound | Value(value: seq<bv8>) | Corruption {
    ghost predicate Answers(a: Answer) {
      match this
      case NotFound => a == Absent
      case Value(v) => a == Found(v)
      case Corruption => false
    }
  }

  // ------------------------------------------------------------- one sorted table

  /** An entry of `k` at or after the lookup target, whatever its type. */
  predicate Reaches(e: Entry, k: UserKey, s: Sequence) {
    e.key == k && !BeforeTarget(e, k, s)
  }

  /** Where a seek for `(k, s)` lands. */
  function FirstAtOrAfter(entries: seq<Entry>, k: UserKey, s: Sequence): Option<Entry> {
    if entries == [] then None
    else if BeforeTarget(entries[0], k, s) then FirstAtOrAfter(entries[1..], k, s)
    else Some(entries[0])
  }

  /** A seek that lands on an entry of `k` has found the newest visible one, unless its
      type is unknown; any other landing means that no entry of `k` can be reached. */
  lemma {:induction false} SeekDecides(entries: seq<Entry>, k: UserKey, s: Sequence)
    requires Sorted(entries)
    ensures var hit := FirstAtOrAfter(entries, k, s);
            && (hit.Some? ==> hit.value in entries)
            && (hit.Some? && hit.value.key == k && hit.value.Parses() ==> Newest(hit.value, Elems(entries), k, s))
            && (hit.None? || hit.value.key != k ==> forall x :: x in entries ==> !Reaches(x, k, s))
  {
    if entries != [] {
      if BeforeTarget(entries[0], k, s) {
        var rest := entries[1..];
        SeekDecides(rest, k, s);
        assert entries == [entries[0]] + rest;
        assert !Visible(entries[0], k, s);
        assert forall x :: x in entries ==> x == entries[0] || x in rest;
      } else {
        forall x | x in entries && x.key == k ensures entries[0].key <= k && (entries[0].key == k ==> x.seqno <= entries[0].seqno) {
          var i :| 0 <= i < |entries| && entries[i] == x;
          if i > 0 {
            assert Precedes(entries[0], entries[i]);
          }
        }
      }
    }
  }

  /** `TableCache::Get` with the `SaveValue` callback.  `mayMatch` is the filter; a table
      whose filter rejects the key is not read. */
  method SearchTable(f: File, k: UserKey, s: Sequence,
                     mayMatch: (File, UserKey) -> bool) returns (hit: Option<Entry>, corrupt: bool)
    requires forall e :: e in f.entries ==> mayMatch(f, e.key)
    ensures corrupt ==> exists e :: e in f.entries && !e.Parses()
    ensures !corrupt && hit.Some? ==> Newest(hit.value, Elems(f.entries), k, s)
    ensures !corrupt && hit.None? ==> forall x :: x in f.entries ==> !Reaches(x, k, s)
  {
    hit, corrupt := None, false;
    SeekDecides(f.entries, k, s);
    if mayMatch(f, k) {
      var landed := FirstAtOrAfter(f.entries, k, s);
      if landed.Some? {
        if !landed.value.Parses() {
          corrupt := true;
        } else if landed.value.key == k {
          hit := landed;
        }
      }
    }
  }

  // ------------------------------------------------------------------ the levels

  /** What lookups rely on: for one user key, levels are ordered from new to old. */
  ghost predicate LevelOrder(levels: Levels) {
    && (forall l :: 1 <= l < NUM_LEVELS ==> Disjoint(levels[l]))
    && Level0Order(levels[0])
    && (forall i, j :: 0 <= i < j < NUM_LEVELS ==> NewerThan(LevelEntries(levels[i]), LevelEntries(levels[j])))
  }

  /** Level 0 may overlap; a higher file number means newer entries. */
  ghost predicate Level0Order(files: seq<File>) {
    && (forall f, g :: f in files && g in files && f.number > g.number ==> NewerThan(Elems(f.entries), Elems(g.entries)))
    && (forall f, g :: f in files && g in files && f.number == g.number ==> f == g)
  }

  ghost function LevelEntries(files: seq<File>): set<Entry> {
    set f, e | f in files && e in f.entries :: e
  }

  ghost function AllEntries(levels: Levels): set<Entry> {
    set l, e | 0 <= l < NUM_LEVELS && e in LevelEntries(levels[l]) :: e
  }

  ghost predicate NewestFirst(files: seq<File>) {
    forall i, j :: 0 <= i < j < |files| ==> files[i].number >= files[j].number
  }

  lemma InsertedInOrder(sorted: seq<File>, p: nat, f: File)
    requires NewestFirst(sorted) && p <= |sorted|
    requires forall i :: 0 <= i < p ==> sorted[i].number >= f.number
    requires p < |sorted| ==> sorted[p].number <= f.number
    ensures NewestFirst(sorted[..p] + [f] + sorted[p..])
  {
    var r := sorted[..p] + [f] + sorted[p..];
    forall i, j | 0 <= i < j < |r| ensures r[i].number >= r[j].number {
      assert j > p ==> sorted[p].number >= sorted[j - 1].number || j - 1 == p;
    }
  }

  method InsertNewestFirst(sorted: seq<File>, f: File) returns (r: seq<File>)
    requires NewestFirst(sorted)
    ensures NewestFirst(r) && multiset(r) == multiset(sorted) + multiset{f}
  {
    var p := 0;
    while p < |sorted| && sorted[p].number >= f.number
      invariant p <= |sorted|
      invariant forall i :: 0 <= i < p ==> sorted[i].number >= f.number
    {
      p := p + 1;
    }
    InsertedInOrder(sorted, p, f);
    assert sorted == sorted[..p] + sorted[p..];
    r := sorted[..p] + [f] + sorted[p..];
  }

  /** `std::sort(tmp, NewestFirst)`. */
  method SortNewestFirst(files: seq<File>) returns (sorted: seq<File>)
    ensures NewestFirst(sorted) && multiset(sorted) == multiset(files)
  {
    sorted := [];
    for n := 0 to |files|
      invariant NewestFirst(sorted) && multiset(sorted) == multiset(files[..n])
    {
      assert files[..n + 1] == files[..n] + [files[n]];
      sorted := InsertNewestFirst(sorted, files[n]);
    }
    assert files[..|files|] == files;
  }

  /** Level 0: every file covering the user key, newest first. */
  method CoveringNewestFirst(files: seq<File>, k: UserKey) returns (found: seq<File>)
    ensures forall f :: f in found <==> f in files && f.Covers(k)
    ensures NewestFirst(found)
  {
    var tmp := [];
    for i := 0 to |files|
      invariant forall f :: f in tmp <==> f in files[..i] && f.Covers(k)
    {
      if files[i].Smallest().key <= k && k <= files[i].Largest().key {
        tmp := tmp + [files[i]];
      }
    }
    found := SortNewestFirst(tmp);
    forall f ensures f in found <==> f in tmp {
      assert f in multiset(found) <==> f in multiset(tmp);
    }
  }

  /** Levels >= 1: at most one file can decide.  A neighbour that shares the boundary user
      key holds only entries older than those of the file found. */
  method FileFor(files: seq<File>, k: UserKey, s: Sequence) returns (found: seq<File>)
    requires Disjoint(files)
    ensures |found| <= 1 && forall f :: f in found ==> f in files
    ensures forall g, x :: g in files && g !in found && x in g.entries && Reaches(x, k, s) ==>
              && found != []
              && Reaches(found[0].Largest(), k, s)
              && forall e :: e in found[0].entries && e.key == k ==> e.seqno >= x.seqno
  {
    found := [];
    var index := FindFile(files, k, Pack(s, KIND_FOR_SEEK));
    if index < |files| && k >= files[index].Smallest().key {
      found := [files[index]];
    }
    forall g, x | g in files && g !in found && x in g.entries && Reaches(x, k, s)
      ensures found != [] && Reaches(found[0].Largest(), k, s)
      ensures forall e :: e in found[0].entries && e.key == k ==> e.seqno >= x.seqno
    {
      var i :| 0 <= i < |files| && files[i] == g;
      FileBounds(g, x);
      assert i >= index;
      var f := files[index];
      FileBounds(f, f.Largest());
      if i > index {
        assert Precedes(f.Largest(), g.Smallest());
        forall e | e in f.entries && e.key == k ensures e.seqno >= x.seqno {
          FileBounds(f, e);
        }
      }
    }
  }

  /** Searches the candidate files of one level in order. */
  method SearchLevel(l: nat, level: seq<File>, k: UserKey, s: Sequence, mayMatch: (File, UserKey) -> bool)
    returns (hit: Option<Entry>, corrupt: bool)
    requires if l == 0 then Level0Order(level) else Disjoint(level)
    requires forall f, e :: f in level && e in f.entries ==> mayMatch(f, e.key)
    ensures corrupt ==> exists e :: e in LevelEntries(level) && !e.Parses()
    ensures !corrupt && hit.Some? ==> Newest(hit.value, LevelEntries(level), k, s)
    ensures !corrupt && hit.None? ==> forall x :: x in LevelEntries(level) ==> !Reaches(x, k, s)
  {
    var files;
    if l == 0 {
      files := CoveringNewestFirst(level, k);
    } else {
      files := FileFor(level, k, s);
    }
    for i := 0 to |files|
      invariant forall j, x :: 0 <= j < i && x in files[j].entries ==> !Reaches(x, k, s)
    {
      assert files[i] in files;
      hit, corrupt := SearchTable(files[i], k, s, mayMatch);
      if corrupt {
        return;
      }
      if hit.Some? {
        HitIsNewestInLevel(l, level, files, i, k, s, hit.value);
        return;
      }
    }
    hit, corrupt := None, false;
    NothingInLevel(l, level, files, k, s);
  }

  /** How the candidates of a level relate to the rest of it. */
  ghost predicate SearchOrder(l: nat, level: seq<File>, files: seq<File>, k: UserKey, s: Sequence) {
    && (forall f :: f in files ==> f in level)
    && (l == 0 ==> Level0Order(level) && NewestFirst(files) && forall f :: f in level && f.Covers(k) ==> f in files)
    && (l > 0 ==> |files| <= 1 && forall g, x :: g in level && g !in files && x in g.entries && Reaches(x, k, s) ==>
          files != [] && Reaches(files[0].Largest(), k, s) && forall e :: e in files[0].entries && e.key == k ==> e.seqno >= x.seqno)
  }

  lemma NothingInLevel(l: nat, level: seq<File>, files: seq<File>, k: UserKey, s: Sequence)
    requires SearchOrder(l, level, files, k, s)
    requires forall j, x :: 0 <= j < |files| && x in files[j].entries ==> !Reaches(x, k, s)
    ensures forall x :: x in LevelEntries(level) ==> !Reaches(x, k, s)
  {
    forall x | x in LevelEntries(level) ensures !Reaches(x, k, s) {
      var g :| g in level && x in g.entries;
      FileBounds(g, x);
      assert files != [] ==> files[0].Largest() in files[0].entries;
    }
  }

  lemma HitBeatsFile(l: nat, level: seq<File>, files: seq<File>, i: nat, k: UserKey, s: Sequence, e: Entry, g: File,
                     x: Entry)
    requires SearchOrder(l, level, files, k, s)
    requires i < |files| && Newest(e, Elems(files[i].entries), k, s)
    requires forall j, x :: 0 <= j < i && x in files[j].entries ==> !Reaches(x, k, s)
    requires g in level && x in g.entries && Visible(x, k, s)
    ensures x.seqno <= e.seqno
  {
    FileBounds(g, x);
    assert Reaches(x, k, s);
    assert files[i] in files && x in Elems(g.entries);
    if l == 0 {
      var j :| 0 <= j < |files| && files[j] == g;
      if i < j && files[i].number != g.number {
        assert NewerThan(Elems(files[i].entries), Elems(g.entries));
      }
    }
  }

  lemma HitIsNewestInLevel(l: nat, level: seq<File>, files: seq<File>, i: nat, k: UserKey, s: Sequence, e: Entry)
    requires SearchOrder(l, level, files, k, s)
    requires i < |files| && Newest(e, Elems(files[i].entries), k, s)
    requires forall j, x :: 0 <= j < i && x in files[j].entries ==> !Reaches(x, k, s)
    ensures Newest(e, LevelEntries(level), k, s)
  {
    forall x | x in LevelEntries(level) && Visible(x, k, s) ensures x.seqno <= e.seqno {
      var g :| g in level && x in g.entries;
      HitBeatsFile(l, level, files, i, k, s, e, g, x);
    }
    assert files[i] in files && files[i] in level;
    assert e in files[i].entries;
  }

  lemma HitIsNewest(levels: Levels, l: nat, k: UserKey, s: Sequence, e: Entry)
    requires LevelOrder(levels) && l < NUM_LEVELS && Newest(e, LevelEntries(levels[l]), k, s)
    requires forall i, x :: 0 <= i < l && x in LevelEntries(levels[i]) ==> !Reaches(x, k, s)
    ensures Newest(e, AllEntries(levels), k, s)
  {
    forall x | x in AllEntries(levels) && Visible(x, k, s) ensures x.seqno <= e.seqno {
      var i :| 0 <= i < NUM_LEVELS && x in LevelEntries(levels[i]);
      assert Reaches(x, k, s);
      if l < i {
        assert NewerThan(LevelEntries(levels[l]), LevelEntries(levels[i]));
      }
    }
  }

  /** `Version::Get`: level by level, and the first level that holds anything decides. */
  method Get(levels: Levels, k: UserKey, s: Sequence, mayMatch: (File, UserKey) -> bool) returns (r: GetResult)
    requires LevelOrder(levels) && Functional(AllEntries(levels))
    requires forall l, f, e :: 0 <= l < NUM_LEVELS && f in levels[l] && e in f.entries ==> mayMatch(f, e.key)
    ensures r.Corruption? ==> exists e :: e in AllEntries(levels) && !e.Parses()
    ensures !r.Corruption? ==> r.Answers(Read(AllEntries(levels), k, s))
  {
    for l := 0 to NUM_LEVELS
      invariant forall i, x :: 0 <= i < l && x in LevelEntries(levels[i]) ==> !Reaches(x, k, s)
    {
      var hit, corrupt := SearchLevel(l, levels[l], k, s, mayMatch);
      if corrupt {
        return Corruption;
      }
      if hit.Some? {
        var e := hit.value;
        HitIsNewest(levels, l, k, s, e);
        ReadIs(AllEntries(levels), k, s, e);
        return if e.kind == VALUE then Value(e.value) else NotFound;
      }
    }
    forall e ensures !Newest(e, AllEntries(levels), k, s) {
      assert Visible(e, k, s) ==> Reaches(e, k, s);
    }
    return NotFound;
  }
}
