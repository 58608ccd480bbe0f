/** Versions from edits (db/version_set.cc: VersionSet::Builder, LogAndApply, WriteSnapshot,
    Recover): replaying the MANIFEST through one builder gives the version that installing
    the edits one by one gave. */
module Manifest {
  import opened Wrappers
  import opened Coding
  import opened KeyOrders
  import opened VersionEdit
  import DbFormat
  import Log
  import LogRoundTrip

  /** `BySmallestKey`: ties are broken by file number. */
  predicate BySmallest(lt: KeyOrder, f: Meta, g: Meta) {
    lt(f.smallest, g.smallest) || (!lt(g.smallest, f.smallest) && f.number < g.number)
  }

  lemma BySmallestOrder(lt: KeyOrder, f: Meta, g: Meta, h: Meta)
    requires WeakOrder(lt)
    ensures !BySmallest(lt, f, f)
    ensures BySmallest(lt, f, g) && BySmallest(lt, g, h) ==> BySmallest(lt, f, h)
    ensures f.number != g.number ==> BySmallest(lt, f, g) || BySmallest(lt, g, f)
    ensures !(BySmallest(lt, f, g) && BySmallest(lt, g, f))
  {
  }

  ghost predicate Ordered(lt: KeyOrder, fs: seq<Meta>) {
    forall i, j :: 0 <= i < j < |fs| ==> BySmallest(lt, fs[i], fs[j])
  }

  ghost function Elems(fs: seq<Meta>): set<Meta> {
    set f | f in fs
  }

  /** A sorted list is determined by its elements. */
  lemma {:induction false} OrderedUnique(lt: KeyOrder, a: seq<Meta>, b: seq<Meta>)
    requires WeakOrder(lt) && Ordered(lt, a) && Ordered(lt, b)
    requires forall f :: f in a <==> f in b
    ensures a == b
    decreases |a|
  {
    assert b != [] ==> b[0] in a;
    if a != [] {
      assert a[0] in b && b != [] && b[0] in a;
      var i :| 0 <= i < |b| && b[i] == a[0];
      var j :| 0 <= j < |a| && a[j] == b[0];
      BySmallestOrder(lt, a[0], b[0], a[0]);
      assert a[0] == b[0];
      forall f ensures f in a[1..] <==> f in b[1..] {
        BySmallestOrder(lt, f, f, f);
        TailMember(lt, a, f);
        TailMember(lt, b, f);
      }
      OrderedUnique(lt, a[1..], b[1..]);
      assert a == [a[0]] + a[1..] && b == [b[0]] + b[1..];
    }
  }

  lemma TailMember(lt: KeyOrder, a: seq<Meta>, f: Meta)
    requires WeakOrder(lt) && Ordered(lt, a) && a != []
    ensures f in a[1..] <==> f in a && f != a[0]
  {
    BySmallestOrder(lt, f, f, f);
    if f in a && f != a[0] {
      var i :| 0 <= i < |a| && a[i] == f;
      assert a[1..][i - 1] == f;
    }
    if f in a[1..] {
      var i :| 0 <= i < |a| - 1 && a[1..][i] == f;
      assert a[i + 1] == f;
    }
  }

  // ----------------------------------------------------------------- edits as sets

  function DeletedAt(e: Edit, level: nat): set<nat> {
    set p | p in e.deleted && p.0 == level :: p.1
  }

  ghost function AddedAt(e: Edit, level: nat): set<Meta> {
    set p | p in e.newFiles && p.0 == level :: p.1
  }

  ghost function Numbers(fs: set<Meta>): set<nat> {
    set f | f in fs :: f.number
  }

  /** What a builder has collected at a level after the first `n` edits. */
  ghost function Added(edits: seq<Edit>, n: nat, level: nat): set<Meta>
    requires n <= |edits|
  {
    if n == 0 then {} else Added(edits, n - 1, level) + AddedAt(edits[n - 1], level)
  }

  ghost function Deleted(edits: seq<Edit>, n: nat, level: nat): set<nat>
    requires n <= |edits|
  {
    if n == 0 then {}
    else Deleted(edits, n - 1, level) + DeletedAt(edits[n - 1], level) - Numbers(AddedAt(edits[n - 1], level))
  }

  /** File identity: at one level a number stands for one file, and is added only once. */
  ghost predicate FreshAt(base: seq<Meta>, edits: seq<Edit>, n: nat, level: nat)
    requires n < |edits|
  {
    && Numbers(AddedAt(edits[n], level)) !! (Numbers(Elems(base)) + Numbers(Added(edits, n, level)))
    && (forall f, g :: f in AddedAt(edits[n], level) && g in AddedAt(edits[n], level) && f.number == g.number ==> f == g)
  }

  type Levels = v: seq<seq<Meta>> | |v| == DbFormat.NUM_LEVELS witness [[], [], [], [], [], [], []]

  ghost predicate Fresh(base: Levels, edits: seq<Edit>) {
    forall n, level :: 0 <= n < |edits| && 0 <= level < DbFormat.NUM_LEVELS ==> FreshAt(base[level], edits, n, level)
  }

  /** The level that a builder on `base` saves after the first `n` edits. */
  ghost predicate SavedAt(lt: KeyOrder, base: seq<Meta>, edits: seq<Edit>, n: nat, level: nat, saved: seq<Meta>)
    requires n <= |edits|
  {
    && Ordered(lt, saved)
    && forall f :: f in saved <==> (f in base || f in Added(edits, n, level)) && f.number !in Deleted(edits, n, level)
  }

  ghost predicate Saved(lt: KeyOrder, base: Levels, edits: seq<Edit>, n: nat, saved: Levels)
    requires n <= |edits|
  {
    forall level :: 0 <= level < DbFormat.NUM_LEVELS ==> SavedAt(lt, base[level], edits, n, level, saved[level])
  }

  /** LogAndApply: a builder with one edit on the current version. */
  ghost predicate Installed(lt: KeyOrder, v: Levels, e: Edit, v': Levels) {
    Saved(lt, v, [e], 1, v')
  }

  /** A level after an edit, file by file: what the edit adds, also if it deletes that number, and
      what was there and is not deleted. */
  lemma InstalledExact(lt: KeyOrder, v: Levels, e: Edit, v': Levels, level: nat, f: Meta)
    requires Installed(lt, v, e, v') && Fresh(v, [e]) && level < DbFormat.NUM_LEVELS
    ensures f in v'[level] <==> (level, f) in e.newFiles || (f in v[level] && (level, f.number) !in e.deleted)
  {
    OneEdit(e, level);
    assert SavedAt(lt, v[level], [e], 1, level, v'[level]) && FreshAt(v[level], [e], 0, level);
    if f in v[level] {
      assert f in Elems(v[level]) && f.number in Numbers(Elems(v[level]));
    }
    if (level, f) in e.newFiles {
      assert f in AddedAt(e, level) && f.number in Numbers(AddedAt(e, level));
    }
    if (level, f.number) in e.deleted {
      assert f.number in DeletedAt(e, level);
    }
  }

  /** The versions that installing the edits one by one goes through. */
  ghost predicate Chain(lt: KeyOrder, edits: seq<Edit>, vs: seq<Levels>) {
    && |vs| == |edits| + 1
    && (forall level :: 0 <= level < DbFormat.NUM_LEVELS ==> Ordered(lt, vs[0][level]))
    && forall i :: 0 <= i < |edits| ==> Installed(lt, vs[i], edits[i], vs[i + 1])
  }

  // ------------------------------------------------------------ one builder for all

  lemma OneEdit(e: Edit, level: nat)
    ensures Added([e], 1, level) == AddedAt(e, level)
    ensures Deleted([e], 1, level) == DeletedAt(e, level) - Numbers(AddedAt(e, level))
  {
    assert Added([e], 0, level) == {} && Deleted([e], 0, level) == {};
  }

  /** One more edit on the builder, or on the version it would have saved before. */
  lemma OneMoreEdit(lt: KeyOrder, base: seq<Meta>, edits: seq<Edit>, n: nat, level: nat, before: seq<Meta>,
                    after: seq<Meta>)
    requires n < |edits| && FreshAt(base, edits, n, level)
    requires SavedAt(lt, base, edits, n, level, before) && SavedAt(lt, before, [edits[n]], 1, level, after)
    ensures SavedAt(lt, base, edits, n + 1, level, after)
  {
    OneEdit(edits[n], level);
    var added := AddedAt(edits[n], level);
    forall f ensures f in after <==> (f in base || f in Added(edits, n + 1, level)) && f.number !in Deleted(edits, n + 1, level) {
      if f in added {
        assert f.number in Numbers(added);
      } else if f in base {
        assert f in Elems(base) && f.number in Numbers(Elems(base));
      } else if f in Added(edits, n, level) {
        assert f.number in Numbers(Added(edits, n, level));
      }
    }
  }

  lemma {:induction false} ChainIsSaved(lt: KeyOrder, edits: seq<Edit>, vs: seq<Levels>, n: nat)
    requires Chain(lt, edits, vs) && Fresh(vs[0], edits) && n <= |edits|
    ensures Saved(lt, vs[0], edits, n, vs[n])
  {
    if n > 0 {
      ChainIsSaved(lt, edits, vs, n - 1);
      assert Installed(lt, vs[n - 1], edits[n - 1], vs[n]);
      forall level | 0 <= level < DbFormat.NUM_LEVELS ensures SavedAt(lt, vs[0][level], edits, n, level, vs[n][level]) {
        OneMoreEdit(lt, vs[0][level], edits, n - 1, level, vs[n - 1][level], vs[n][level]);
      }
    }
  }

  /** Applying all edits to one builder gives, level by level, the list that installing
      them one by one gives. */
  lemma ReplayIsInstall(lt: KeyOrder, edits: seq<Edit>, vs: seq<Levels>, n: nat, replayed: Levels)
    requires WeakOrder(lt) && Chain(lt, edits, vs) && Fresh(vs[0], edits) && n <= |edits|
    requires Saved(lt, vs[0], edits, n, replayed)
    ensures replayed == vs[n]
  {
    ChainIsSaved(lt, edits, vs, n);
    forall level | 0 <= level < DbFormat.NUM_LEVELS ensures replayed[level] == vs[n][level] {
      assert SavedAt(lt, vs[0][level], edits, n, level, replayed[level]);
      assert SavedAt(lt, vs[0][level], edits, n, level, vs[n][level]);
      OrderedUnique(lt, replayed[level], vs[n][level]);
    }
  }

  // ------------------------------------------------------------------ the builder

  /** `std::set::insert`: nothing happens if an equivalent file is there. */
  function InsertOrdered(lt: KeyOrder, fs: seq<Meta>, f: Meta): seq<Meta> {
    if fs == [] then [f]
    else if BySmallest(lt, f, fs[0]) then [f] + fs
    else if BySmallest(lt, fs[0], f) then [fs[0]] + InsertOrdered(lt, fs[1..], f)
    else fs
  }

  lemma {:induction false} InsertKeepsOrder(lt: KeyOrder, fs: seq<Meta>, f: Meta)
    requires WeakOrder(lt) && Ordered(lt, fs) && (forall g :: g in fs && g.number == f.number ==> g == f)
    ensures Ordered(lt, InsertOrdered(lt, fs, f))
    ensures forall g :: g in InsertOrdered(lt, fs, f) <==> g in fs || g == f
    decreases |fs|
  {
    if fs != [] {
      var r := InsertOrdered(lt, fs, f);
      BySmallestOrder(lt, fs[0], f, f);
      assert fs[0] in fs;
      if BySmallest(lt, f, fs[0]) {
        forall i | 1 <= i < |r| ensures BySmallest(lt, f, r[i]) {
          BySmallestOrder(lt, f, fs[0], r[i]);
        }
      } else if BySmallest(lt, fs[0], f) {
        InsertKeepsOrder(lt, fs[1..], f);
        forall i | 1 <= i < |r| ensures BySmallest(lt, fs[0], r[i]) {
          assert r[i] in InsertOrdered(lt, fs[1..], f);
        }
      }
    }
  }

  /** `SaveTo` for one level: merges the added files into the base and drops the deleted. */
  method MergeLevel(lt: KeyOrder, base: seq<Meta>, added: seq<Meta>, deleted: set<nat>) returns (files: seq<Meta>)
    requires WeakOrder(lt) && Ordered(lt, base) && Ordered(lt, added)
    requires forall f, g :: f in base && g in added ==> f.number != g.number
    ensures Ordered(lt, files)
    ensures forall f :: f in files <==> (f in base || f in added) && f.number !in deleted
  {
    files := [];
    var b := 0;
    for a := 0 to |added|
      invariant 0 <= b <= |base| && Merging(lt, base, b, added, a, deleted, files)
    {
      // All base files up to the upper bound of added[a]
      while b < |base| && !BySmallest(lt, added[a], base[b])
        invariant 0 <= b <= |base| && Merging(lt, base, b, added, a, deleted, files)
      {
        MergeBase(lt, base, b, added, a, deleted, files);
        if base[b].number !in deleted {
          files := files + [base[b]];
        }
        b := b + 1;
      }
      MergeAdded(lt, base, b, added, a, deleted, files);
      if added[a].number !in deleted {
        files := files + [added[a]];
      }
    }
    // Remaining base files
    while b < |base|
      invariant 0 <= b <= |base| && Merging(lt, base, b, added, |added|, deleted, files)
    {
      MergeBase(lt, base, b, added, |added|, deleted, files);
      if base[b].number !in deleted {
        files := files + [base[b]];
      }
      b := b + 1;
    }
    assert base[..b] == base && added[..|added|] == added;
  }

  /** `files` holds what is kept of the first `b` base and `a` added files, and all of these
      come before the rest. */
  ghost predicate Merging(lt: KeyOrder, base: seq<Meta>, b: nat, added: seq<Meta>, a: nat, deleted: set<nat>,
                          files: seq<Meta>)
    requires b <= |base| && a <= |added|
  {
    && Ordered(lt, files)
    && (forall f :: f in files <==> (f in base[..b] || f in added[..a]) && f.number !in deleted)
    && (forall f, j :: f in files && b <= j < |base| ==> BySmallest(lt, f, base[j]))
    && (forall f, j :: f in files && a <= j < |added| ==> BySmallest(lt, f, added[j]))
  }

  lemma MergeBase(lt: KeyOrder, base: seq<Meta>, b: nat, added: seq<Meta>, a: nat, deleted: set<nat>, files: seq<Meta>)
    requires WeakOrder(lt) && Ordered(lt, base) && Ordered(lt, added)
    requires forall f, g :: f in base && g in added ==> f.number != g.number
    requires b < |base| && a <= |added| && Merging(lt, base, b, added, a, deleted, files)
    requires a < |added| ==> !BySmallest(lt, added[a], base[b])
    ensures Merging(lt, base, b + 1, added, a, deleted, if base[b].number in deleted then files else files + [base[b]])
  {
    assert base[..b + 1] == base[..b] + [base[b]];
    forall j | a <= j < |added| ensures BySmallest(lt, base[b], added[j]) {
      assert base[b] in base && added[a] in added;
      BySmallestOrder(lt, base[b], added[a], added[j]);
    }
  }

  lemma MergeAdded(lt: KeyOrder, base: seq<Meta>, b: nat, added: seq<Meta>, a: nat, deleted: set<nat>, files: seq<Meta>)
    requires WeakOrder(lt) && Ordered(lt, base) && Ordered(lt, added)
    requires b <= |base| && a < |added| && Merging(lt, base, b, added, a, deleted, files)
    requires b < |base| ==> BySmallest(lt, added[a], base[b])
    ensures Merging(lt, base, b, added, a + 1, deleted, if added[a].number in deleted then files else files + [added[a]])
  {
    assert added[..a + 1] == added[..a] + [added[a]];
    forall j | b <= j < |base| ensures BySmallest(lt, added[a], base[j]) {
      BySmallestOrder(lt, added[a], base[b], base[j]);
    }
  }

  class Builder {
    const lt: KeyOrder
    const base: Levels
    var deleted: seq<set<nat>>
    var added: Levels

    // The edits applied so far.
    ghost var edits: seq<Edit>

    ghost predicate Valid()
      reads this
    {
      && WeakOrder(lt) && Fresh(base, edits)
      && |deleted| == DbFormat.NUM_LEVELS
      && (forall level :: 0 <= level < DbFormat.NUM_LEVELS ==> Ordered(lt, base[level]) && LevelOk(level))
    }

    ghost predicate LevelOk(level: nat)
      requires |deleted| == DbFormat.NUM_LEVELS && level < DbFormat.NUM_LEVELS
      reads this
    {
      && deleted[level] == Deleted(edits, |edits|, level)
      && Ordered(lt, added[level])
      && (forall f :: f in added[level] <==> f in Added(edits, |edits|, level))
    }

    constructor (lt: KeyOrder, base: Levels)
      requires WeakOrder(lt) && forall level :: 0 <= level < DbFormat.NUM_LEVELS ==> Ordered(lt, base[level])
      ensures Valid() && edits == [] && this.base == base && this.lt == lt
    {
      this.lt, this.base := lt, base;
      deleted := [{}, {}, {}, {}, {}, {}, {}];
      added := [[], [], [], [], [], [], []];
      edits := [];
    }

    /** `Apply`: deletions first, then additions, which win over deletions. */
    method Apply(e: Edit)
      requires Valid() && LevelsInRange(e) && Fresh(base, edits + [e])
      modifies this
      ensures Valid() && edits == old(edits) + [e]
    {
      forall level | 0 <= level < DbFormat.NUM_LEVELS
        ensures deleted[level] == Deleted(edits, |edits|, level) && Ordered(lt, added[level])
        ensures forall f :: f in added[level] <==> f in Added(edits, |edits|, level)
      {
        assert LevelOk(level);
      }
      DeleteFiles(e);
      AddFiles(e);
      edits := edits + [e];
      forall level | 0 <= level < DbFormat.NUM_LEVELS ensures LevelOk(level) {
        PrefixEdits(old(edits), e, level);
      }
    }

    method DeleteFiles(e: Edit)
      requires Valid() && LevelsInRange(e)
      modifies this`deleted
      ensures |deleted| == DbFormat.NUM_LEVELS
      ensures forall level :: 0 <= level < DbFormat.NUM_LEVELS ==> deleted[level] == old(deleted)[level] + DeletedAt(e, level)
    {
      var rest := e.deleted;
      while rest != {}
        invariant rest <= e.deleted && |deleted| == DbFormat.NUM_LEVELS
        invariant forall level :: 0 <= level < DbFormat.NUM_LEVELS ==>
          deleted[level] == old(deleted)[level] + DeletedAt(e.(deleted := e.deleted - rest), level)
        decreases |rest|
      {
        var p :| p in rest;
        ghost var done := e.deleted - rest;
        deleted := deleted[p.0 := deleted[p.0] + {p.1}];
        rest := rest - {p};
        forall level | 0 <= level < DbFormat.NUM_LEVELS
          ensures deleted[level] == old(deleted)[level] + DeletedAt(e.(deleted := e.deleted - rest), level)
        {
          DeletedOneMore(e, done, p, level);
          assert e.deleted - rest == done + {p};
        }
      }
      assert e.deleted - {} == e.deleted;
    }

    method AddFiles(e: Edit)
      requires WeakOrder(lt) && |deleted| == DbFormat.NUM_LEVELS && LevelsInRange(e) && Fresh(base, edits + [e])
      requires forall level :: 0 <= level < DbFormat.NUM_LEVELS ==>
        Ordered(lt, added[level]) && forall f :: f in added[level] <==> f in Added(edits, |edits|, level)
      modifies this`deleted, this`added
      ensures |deleted| == DbFormat.NUM_LEVELS
      ensures forall level :: 0 <= level < DbFormat.NUM_LEVELS ==>
        && deleted[level] == old(deleted)[level] - Numbers(AddedAt(e, level))
        && Ordered(lt, added[level])
        && forall f :: f in added[level] <==> f in Added(edits, |edits|, level) || f in AddedAt(e, level)
    {
      for i := 0 to |e.newFiles|
        invariant |deleted| == DbFormat.NUM_LEVELS
        invariant forall level :: 0 <= level < DbFormat.NUM_LEVELS ==> AddedSoFar(e, i, level, old(deleted)[level])
      {
        var (level, f) := e.newFiles[i];
        assert e.newFiles[i] in e.newFiles && AddedSoFar(e, i, level, old(deleted)[level]);
        NoTwin(e, i);
        InsertKeepsOrder(lt, added[level], f);
        deleted := deleted[level := deleted[level] - {f.number}];
        added := added[level := InsertOrdered(lt, added[level], f)];
        forall l | 0 <= l < DbFormat.NUM_LEVELS ensures AddedSoFar(e, i + 1, l, old(deleted)[l]) {
          AddedOneMore(e, i, l);
        }
      }
      assert e.newFiles[..|e.newFiles|] == e.newFiles;
      assert e.(newFiles := e.newFiles) == e;
      forall level | 0 <= level < DbFormat.NUM_LEVELS
        ensures deleted[level] == old(deleted)[level] - Numbers(AddedAt(e, level)) && Ordered(lt, added[level])
        ensures forall f :: f in added[level] <==> f in Added(edits, |edits|, level) || f in AddedAt(e, level)
      {
        assert AddedSoFar(e, |e.newFiles|, level, old(deleted)[level]);
      }
    }

    ghost predicate AddedSoFar(e: Edit, i: nat, level: nat, before: set<nat>)
      requires |deleted| == DbFormat.NUM_LEVELS && i <= |e.newFiles| && level < DbFormat.NUM_LEVELS
      reads this
    {
      var now := AddedAt(e.(newFiles := e.newFiles[..i]), level);
      && deleted[level] == before - Numbers(now)
      && Ordered(lt, added[level])
      && forall f :: f in added[level] <==> f in Added(edits, |edits|, level) || f in now
    }

    /** The next file to add is not confused with one that is there. */
    lemma NoTwin(e: Edit, i: nat)
      requires |deleted| == DbFormat.NUM_LEVELS && i < |e.newFiles| && LevelsInRange(e) && Fresh(base, edits + [e])
      requires forall g :: g in added[e.newFiles[i].0] <==>
        g in Added(edits, |edits|, e.newFiles[i].0) || g in AddedAt(e.(newFiles := e.newFiles[..i]), e.newFiles[i].0)
      ensures var (level, f) := e.newFiles[i]; forall g :: g in added[level] && g.number == f.number ==> g == f
    {
      var (level, f) := e.newFiles[i];
      var n := |edits|;
      assert (edits + [e])[n] == e && FreshAt(base[level], edits + [e], n, level);
      AddedStable(edits, e, n, level);
      assert e.newFiles[i] in e.newFiles && f in AddedAt(e, level) && f.number in Numbers(AddedAt(e, level));
      var taken := Numbers(Added(edits + [e], n, level));
      assert f.number !in taken && forall h :: h in Added(edits, n, level) ==> h.number in taken;
      forall g | g in added[level] && g.number == f.number ensures g == f {
        assert g in AddedAt(e.(newFiles := e.newFiles[..i]), level);
        assert g in AddedAt(e, level);
      }
    }

    method SaveTo() returns (v: Levels)
      requires Valid()
      ensures Saved(lt, base, edits, |edits|, v)
    {
      v := [[], [], [], [], [], [], []];
      for level := 0 to DbFormat.NUM_LEVELS
        invariant forall l :: 0 <= l < level ==> SavedAt(lt, base[l], edits, |edits|, l, v[l])
      {
        BaseApart(base, edits, |edits|, level);
        var files := MergeLevel(lt, base[level], added[level], deleted[level]);
        v := v[level := files];
      }
    }
  }

  ghost predicate LevelsInRange(e: Edit) {
    (forall p :: p in e.deleted ==> p.0 < DbFormat.NUM_LEVELS) && (forall p :: p in e.newFiles ==> p.0 < DbFormat.NUM_LEVELS)
  }

  lemma DeletedOneMore(e: Edit, done: set<(nat, nat)>, p: (nat, nat), level: nat)
    ensures DeletedAt(e.(deleted := done + {p}), level) == DeletedAt(e.(deleted := done), level) + if p.0 == level then {p.1} else {}
  {
    var d, d' := DeletedAt(e.(deleted := done), level), DeletedAt(e.(deleted := done + {p}), level);
    forall n ensures n in d' <==> n in d || (p.0 == level && n == p.1) {
      if n in d {
        assert (level, n) in done;
      }
      if p.0 == level && n == p.1 {
        assert p in done + {p};
      }
    }
  }

  lemma AddedOneMore(e: Edit, i: nat, level: nat)
    requires i < |e.newFiles|
    ensures var (l, f) := e.newFiles[i];
            AddedAt(e.(newFiles := e.newFiles[..i + 1]), level) == AddedAt(e.(newFiles := e.newFiles[..i]), level) + if l == level then {f} else {}
  {
    var now := e.newFiles[..i + 1];
    assert now == e.newFiles[..i] + [e.newFiles[i]];
    assert e.newFiles[i] in now;
  }

  lemma {:induction false} AddedStable(edits: seq<Edit>, e: Edit, n: nat, level: nat)
    requires n <= |edits|
    ensures Added(edits + [e], n, level) == Added(edits, n, level) && Deleted(edits + [e], n, level) == Deleted(edits, n, level)
  {
    if n > 0 {
      AddedStable(edits, e, n - 1, level);
    }
  }

  lemma PrefixEdits(edits: seq<Edit>, e: Edit, level: nat)
    ensures Added(edits + [e], |edits| + 1, level) == Added(edits, |edits|, level) + AddedAt(e, level)
    ensures Deleted(edits + [e], |edits| + 1, level) == Deleted(edits, |edits|, level) + DeletedAt(e, level) - Numbers(AddedAt(e, level))
  {
    AddedStable(edits, e, |edits|, level);
  }

  /** An added file has a number of its own. */
  lemma {:induction false} BaseApart(base: Levels, edits: seq<Edit>, n: nat, level: nat)
    requires Fresh(base, edits) && n <= |edits| && level < DbFormat.NUM_LEVELS
    ensures forall f, g :: f in base[level] && g in Added(edits, n, level) ==> f.number != g.number
  {
    if n > 0 {
      BaseApart(base, edits, n - 1, level);
      assert FreshAt(base[level], edits, n - 1, level);
      forall f, g | f in base[level] && g in AddedAt(edits[n - 1], level) ensures f.number != g.number {
        assert f.number in Numbers(Elems(base[level])) && g.number in Numbers(AddedAt(edits[n - 1], level));
      }
    }
  }

  // --------------------------------------------------------------------- recovery

  /** What Recover learns from the MANIFEST beside the version. */
  datatype Recovered = Recovered(logNumber: nat, prevLogNumber: nat, nextFile: nat, lastSequence: nat)

  datatype Result = Ok(levels: Levels, numbers: Recovered) | Corruption | InvalidArgument

  /** The number fields seen so far. */
  datatype Seen = Seen(log: Option<nat>, prev: Option<nat>, next: Option<nat>, last: Option<nat>) {
    /** The last edit that set a number decides. */
    function Note(e: Edit): Seen {
      Seen(if e.logNumber.Some? then e.logNumber else log, if e.prevLogNumber.Some? then e.prevLogNumber else prev,
           if e.nextFileNumber.Some? then e.nextFileNumber else next, if e.lastSequence.Some? then e.lastSequence else last)
    }

    /** None if a number that must be there is missing. */
    function Conclude(): Option<Recovered> {
      if next.None? || log.None? || last.None? then None
      else Some(Recovered(log.value, if prev.Some? then prev.value else 0, next.value, last.value))
    }
  }

  function SeenAfter(edits: seq<Edit>, n: nat): Seen
    requires n <= |edits|
  {
    if n == 0 then Seen(None, None, None, None) else SeenAfter(edits, n - 1).Note(edits[n - 1])
  }

  function LatestNumbers(edits: seq<Edit>): Option<Recovered> {
    SeenAfter(edits, |edits|).Conclude()
  }

  /** The last of these edits that sets a number sets it to `n`. */
  ghost predicate LastSet(edits: seq<Edit>, field: Edit -> Option<nat>, n: nat) {
    exists i :: 0 <= i < |edits| && field(edits[i]) == Some(n) && forall j :: i < j < |edits| ==> field(edits[j]) == None
  }

  ghost predicate NeverSet(edits: seq<Edit>, field: Edit -> Option<nat>) {
    forall i :: 0 <= i < |edits| ==> field(edits[i]) == None
  }

  ghost predicate IsLatest(edits: seq<Edit>, field: Edit -> Option<nat>, o: Option<nat>) {
    match o case Some(n) => LastSet(edits, field, n) case None => NeverSet(edits, field)
  }

  function LogOf(e: Edit): Option<nat> { e.logNumber }

  function PrevOf(e: Edit): Option<nat> { e.prevLogNumber }

  function NextOf(e: Edit): Option<nat> { e.nextFileNumber }

  function LastOf(e: Edit): Option<nat> { e.lastSequence }

  lemma LatestStep(edits: seq<Edit>, field: Edit -> Option<nat>, o: Option<nat>)
    requires edits != [] && IsLatest(edits[..|edits| - 1], field, o)
    ensures var last := field(edits[|edits| - 1]); IsLatest(edits, field, if last.Some? then last else o)
  {
    var init, last := edits[..|edits| - 1], edits[|edits| - 1];
    if field(last).None? && o.Some? {
      var i :| 0 <= i < |init| && field(init[i]) == o && forall j :: i < j < |init| ==> field(init[j]) == None;
      assert field(edits[i]) == o;
    }
  }

  lemma {:induction false} SeenIsLatest(edits: seq<Edit>, n: nat)
    requires n <= |edits|
    ensures var s := SeenAfter(edits, n);
      && IsLatest(edits[..n], LogOf, s.log) && IsLatest(edits[..n], PrevOf, s.prev)
      && IsLatest(edits[..n], NextOf, s.next) && IsLatest(edits[..n], LastOf, s.last)
  {
    hide IsLatest;
    if n == 0 {
      NothingSet();
      assert edits[..0] == [];
    } else {
      SeenIsLatest(edits, n - 1);
      var s := SeenAfter(edits, n - 1);
      assert edits[..n][..n - 1] == edits[..n - 1];
      LatestStep(edits[..n], LogOf, s.log);
      LatestStep(edits[..n], PrevOf, s.prev);
      LatestStep(edits[..n], NextOf, s.next);
      LatestStep(edits[..n], LastOf, s.last);
    }
  }

  lemma NothingSet()
    ensures IsLatest([], LogOf, None) && IsLatest([], PrevOf, None) && IsLatest([], NextOf, None) && IsLatest([], LastOf, None)
  {
  }

  /** Each number is what the last edit that sets it says; only the previous log number may be
      missing, and is zero then. */
  lemma LatestNumbersExact(edits: seq<Edit>)
    ensures LatestNumbers(edits).None? <==> NeverSet(edits, NextOf) || NeverSet(edits, LogOf) || NeverSet(edits, LastOf)
    ensures LatestNumbers(edits).Some? ==> var r := LatestNumbers(edits).value;
      && LastSet(edits, LogOf, r.logNumber) && LastSet(edits, NextOf, r.nextFile) && LastSet(edits, LastOf, r.lastSequence)
      && if NeverSet(edits, PrevOf) then r.prevLogNumber == 0 else LastSet(edits, PrevOf, r.prevLogNumber)
  {
    SeenIsLatest(edits, |edits|);
    assert edits[..|edits|] == edits;
  }

  /** The record decodes, and is for this comparator. */
  ghost predicate Good(name: Bytes, record: Bytes) {
    var (e, ok) := Decode(EMPTY, record);
    ok && (e.comparator.Some? ==> e.comparator.value == name)
  }

  /** The edits that the records hold. */
  ghost function Edits(records: seq<Bytes>): seq<Edit> {
    seq(|records|, i requires 0 <= i < |records| => Decode(EMPTY, records[i]).0)
  }

  /** How many records from the front are good. */
  ghost function GoodPrefix(name: Bytes, records: seq<Bytes>): (n: nat)
    ensures n <= |records|
    ensures forall i :: 0 <= i < n ==> Good(name, records[i])
    ensures n < |records| ==> !Good(name, records[n])
  {
    if records == [] || !Good(name, records[0]) then 0 else 1 + GoodPrefix(name, records[1..])
  }

  /** `VersionSet::Recover` on the records of a MANIFEST. */
  method Recover(lt: KeyOrder, name: Bytes, records: seq<Bytes>) returns (r: Result)
    requires WeakOrder(lt) && Fresh(NO_FILES, Edits(records)[..GoodPrefix(name, records)])
    ensures var n := GoodPrefix(name, records);
            n < |records| ==> r == if Decode(EMPTY, records[n]).1 then InvalidArgument else Corruption
    ensures var edits := Edits(records);
            GoodPrefix(name, records) == |records| ==>
              && (LatestNumbers(edits).None? ==> r == Corruption)
              && (LatestNumbers(edits).Some? ==>
                    r.Ok? && r.numbers == LatestNumbers(edits).value && Saved(lt, NO_FILES, edits, |edits|, r.levels))
  {
    ghost var edits, good := Edits(records), GoodPrefix(name, records);
    var builder := new Builder(lt, NO_FILES);
    var seen := Seen(None, None, None, None);
    for i := 0 to |records|
      invariant i <= good && seen == SeenAfter(edits, i)
      invariant builder.Valid() && builder.lt == lt && builder.base == NO_FILES && builder.edits == edits[..i]
    {
      var edit, ok := DecodeFrom(EMPTY, records[i]);
      if !ok {
        assert !Good(name, records[i]);
        return Corruption;
      }
      if edit.comparator.Some? && edit.comparator.value != name {
        assert !Good(name, records[i]);
        return InvalidArgument;
      }
      assert Good(name, records[i]);
      NextEdit(edits, good, i);
      DecodedLevels(records[i]);
      builder.Apply(edit);
      seen := seen.Note(edit);
    }
    assert edits[..|records|] == edits;
    if seen.Conclude().None? {
      return Corruption;
    }
    var v := builder.SaveTo();
    r := Ok(v, seen.Conclude().value);
  }

  lemma NextEdit(edits: seq<Edit>, good: nat, i: nat)
    requires i < good <= |edits| && Fresh(NO_FILES, edits[..good])
    ensures edits[..i + 1] == edits[..i] + [edits[i]] && Fresh(NO_FILES, edits[..i] + [edits[i]])
  {
    assert edits[..good][..i + 1] == edits[..i + 1];
    FreshPrefix(NO_FILES, edits[..good], i + 1);
  }

  /** GetLevel lets no other level through. */
  lemma DecodedLevels(record: Bytes)
    ensures LevelsInRange(Decode(EMPTY, record).0)
  {
    ParserConsumes();
    ParsedInRange(record);
    SetAllInRange(EMPTY.(compactPointers := EMPTY.compactPointers), ParseAll(ParseField, record).0);
  }

  ghost predicate InRange(field: Field) {
    (field.DeletedFile? ==> field.level < DbFormat.NUM_LEVELS) && (field.NewFile? ==> field.level < DbFormat.NUM_LEVELS)
  }

  lemma {:induction false} ParsedInRange(input: Bytes)
    requires Consuming(ParseField)
    ensures forall field :: field in ParseAll(ParseField, input).0 ==> InRange(field)
    decreases |input|
  {
    if input != [] && ParseField(input).Some? {
      FieldInRange(input);
      ParsedInRange(ParseField(input).value.1);
    }
  }

  lemma FieldInRange(input: Bytes)
    ensures ParseField(input).Some? ==> InRange(ParseField(input).value.0)
  {
  }

  lemma {:induction false} SetAllInRange(e: Edit, fields: seq<Field>)
    requires LevelsInRange(e) && forall field :: field in fields ==> InRange(field)
    ensures LevelsInRange(SetAll(e, fields))
    decreases |fields|
  {
    if fields != [] {
      assert InRange(fields[0]);
      SetAllInRange(Set(e, fields[0]), fields[1..]);
    }
  }

  const NO_FILES: Levels := [[], [], [], [], [], [], []]

  lemma {:induction false} PrefixStable(edits: seq<Edit>, k: nat, n: nat, level: nat)
    requires n <= k <= |edits|
    ensures Added(edits[..k], n, level) == Added(edits, n, level) && Deleted(edits[..k], n, level) == Deleted(edits, n, level)
  {
    if n > 0 {
      PrefixStable(edits, k, n - 1, level);
    }
  }

  lemma FreshPrefix(base: Levels, edits: seq<Edit>, k: nat)
    requires Fresh(base, edits) && k <= |edits|
    ensures Fresh(base, edits[..k])
  {
    forall n, level | 0 <= n < k && 0 <= level < DbFormat.NUM_LEVELS ensures FreshAt(base[level], edits[..k], n, level) {
      assert FreshAt(base[level], edits, n, level);
      PrefixStable(edits, k, n, level);
    }
  }

  /** `LogAndApply` up to the MANIFEST write: the edit is completed from the counters of
      the version set, and the next version is built. */
  method LogAndApply(lt: KeyOrder, current: Levels, e: Edit, numbers: Recovered) returns (logged: Edit, v: Levels)
    requires WeakOrder(lt) && LevelsInRange(e) && Fresh(current, [e])
    requires forall level :: 0 <= level < DbFormat.NUM_LEVELS ==> Ordered(lt, current[level])
    ensures Installed(lt, current, logged, v)
    ensures logged.deleted == e.deleted && logged.newFiles == e.newFiles
    ensures logged.logNumber == (if e.logNumber.Some? then e.logNumber else Some(numbers.logNumber))
    ensures logged.prevLogNumber == (if e.prevLogNumber.Some? then e.prevLogNumber else Some(numbers.prevLogNumber))
    ensures logged.nextFileNumber == Some(numbers.nextFile) && logged.lastSequence == Some(numbers.lastSequence)
  {
    logged := e;
    if e.logNumber.None? {
      logged := logged.(logNumber := Some(numbers.logNumber));
    }
    if e.prevLogNumber.None? {
      logged := logged.(prevLogNumber := Some(numbers.prevLogNumber));
    }
    logged := logged.(nextFileNumber := Some(numbers.nextFile), lastSequence := Some(numbers.lastSequence));
    var builder := new Builder(lt, current);
    assert [] + [logged] == [logged];
    SameFilesFresh(current, e, logged);
    builder.Apply(logged);
    v := builder.SaveTo();
  }

  lemma SameFilesFresh(base: Levels, e: Edit, e': Edit)
    requires Fresh(base, [e]) && e.newFiles == e'.newFiles
    ensures Fresh(base, [e'])
  {
    forall n, level | 0 <= n < 1 && 0 <= level < DbFormat.NUM_LEVELS ensures FreshAt(base[level], [e'], n, level) {
      assert FreshAt(base[level], [e], 0, level);
    }
  }

  // ------------------------------------------------------------------ snapshot record

  /** All files of a version, level by level. */
  function AllFiles(v: Levels, n: nat): seq<(nat, Meta)>
    requires n <= DbFormat.NUM_LEVELS
  {
    if n == 0 then [] else AllFiles(v, n - 1) + seq(|v[n - 1]|, i requires 0 <= i < |v[n - 1]| => (n - 1, v[n - 1][i]))
  }

  lemma {:induction false} AllFilesOf(v: Levels, n: nat, level: nat, f: Meta)
    requires n <= DbFormat.NUM_LEVELS && level < DbFormat.NUM_LEVELS
    ensures (level, f) in AllFiles(v, n) <==> level < n && f in v[level]
  {
    if n > 0 {
      AllFilesOf(v, n - 1, level, f);
      var here := seq(|v[n - 1]|, i requires 0 <= i < |v[n - 1]| => (n - 1, v[n - 1][i]));
      if level == n - 1 && f in v[level] {
        var i :| 0 <= i < |v[level]| && v[level][i] == f;
        assert here[i] == (level, f);
      }
    }
  }

  /** `WriteSnapshot`. */
  function Snapshot(name: Bytes, pointers: seq<(nat, Bytes)>, v: Levels): Edit {
    EMPTY.(comparator := Some(name), compactPointers := pointers, newFiles := AllFiles(v, DbFormat.NUM_LEVELS))
  }

  /** A snapshot record installed on the empty version gives the version back. */
  lemma SnapshotRestores(lt: KeyOrder, name: Bytes, pointers: seq<(nat, Bytes)>, v: Levels)
    requires forall level :: 0 <= level < DbFormat.NUM_LEVELS ==> Ordered(lt, v[level])
    ensures Installed(lt, NO_FILES, Snapshot(name, pointers, v), v)
  {
    var e := Snapshot(name, pointers, v);
    forall level | 0 <= level < DbFormat.NUM_LEVELS ensures SavedAt(lt, NO_FILES[level], [e], 1, level, v[level]) {
      OneEdit(e, level);
      forall f ensures f in AddedAt(e, level) <==> f in v[level] {
        AllFilesOf(v, DbFormat.NUM_LEVELS, level, f);
        if f in AddedAt(e, level) {
          var p :| p in e.newFiles && p.0 == level && p.1 == f;
          assert p == (level, f);
        }
      }
      assert DeletedAt(e, level) == {};
    }
  }

  // ------------------------------------------------------------------ the whole file

  /** The MANIFEST after the edits were logged, each with its deletions in some order. */
  function Records(edits: seq<Edit>, listings: seq<seq<(nat, nat)>>): seq<Bytes>
    requires |listings| == |edits|
  {
    seq(|edits|, i requires 0 <= i < |edits| => EncodeTo(edits[i], listings[i]))
  }

  /** A MANIFEST, also one cut short by a crash after `size` bytes, holds exactly the edits that
      were logged in full, and they replay to the version that was current after the last of
      them. */
  lemma ManifestReplay(sum: Log.Checksum, lt: KeyOrder, name: Bytes, edits: seq<Edit>, listings: seq<seq<(nat, nat)>>,
                       vs: seq<Levels>, size: nat, k: nat, replayed: Levels)
    requires sum.Sound() && WeakOrder(lt) && |listings| == |edits|
    requires forall i :: 0 <= i < |edits| ==>
      Encodable(edits[i]) && Lists(listings[i], edits[i].deleted) && (edits[i].comparator.Some? ==> edits[i].comparator.value == name)
    requires Chain(lt, edits, vs) && vs[0] == NO_FILES && Fresh(NO_FILES, edits)
    requires var records := Records(edits, listings);
      && k <= |edits| && LogRoundTrip.Ends(sum, records, k) <= size <= |LogRoundTrip.Written(sum, records)|
      && (k < |edits| ==> size < LogRoundTrip.Ends(sum, records, k + 1))
    ensures var (found, reports) := Log.ReadAll(sum, LogRoundTrip.Written(sum, Records(edits, listings))[..size]);
      && reports == 0 && GoodPrefix(name, found) == |found| == k && Edits(found) == edits[..k]
      && Fresh(NO_FILES, Edits(found))
      && (Saved(lt, NO_FILES, Edits(found), k, replayed) ==> replayed == vs[k])
  {
    hide Encodable, Lists, EncodeTo, Decode, Saved, Chain, Log.ReadAll, LogRoundTrip.Written, LogRoundTrip.Ends, WeakOrder;
    var records := Records(edits, listings);
    LogRoundTrip.ReadsBack(sum, records, size, k);
    var found := records[..k];
    forall i | 0 <= i < k ensures Edits(found)[i] == edits[i] && Good(name, found[i]) {
      EditRoundTrip(edits[i], listings[i]);
    }
    assert Edits(found) == edits[..k];
    FreshPrefix(NO_FILES, edits, k);
    if Saved(lt, NO_FILES, edits[..k], k, replayed) {
      PrefixReplay(lt, edits, vs, k, replayed);
    }
  }

  lemma PrefixReplay(lt: KeyOrder, edits: seq<Edit>, vs: seq<Levels>, k: nat, replayed: Levels)
    requires WeakOrder(lt) && Chain(lt, edits, vs) && Fresh(vs[0], edits) && k <= |edits|
    requires Saved(lt, vs[0], edits[..k], k, replayed)
    ensures replayed == vs[k]
  {
    forall level | 0 <= level < DbFormat.NUM_LEVELS ensures SavedAt(lt, vs[0][level], edits, k, level, replayed[level]) {
      assert SavedAt(lt, vs[0][level], edits[..k], k, level, replayed[level]);
      PrefixStable(edits, k, k, level);
    }
    ReplayIsInstall(lt, edits, vs, k, replayed);
  }

  /** The edits that were logged, one complete record each, and the versions they led to. */
  ghost predicate Logged(lt: KeyOrder, name: Bytes, edits: seq<Edit>, listings: seq<seq<(nat, nat)>>, vs: seq<Levels>) {
    && WeakOrder(lt) && |listings| == |edits|
    && (forall i :: 0 <= i < |edits| ==>
          Encodable(edits[i]) && Lists(listings[i], edits[i].deleted) && (edits[i].comparator.Some? ==> edits[i].comparator.value == name))
    && Chain(lt, edits, vs) && vs[0] == NO_FILES && Fresh(NO_FILES, edits)
  }

  /** The file is what a crash left of a MANIFEST with these edits: the first `k` complete. */
  ghost predicate CutAfter(sum: Log.Checksum, file: Bytes, edits: seq<Edit>, listings: seq<seq<(nat, nat)>>, k: nat) {
    && |listings| == |edits| && k <= |edits| && sum.Sound()
    && var records := Records(edits, listings);
    && file <= LogRoundTrip.Written(sum, records) && LogRoundTrip.Ends(sum, records, k) <= |file|
    && (k < |edits| ==> |file| < LogRoundTrip.Ends(sum, records, k + 1))
  }

  lemma FileHolds(sum: Log.Checksum, lt: KeyOrder, name: Bytes, file: Bytes, edits: seq<Edit>,
                  listings: seq<seq<(nat, nat)>>, vs: seq<Levels>, k: nat, levels: Levels)
    requires Logged(lt, name, edits, listings, vs) && CutAfter(sum, file, edits, listings, k)
    ensures k < |vs| && WeakOrder(lt)
    ensures var found := Log.ReadAll(sum, file).0;
      && GoodPrefix(name, found) == |found| == k && Edits(found) == edits[..k] && Fresh(NO_FILES, Edits(found))
      && (Saved(lt, NO_FILES, Edits(found), k, levels) ==> levels == vs[k])
  {
    hide Saved, Installed, Encodable, Lists;
    assert LogRoundTrip.Written(sum, Records(edits, listings))[..|file|] == file;
    ManifestReplay(sum, lt, name, edits, listings, vs, |file|, k, levels);
  }

  /** From the bytes of the file to the version set: recovery gives the version after the last
      edit that was logged in full, with each number as the last edit that set it has it; it
      fails only while a number has never been set. */
  method RecoverFile(sum: Log.Checksum, lt: KeyOrder, name: Bytes, file: Bytes, ghost edits: seq<Edit>,
                     ghost listings: seq<seq<(nat, nat)>>, ghost vs: seq<Levels>, ghost k: nat) returns (r: Result)
    requires Logged(lt, name, edits, listings, vs) && CutAfter(sum, file, edits, listings, k)
    ensures k < |vs| && k <= |edits|
    ensures r == match LatestNumbers(edits[..k]) case None => Corruption case Some(numbers) => Ok(vs[k], numbers)
  {
    hide Saved, Fresh, Decode, Logged, Log.ReadAll, LogRoundTrip.Written, LogRoundTrip.Ends, GoodPrefix, Edits, LatestNumbers, WeakOrder;
    FileHolds(sum, lt, name, file, edits, listings, vs, k, NO_FILES);
    var (found, reports) := Log.ReadAll(sum, file);
    assert Edits(found)[..k] == Edits(found);
    r := Recover(lt, name, found);
    FileHolds(sum, lt, name, file, edits, listings, vs, k, if r.Ok? then r.levels else NO_FILES);
  }
}
