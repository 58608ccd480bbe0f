/** Choosing what to compact (db/version_set.cc: GetRange, PickCompaction,
    SetupOtherInputs, CompactRange).  Which file comes first and whether the byte limits
    allow an expansion are left to the caller: the results hold for every choice. */
module CompactionInputs {
  import opened DbFormat
  import opened Tables
  import opened Version

  /** `g` meets the user-key hull of `S`. */
  ghost predicate MeetsHull(g: File, S: set<File>) {
    exists a, b :: a in S && b in S && g.Overlaps(a.Smallest().key, b.Largest().key)
  }

  predicate Between(x: UserKey, a: File, b: File) {
    a.Smallest().key <= x <= b.Largest().key
  }

  /** Every user key inside the hull of `S` lies in the range of some file of `U`. */
  ghost predicate HullCovered(S: set<File>, U: set<File>) {
    forall x, a, b :: a in S && b in S && Between(x, a, b) ==> CoveredBy(U, x)
  }

  ghost predicate Gapless(S: set<File>) {
    HullCovered(S, S)
  }

  /** What every compaction input set satisfies, picked or manual. */
  ghost predicate LegalInputs(levels: Levels, level: nat, in0: set<File>, in1: set<File>) {
    && level + 1 < NUM_LEVELS
    && in0 != {}
    && (forall f :: f in in0 ==> f in levels[level])
    && (forall g :: g in in1 <==> g in levels[level + 1] && MeetsHull(g, in0))
    && (level == 0 ==> forall f :: f in levels[0] && MeetsHull(f, in0) ==> f in in0)
  }

  /** The smallest and the largest user key of the files. */
  ghost predicate IsHull(files: seq<File>, lo: UserKey, hi: UserKey) {
    && (exists a :: a in files && a.Smallest().key == lo)
    && (exists b :: b in files && b.Largest().key == hi)
    && forall f :: f in files ==> lo <= f.Smallest().key && f.Largest().key <= hi
  }

  /** The user-key hull of a list of files. */
  method GetRange(inputs: seq<File>) returns (lo: UserKey, hi: UserKey)
    requires inputs != []
    ensures IsHull(inputs, lo, hi)
  {
    var smallest, largest := inputs[0].Smallest(), inputs[0].Largest();
    ghost var a, b := inputs[0], inputs[0];
    for i := 1 to |inputs|
      invariant a in inputs && a.Smallest() == smallest
      invariant b in inputs && b.Largest() == largest
      invariant forall j :: 0 <= j < i ==> smallest.key <= inputs[j].Smallest().key && inputs[j].Largest().key <= largest.key
    {
      if Precedes(inputs[i].Smallest(), smallest) {
        smallest, a := inputs[i].Smallest(), inputs[i];
      }
      if Precedes(largest, inputs[i].Largest()) {
        largest, b := inputs[i].Largest(), inputs[i];
      }
    }
    return smallest.key, largest.key;
  }

  /** Selecting by the hull range is selecting by `MeetsHull`. */
  lemma HullMembers(files: seq<File>, S: set<File>, lo: UserKey, hi: UserKey)
    requires exists a :: a in S && a.Smallest().key == lo
    requires exists b :: b in S && b.Largest().key == hi
    requires forall f :: f in S ==> lo <= f.Smallest().key && f.Largest().key <= hi
    ensures forall g :: g in Meeting(files, At(lo), At(hi)) <==> g in files && MeetsHull(g, S)
  {
    MeetingMembers(files, At(lo), At(hi));
    forall g: File ensures Meets(g, At(lo), At(hi)) <==> MeetsHull(g, S) {
      if Meets(g, At(lo), At(hi)) {
        var a :| a in S && a.Smallest().key == lo;
        var b :| b in S && b.Largest().key == hi;
        assert g.Overlaps(a.Smallest().key, b.Largest().key);
      }
    }
  }

  /** Adding files that meet a covered hull leaves no gap. */
  lemma CoveredUnion(S: set<File>, T: set<File>, U: set<File>)
    requires HullCovered(S, U) && S <= U && T <= U
    requires forall g :: g in T ==> MeetsHull(g, S)
    ensures HullCovered(S + T, U)
  {
    forall x, a, b | a in S + T && b in S + T && Between(x, a, b) ensures CoveredBy(U, x) {
      if !a.Covers(x) && !b.Covers(x) {
        // x lies between a and b: find members of S on both sides of x
        var p, q := a, b;
        if a !in S {
          var c, d :| c in S && d in S && a.Overlaps(c.Smallest().key, d.Largest().key);
          p := c;
        }
        if b !in S {
          var c, d :| c in S && d in S && b.Overlaps(c.Smallest().key, d.Largest().key);
          q := d;
        }
        assert Between(x, p, q);
      }
    }
  }

  /** On level 0 the selection is closed under overlap of user keys. */
  lemma LeastClosedSelection(files: seq<File>, lo: Bound, hi: Bound, inputs: seq<File>)
    requires inputs == Meeting(files, lo, hi) && Closed(files, lo, hi)
    ensures forall f :: f in files && MeetsHull(f, Files(inputs)) ==> f in inputs
  {
    MeetingMembers(files, lo, hi);
    forall f | f in files && MeetsHull(f, Files(inputs)) ensures f in inputs {
      var a, b :| a in inputs && b in inputs && f.Overlaps(a.Smallest().key, b.Largest().key);
    }
  }

  // ------------------------------------------------------------ which inputs, exactly

  /** The files of a level that meet a range; on level 0 of the least range around it that no
      file sticks out of. */
  ghost predicate Selects(level: nat, files: seq<File>, begin: Bound, end: Bound, selected: seq<File>) {
    exists lo, hi ::
      && (if level > 0 then lo == begin && hi == end else LeastClosed(files, begin, end, lo, hi))
      && selected == Meeting(files, lo, hi)
  }

  ghost predicate SelectsHull(level: nat, files: seq<File>, around: seq<File>, selected: seq<File>) {
    exists lo, hi :: IsHull(around, lo, hi) && Selects(level, files, At(lo), At(hi), selected)
  }

  lemma HullSelects(level: nat, files: seq<File>, around: seq<File>, lo: UserKey, hi: UserKey, selected: seq<File>, l: Bound, h: Bound)
    requires IsHull(around, lo, hi) && selected == Meeting(files, l, h)
    requires if level > 0 then l == At(lo) && h == At(hi) else LeastClosed(files, At(lo), At(hi), l, h)
    ensures SelectsHull(level, files, around, selected)
  {
    hide LeastClosed, IsHull;
    assert Selects(level, files, At(lo), At(hi), selected);
  }

  /** The files of the next level that a list of files meets. */
  ghost predicate NextTo(levels: Levels, level: nat, around: seq<File>, selected: seq<File>)
    requires level + 1 < NUM_LEVELS
  {
    SelectsHull(level + 1, levels[level + 1], around, selected)
  }

  lemma IsNextTo(levels: Levels, level: nat, around: seq<File>, selected: seq<File>)
    requires level + 1 < NUM_LEVELS && SelectsHull(level + 1, levels[level + 1], around, selected)
    ensures NextTo(levels, level, around, selected)
  {
  }

  /** The inputs become all files of the level within the hull of both levels, if these are more
      and within the limit, and if they meet just as many files of the next level. */
  ghost predicate Grown(levels: Levels, level: nat, old0: seq<File>, old1: seq<File>, withinLimit: bool,
                        in0: seq<File>, in1: seq<File>)
    requires level + 1 < NUM_LEVELS
  {
    exists more0, more1 ::
      && SelectsHull(level, levels[level], old0 + old1, more0)
      && (|more0| > |old0| && withinLimit ==> NextTo(levels, level, more0, more1))
      && if |more0| > |old0| && withinLimit && |more1| == |old1| then in0 == more0 && in1 == more1 else in0 == old0 && in1 == old1
  }

  lemma GrownIs(levels: Levels, level: nat, old0: seq<File>, old1: seq<File>, withinLimit: bool,
                more0: seq<File>, more1: seq<File>)
    requires level + 1 < NUM_LEVELS && SelectsHull(level, levels[level], old0 + old1, more0)
    requires |more0| > |old0| && withinLimit ==> NextTo(levels, level, more0, more1)
    ensures if |more0| > |old0| && withinLimit && |more1| == |old1| then Grown(levels, level, old0, old1, withinLimit, more0, more1)
            else Grown(levels, level, old0, old1, withinLimit, old0, old1)
  {
    hide SelectsHull, NextTo;
  }

  /** The first inputs, with what they meet on the next level, and grown if they meet something. */
  ghost predicate SetUp(levels: Levels, level: nat, first: seq<File>, withinLimit: bool, in0: seq<File>, in1: seq<File>)
    requires level + 1 < NUM_LEVELS
  {
    exists next ::
      && NextTo(levels, level, first, next)
      && if next == [] then in0 == first && in1 == [] else Grown(levels, level, first, next, withinLimit, in0, in1)
  }

  /** Grows the inputs of `level` and adds the overlapping files of `level + 1`.
      `withinLimit` is the answer of the byte-size test. */
  method SetupOtherInputs(levels: Levels, level: nat, first: seq<File>, withinLimit: bool) returns (in0: seq<File>,
                          in1: seq<File>)
    requires level + 1 < NUM_LEVELS && first != [] && Files(first) <= Files(levels[level])
    requires level == 0 ==> forall f :: f in levels[0] && MeetsHull(f, Files(first)) ==> f in first
    ensures LegalInputs(levels, level, Files(in0), Files(in1))
    ensures Files(first) <= Files(in0) && SetUp(levels, level, first, withinLimit, in0, in1)
    ensures Gapless(Files(first)) ==> Gapless(Files(in0) + Files(in1))
  {
    hide SelectsHull, Grown;
    in0 := first;
    var lo, hi := GetRange(in0);
    ghost var l, h;
    in1, l, h := GetOverlappingInputs(level + 1, levels[level + 1], At(lo), At(hi));
    HullMembers(levels[level + 1], Files(in0), lo, hi);
    ghost var next := in1;
    HullSelects(level + 1, levels[level + 1], first, lo, hi, next, l, h);
    assert NextTo(levels, level, first, next);
    if Gapless(Files(in0)) {
      CoveredUnion(Files(in0), Files(in1), Files(in0) + Files(in1));
    }
    if in1 != [] {
      in0, in1 := GrowInputs(levels, level, in0, in1, withinLimit);
    }
  }

  /** The grown selection is as good as the one it replaces. */
  lemma GrownSelection(levels: Levels, level: nat, old0: set<File>, old1: set<File>, in0: set<File>, in1: set<File>,
                       lo: UserKey, hi: UserKey, l: Bound, h: Bound)
    requires LegalInputs(levels, level, old0, old1)
    requires exists a :: a in old0 + old1 && a.Smallest().key == lo
    requires exists b :: b in old0 + old1 && b.Largest().key == hi
    requires forall f :: f in old0 + old1 ==> lo <= f.Smallest().key && f.Largest().key <= hi
    requires forall f :: f in in0 <==> f in levels[level] && Meets(f, l, h)
    requires Contains(l, h, At(lo), At(hi))
    requires forall x :: InRange(x, l, h) ==> InRange(x, At(lo), At(hi)) || CoveredBy(in0, x)
    requires forall g :: g in in1 <==> g in levels[level + 1] && MeetsHull(g, in0)
    ensures old0 <= in0 && old1 <= in1
    ensures Gapless(old0 + old1) ==> Gapless(in0 + in1)
  {
    hide Gapless, CoveredBy, InRange;
    assert old0 <= in0;
    forall g | g in old1 ensures g in in1 {
      var a, b :| a in old0 && b in old0 && g.Overlaps(a.Smallest().key, b.Largest().key);
    }
    if Gapless(old0 + old1) {
      GaplessHull(old0 + old1, lo, hi);
      GrownGapless(old0 + old1, in0, in1, lo, hi, l, h);
    }
  }

  lemma GaplessHull(S: set<File>, lo: UserKey, hi: UserKey)
    requires Gapless(S)
    requires exists a :: a in S && a.Smallest().key == lo
    requires exists b :: b in S && b.Largest().key == hi
    ensures forall x :: lo <= x <= hi ==> CoveredBy(S, x)
  {
    var a :| a in S && a.Smallest().key == lo;
    var b :| b in S && b.Largest().key == hi;
    forall x | lo <= x <= hi ensures CoveredBy(S, x) {
      assert Between(x, a, b);
    }
  }

  lemma GrownGapless(S: set<File>, in0: set<File>, in1: set<File>, lo: UserKey, hi: UserKey, l: Bound, h: Bound)
    requires forall x :: lo <= x <= hi ==> CoveredBy(S, x)
    requires S <= in0 + in1
    requires forall f :: f in in0 ==> Meets(f, l, h)
    requires forall x :: InRange(x, l, h) ==> InRange(x, At(lo), At(hi)) || CoveredBy(in0, x)
    requires forall g :: g in in1 ==> MeetsHull(g, in0)
    ensures Gapless(in0 + in1)
  {
    hide Gapless, MeetsHull;
    var U := in0 + in1;
    forall x, a, b | a in in0 && b in in0 && Between(x, a, b) ensures CoveredBy(U, x) {
      if !InRange(x, l, h) {
        assert a.Covers(x) || b.Covers(x);
      } else if lo <= x <= hi {
        CoveredByMore(S, U, x);
      } else {
        CoveredByMore(in0, U, x);
      }
    }
    CoveredUnion(in0, in1, U);
    UnionGapless(U);
  }

  lemma UnionGapless(U: set<File>)
    requires HullCovered(U, U)
    ensures Gapless(U)
  {
  }

  lemma CoveredByMore(S: set<File>, T: set<File>, x: UserKey)
    requires S <= T && CoveredBy(S, x)
    ensures CoveredBy(T, x)
  {
    var f :| f in S && f.Covers(x);
    assert f in T;
  }

  lemma HullOfBoth(a: seq<File>, b: seq<File>, lo: UserKey, hi: UserKey)
    requires IsHull(a + b, lo, hi)
    ensures var S := Files(a) + Files(b);
      && (exists x :: x in S && x.Smallest().key == lo) && (exists y :: y in S && y.Largest().key == hi)
      && forall f :: f in S ==> lo <= f.Smallest().key && f.Largest().key <= hi
  {
    var x :| x in a + b && x.Smallest().key == lo;
    var y :| y in a + b && y.Largest().key == hi;
    assert x in Files(a) + Files(b) && y in Files(a) + Files(b);
  }

  lemma HullOfOne(a: seq<File>, lo: UserKey, hi: UserKey)
    requires IsHull(a, lo, hi)
    ensures var S := Files(a);
      && (exists x :: x in S && x.Smallest().key == lo) && (exists y :: y in S && y.Largest().key == hi)
      && forall f :: f in S ==> lo <= f.Smallest().key && f.Largest().key <= hi
  {
    var x :| x in a && x.Smallest().key == lo;
    var y :| y in a && y.Largest().key == hi;
    assert x in Files(a) && y in Files(a);
  }

  /** Takes more files of the level if that adds none on the level below. */
  method GrowInputs(levels: Levels, level: nat, old0: seq<File>, old1: seq<File>,
                    withinLimit: bool) returns (in0: seq<File>, in1: seq<File>)
    requires LegalInputs(levels, level, Files(old0), Files(old1)) && old0 != []
    ensures LegalInputs(levels, level, Files(in0), Files(in1))
    ensures Files(old0) <= Files(in0) && Grown(levels, level, old0, old1, withinLimit, in0, in1)
    ensures Gapless(Files(old0) + Files(old1)) ==> Gapless(Files(in0) + Files(in1))
  {
    hide SelectsHull, Grown, NextTo, IsHull, Gapless, Meeting, LeastClosed, CoveredBy, MeetsHull, Closed;
    in0, in1 := old0, old1;
    var allLo, allHi := GetRange(old0 + old1);
    HullOfBoth(old0, old1, allLo, allHi);
    var expanded0, l, h := GetOverlappingInputs(level, levels[level], At(allLo), At(allHi));
    MeetingMembers(levels[level], l, h);
    HullSelects(level, levels[level], old0 + old1, allLo, allHi, expanded0, l, h);
    if |expanded0| <= |old0| || !withinLimit {
      GrownIs(levels, level, old0, old1, withinLimit, expanded0, []);
    } else {
      var newLo, newHi := GetRange(expanded0);
      HullOfOne(expanded0, newLo, newHi);
      var expanded1, l1, h1 := GetOverlappingInputs(level + 1, levels[level + 1], At(newLo), At(newHi));
      HullMembers(levels[level + 1], Files(expanded0), newLo, newHi);
      HullSelects(level + 1, levels[level + 1], expanded0, newLo, newHi, expanded1, l1, h1);
      IsNextTo(levels, level, expanded0, expanded1);
      GrownIs(levels, level, old0, old1, withinLimit, expanded0, expanded1);
      if |expanded1| == |old1| {
        in0, in1 := expanded0, expanded1;
        IsContained(level, levels[level], At(allLo), At(allHi), l, h);
        GrownSelection(levels, level, Files(old0), Files(old1), Files(in0), Files(in1), allLo, allHi, l, h);
        if level == 0 {
          LeastClosedSelection(levels[0], l, h, expanded0);
        }
      }
    }
  }

  lemma IsContained(level: nat, files: seq<File>, begin: Bound, end: Bound, lo: Bound, hi: Bound)
    requires if level > 0 then lo == begin && hi == end else LeastClosed(files, begin, end, lo, hi)
    ensures Contains(lo, hi, begin, end) && (level == 0 ==> Closed(files, lo, hi))
  {
  }

  /** `PickCompaction` from the file it decided on. */
  method PickCompaction(levels: Levels, level: nat, pick: File, withinLimit: bool) returns (in0: seq<File>,
                        in1: seq<File>)
    requires level + 1 < NUM_LEVELS && pick in levels[level]
    ensures LegalInputs(levels, level, Files(in0), Files(in1)) && pick in in0
    ensures exists first :: SetUp(levels, level, first, withinLimit, in0, in1)
                            && if level > 0 then first == [pick] else SelectsHull(0, levels[0], [pick], first)
    ensures Gapless(Files(in0) + Files(in1))
  {
    hide SelectsHull, SetUp;
    var first := [pick];
    if level == 0 {
      var lo, hi := GetRange(first);
      ghost var l, h;
      first, l, h := GetOverlappingInputs(0, levels[0], At(lo), At(hi));
      MeetingMembers(levels[0], l, h);
      LeastClosedSelection(levels[0], l, h, first);
      HullSelects(0, levels[0], [pick], lo, hi, first, l, h);
      assert pick in first;
      forall x, a, b | a in first && b in first && Between(x, a, b) ensures CoveredBy(Files(first), x) {
        if InRange(x, At(lo), At(hi)) {
          assert pick in Files(first) && pick.Covers(x);
        }
      }
    } else {
      forall x | pick.Covers(x) ensures CoveredBy(Files(first), x) {
        assert pick in Files(first);
      }
    }
    assert pick in Files(first);
    in0, in1 := SetupOtherInputs(levels, level, first, withinLimit);
    assert SetUp(levels, level, first, withinLimit, in0, in1);
  }

  /** `CompactRange`: a manual compaction of [begin, end].  Above level 0 the list may be
      cut after any file; `keep` is where the byte limit cuts it. */
  method CompactRange(levels: Levels, level: nat, begin: Bound, end: Bound, keep: nat,
                      withinLimit: bool) returns (in0: seq<File>, in1: seq<File>)
    requires level + 1 < NUM_LEVELS
    ensures in0 == [] ==> forall f :: f in levels[level] ==> !Meets(f, begin, end)
    ensures in0 != [] ==> LegalInputs(levels, level, Files(in0), Files(in1))
    ensures exists all :: Selects(level, levels[level], begin, end, all)
                          && if all == [] then in0 == [] && in1 == []
                             else SetUp(levels, level, if level > 0 && 0 < keep < |all| then all[..keep] else all, withinLimit, in0, in1)
  {
    hide SetUp;
    var inputs, l, h := GetOverlappingInputs(level, levels[level], begin, end);
    MeetingMembers(levels[level], l, h);
    ghost var all := inputs;
    assert Selects(level, levels[level], begin, end, all);
    if inputs == [] {
      return [], [];
    }
    if level > 0 {
      if 0 < keep < |inputs| {
        inputs := inputs[..keep];
      }
    } else {
      LeastClosedSelection(levels[0], l, h, inputs);
    }
    in0, in1 := SetupOtherInputs(levels, level, inputs, withinLimit);
  }
}
