/** Searching a version: file lists and point reads (db/version_set.cc). */
module Version {
  import opened DbFormat
  import opened Tables

  const MAX_MEM_COMPACT_LEVEL := 2

  type Levels = ls: seq<seq<File>> | |ls| == NUM_LEVELS witness [[], [], [], [], [], [], []]

  // ------------------------------------------------------------ range questions

  /** A user-key bound of a range; the code's NULL is `Unbounded`. */
  datatype Bound = Unbounded | At(key: UserKey)

  predicate AfterFile(k: Bound, f: File) {
    k.At? && k.key > f.Largest().key
  }

  predicate BeforeFile(k: Bound, f: File) {
    k.At? && k.key < f.Smallest().key
  }

  /** The user-key range of `f` meets [lo, hi]. */
  predicate Meets(f: File, lo: Bound, hi: Bound) {
    !AfterFile(lo, f) && !BeforeFile(hi, f)
  }

  /** No key sorts before the earliest key a seek can ask for. */
  ghost predicate Seekable(files: seq<File>) {
    forall f :: f in files ==> f.Largest().Tag() <= Pack(MAX_SEQUENCE, KIND_FOR_SEEK)
  }

  /** Index of the first file whose largest key is at or after `(k, tag)`. */
  method FindFile(files: seq<File>, k: UserKey, tag: nat) returns (right: nat)
    requires Disjoint(files)
    ensures right <= |files|
    ensures forall i :: 0 <= i < right ==> KeyPrecedes(files[i].Largest().key, files[i].Largest().Tag(), k, tag)
    ensures forall i :: right <= i < |files| ==> !KeyPrecedes(files[i].Largest().key, files[i].Largest().Tag(), k, tag)
  {
    var left := 0;
    right := |files|;
    while left < right
      invariant left <= right <= |files|
      invariant forall i :: 0 <= i < left ==> KeyPrecedes(files[i].Largest().key, files[i].Largest().Tag(), k, tag)
      invariant forall i :: right <= i < |files| ==> !KeyPrecedes(files[i].Largest().key, files[i].Largest().Tag(), k, tag)
    {
      var mid := (left + right) / 2;
      LargestAscend(files, mid);
      if KeyPrecedes(files[mid].Largest().key, files[mid].Largest().Tag(), k, tag) {
        left := mid + 1;
      } else {
        right := mid;
      }
    }
  }

  lemma LargestAscend(files: seq<File>, m: nat)
    requires Disjoint(files) && m < |files|
    ensures forall i :: 0 <= i < m ==> Precedes(files[i].Largest(), files[m].Largest())
    ensures forall i :: m < i < |files| ==> Precedes(files[m].Largest(), files[i].Largest())
  {
    forall i | 0 <= i < m ensures Precedes(files[i].Largest(), files[m].Largest()) {
      FileBounds(files[m], files[m].Largest());
      assert Precedes(files[i].Largest(), files[m].Smallest());
    }
    forall i | m < i < |files| ensures Precedes(files[m].Largest(), files[i].Largest()) {
      FileBounds(files[i], files[i].Largest());
      assert Precedes(files[m].Largest(), files[i].Smallest());
    }
  }

  /** The disjoint search starts from a seek, which passes a file whose largest key has the
      user key that is looked for but sorts before every key a seek can ask for. */
  predicate PassedBySeek(f: File, lo: Bound) {
    lo.At? && KeyPrecedes(f.Largest().key, f.Largest().Tag(), lo.key, Pack(MAX_SEQUENCE, KIND_FOR_SEEK))
  }

  /** A table that meets the range and is passed: its last key is of an unknown type and has
      the largest sequence number. */
  lemma PassedTable(k: UserKey)
    ensures var f: File := Table(1, [Entry(k, MAX_SEQUENCE, 2, [])]); Meets(f, At(k), At(k)) && PassedBySeek(f, At(k))
  {
  }

  /** Exact for all files: in the disjoint search those that the seek passes do not count.  With
      keys that a seek can reach, the answer is whether some file meets the range. */
  method SomeFileOverlapsRange(disjointSortedFiles: bool, files: seq<File>, lo: Bound, hi: Bound)
      returns (overlaps: bool)
    requires disjointSortedFiles ==> Disjoint(files)
    ensures overlaps <==> exists f :: f in files && Meets(f, lo, hi) && !(disjointSortedFiles && PassedBySeek(f, lo))
    ensures Seekable(files) ==> (overlaps <==> exists f :: f in files && Meets(f, lo, hi))
  {
    if !disjointSortedFiles {
      // Any of the files may meet the range
      for i := 0 to |files|
        invariant forall j :: 0 <= j < i ==> !Meets(files[j], lo, hi)
      {
        if !AfterFile(lo, files[i]) && !BeforeFile(hi, files[i]) {
          assert files[i] in files;
          return true;
        }
      }
      return false;
    }
    var index := 0;
    if lo.At? {
      index := FindFile(files, lo.key, Pack(MAX_SEQUENCE, KIND_FOR_SEEK));
    }
    assert forall i :: 0 <= i < |files| ==> (PassedBySeek(files[i], lo) <==> i < index);
    if index >= |files| {
      return false;
    }
    overlaps := !BeforeFile(hi, files[index]);
    assert files[index] in files;
    if !overlaps {
      forall f | f in files && !PassedBySeek(f, lo) ensures !Meets(f, lo, hi) {
        var i :| 0 <= i < |files| && files[i] == f;
        if i > index {
          assert Precedes(files[index].Largest(), files[i].Smallest());
          FileBounds(files[index], files[index].Largest());
        }
      }
    }
  }

  /** The file overlaps the user-key range, and the overlap test of its level notices it. */
  predicate SeenOn(level: nat, f: File, lo: UserKey, hi: UserKey) {
    f.Overlaps(lo, hi) && !(level > 0 && PassedBySeek(f, At(lo)))
  }

  ghost predicate SomeSeen(levels: Levels, level: nat, lo: UserKey, hi: UserKey)
    requires level < NUM_LEVELS
  {
    exists f :: f in levels[level] && SeenOn(level, f, lo, hi)
  }

  /** The deepest level a new table may be pushed to.  `tooMuchBelow[l]` is the answer of
      the grandparent size test at level `l`. */
  method PickLevelForMemTableOutput(levels: Levels, lo: UserKey, hi: UserKey, tooMuchBelow: seq<bool>)
      returns (level: nat)
    requires forall l :: 1 <= l < NUM_LEVELS ==> Disjoint(levels[l])
    requires |tooMuchBelow| == MAX_MEM_COMPACT_LEVEL
    ensures level <= MAX_MEM_COMPACT_LEVEL
    ensures level > 0 ==> forall l, f :: 0 <= l <= level && f in levels[l] ==> !SeenOn(l, f, lo, hi)
    ensures level > 0 && (forall l :: 1 <= l < NUM_LEVELS ==> Seekable(levels[l])) ==>
              forall l, f :: 0 <= l <= level && f in levels[l] ==> !f.Overlaps(lo, hi)
    ensures level > 0 ==> !tooMuchBelow[level - 1]
    ensures level < MAX_MEM_COMPACT_LEVEL ==>
              || tooMuchBelow[level]
              || SomeSeen(levels, level + 1, lo, hi)
              || (level == 0 && SomeSeen(levels, 0, lo, hi))
  {
    level := 0;
    var overlap := SomeFileOverlapsRange(false, levels[0], At(lo), At(hi));
    assert forall f: File :: Meets(f, At(lo), At(hi)) <==> f.Overlaps(lo, hi);
    if overlap {
      var f :| f in levels[0] && Meets(f, At(lo), At(hi));
      assert f in levels[0] && SeenOn(0, f, lo, hi);
    } else {
      while level < MAX_MEM_COMPACT_LEVEL
        invariant level <= MAX_MEM_COMPACT_LEVEL
        invariant forall l, f :: 0 <= l <= level && f in levels[l] ==> !SeenOn(l, f, lo, hi)
        invariant level > 0 ==> !tooMuchBelow[level - 1]
      {
        overlap := SomeFileOverlapsRange(true, levels[level + 1], At(lo), At(hi));
        if overlap {
          var f :| f in levels[level + 1] && Meets(f, At(lo), At(hi)) && !PassedBySeek(f, At(lo));
          assert f in levels[level + 1] && SeenOn(level + 1, f, lo, hi);
          break;
        }
        if tooMuchBelow[level] {
          break;
        }
        level := level + 1;
      }
    }
  }

  // --------------------------------------------------------- GetOverlappingInputs

  /** The files of `files` that meet the range, in list order. */
  function Meeting(files: seq<File>, lo: Bound, hi: Bound): seq<File> {
    if files == [] then []
    else
      var n := |files| - 1;
      Meeting(files[..n], lo, hi) + if Meets(files[n], lo, hi) then [files[n]] else []
  }

  lemma {:induction false} MeetingMembers(files: seq<File>, lo: Bound, hi: Bound)
    ensures forall f :: f in Meeting(files, lo, hi) <==> f in files && Meets(f, lo, hi)
  {
    if files != [] {
      var n := |files| - 1;
      MeetingMembers(files[..n], lo, hi);
      assert files == files[..n] + [files[n]];
    }
  }

  /** [lo, hi] contains [a, b]. */
  predicate Contains(lo: Bound, hi: Bound, a: Bound, b: Bound) {
    && (lo.At? <==> a.At?) && (hi.At? <==> b.At?)
    && (lo.At? ==> lo.key <= a.key) && (hi.At? ==> b.key <= hi.key)
  }

  /** No file that meets the range sticks out of it on a bounded side. */
  ghost predicate Closed(files: seq<File>, lo: Bound, hi: Bound) {
    forall f :: f in files && Meets(f, lo, hi) ==>
      (lo.At? ==> lo.key <= f.Smallest().key) && (hi.At? ==> f.Largest().key <= hi.key)
  }

  /** The least range that contains [begin, end] and is closed under the overlaps of
      `files`. */
  ghost predicate LeastClosed(files: seq<File>, begin: Bound, end: Bound, lo: Bound, hi: Bound) {
    && Contains(lo, hi, begin, end)
    && Closed(files, lo, hi)
    && forall a, b :: Contains(a, b, begin, end) && Closed(files, a, b) ==> Contains(a, b, lo, hi)
  }

  predicate InRange(x: UserKey, lo: Bound, hi: Bound) {
    (lo.At? ==> lo.key <= x) && (hi.At? ==> x <= hi.key)
  }

  ghost predicate CoveredBy(S: set<File>, x: UserKey) {
    exists f :: f in S && f.Covers(x)
  }

  ghost function Files(files: seq<File>): set<File> {
    set f | f in files
  }

  /** A range that grew from [begin, end] only as far as overlapping files force it. */
  ghost predicate GrownRange(files: seq<File>, begin: Bound, end: Bound, lo: Bound, hi: Bound) {
    && Contains(lo, hi, begin, end)
    && (forall a, b :: Contains(a, b, begin, end) && Closed(files, a, b) ==> Contains(a, b, lo, hi))
    && (forall x :: InRange(x, lo, hi) ==> InRange(x, begin, end) || CoveredBy(Files(files), x))
  }

  lemma GrowLower(files: seq<File>, begin: Bound, end: Bound, lo: Bound, hi: Bound, f: File)
    requires GrownRange(files, begin, end, lo, hi) && f in files && Meets(f, lo, hi)
    requires lo.At? && f.Smallest().key < lo.key
    ensures GrownRange(files, begin, end, At(f.Smallest().key), hi)
    ensures SticksOutBelow(files, At(f.Smallest().key)) < SticksOutBelow(files, lo)
  {
    assert f in SticksOutBelow(files, lo) && f !in SticksOutBelow(files, At(f.Smallest().key));
    assert forall x :: f.Covers(x) ==> CoveredBy(Files(files), x);
  }

  lemma GrowUpper(files: seq<File>, begin: Bound, end: Bound, lo: Bound, hi: Bound, f: File)
    requires GrownRange(files, begin, end, lo, hi) && f in files && Meets(f, lo, hi)
    requires hi.At? && f.Largest().key > hi.key
    ensures GrownRange(files, begin, end, lo, At(f.Largest().key))
    ensures SticksOutAbove(files, At(f.Largest().key)) < SticksOutAbove(files, hi)
  {
    assert f in SticksOutAbove(files, hi) && f !in SticksOutAbove(files, At(f.Largest().key));
    assert forall x :: f.Covers(x) ==> CoveredBy(Files(files), x);
  }

  /** The files that could still pull the lower bound down. */
  ghost function SticksOutBelow(files: seq<File>, lo: Bound): set<File> {
    set f | f in files && lo.At? && f.Smallest().key < lo.key
  }

  ghost function SticksOutAbove(files: seq<File>, hi: Bound): set<File> {
    set f | f in files && hi.At? && f.Largest().key > hi.key
  }

  lemma MeetingSnoc(files: seq<File>, i: nat, lo: Bound, hi: Bound)
    requires i < |files|
    ensures Meeting(files[..i + 1], lo, hi) == Meeting(files[..i], lo, hi) + if Meets(files[i], lo, hi) then [files[i]] else []
    ensures Closed(files[..i], lo, hi) && (Meets(files[i], lo, hi) ==> Closed([files[i]], lo, hi)) ==> Closed(files[..i + 1], lo, hi)
  {
    assert files[..i + 1][..i] == files[..i];
    assert forall g :: g in files[..i + 1] ==> g in files[..i] || g == files[i];
    assert files[i] in [files[i]];
  }

  lemma RangeStarts(files: seq<File>, begin: Bound, end: Bound)
    ensures GrownRange(files, begin, end, begin, end)
    ensures Meeting(files[..0], begin, end) == [] && Closed(files[..0], begin, end)
  {
  }

  lemma NothingYet(files: seq<File>, lo: Bound, hi: Bound)
    ensures Meeting(files[..0], lo, hi) == [] && Closed(files[..0], lo, hi)
  {
  }

  lemma ClosedOne(f: File, lo: Bound, hi: Bound)
    ensures !(lo.At? && f.Smallest().key < lo.key) && !(hi.At? && f.Largest().key > hi.key) ==> Closed([f], lo, hi)
  {
  }

  lemma RangeIsLeast(files: seq<File>, begin: Bound, end: Bound, lo: Bound, hi: Bound)
    requires GrownRange(files, begin, end, lo, hi)
    ensures Closed(files, lo, hi) ==> LeastClosed(files, begin, end, lo, hi)
  {
  }

  /** All files of a level that meet [begin, end].  On level 0 the range grows while the
      selected files stick out of it, and the scan restarts. */
  method GetOverlappingInputs(level: nat, files: seq<File>, begin: Bound, end: Bound)
    returns (inputs: seq<File>, ghost lo: Bound, ghost hi: Bound)
    ensures inputs == Meeting(files, lo, hi)
    ensures level > 0 ==> lo == begin && hi == end
    ensures level == 0 ==> LeastClosed(files, begin, end, lo, hi)
    ensures forall x :: InRange(x, lo, hi) ==> InRange(x, begin, end) || CoveredBy(Files(inputs), x)
  {
    hide CoveredBy, SticksOutBelow, SticksOutAbove, GrownRange, Closed, LeastClosed, Meeting;
    inputs := [];
    var userBegin, userEnd := begin, end;
    RangeStarts(files, begin, end);
    var i := 0;
    while i < |files|
      invariant i <= |files|
      invariant inputs == Meeting(files[..i], userBegin, userEnd)
      invariant level > 0 ==> userBegin == begin && userEnd == end
      invariant GrownRange(files, begin, end, userBegin, userEnd)
      invariant level == 0 ==> Closed(files[..i], userBegin, userEnd)
      decreases SticksOutBelow(files, userBegin), SticksOutAbove(files, userEnd), |files| - i
    {
      var f := files[i];
      MeetingSnoc(files, i, userBegin, userEnd);
      ClosedOne(f, userBegin, userEnd);
      i := i + 1;
      if userBegin.At? && f.Largest().key < userBegin.key {
        // The file ends before the range begins
      } else if userEnd.At? && f.Smallest().key > userEnd.key {
        // The file begins behind the range
      } else {
        inputs := inputs + [f];
        if level == 0 {
          if userBegin.At? && f.Smallest().key < userBegin.key {
            GrowLower(files, begin, end, userBegin, userEnd, f);
            userBegin := At(f.Smallest().key);
            NothingYet(files, userBegin, userEnd);
            inputs := [];
            i := 0;
          } else if userEnd.At? && f.Largest().key > userEnd.key {
            GrowUpper(files, begin, end, userBegin, userEnd, f);
            userEnd := At(f.Largest().key);
            NothingYet(files, userBegin, userEnd);
            inputs := [];
            i := 0;
          }
        }
      }
    }
    assert files[..|files|] == files;
    lo, hi := userBegin, userEnd;
    RangeIsLeast(files, begin, end, lo, hi);
    SelectionCovers(files, begin, end, lo, hi);
  }

  lemma SelectionCovers(files: seq<File>, begin: Bound, end: Bound, lo: Bound, hi: Bound)
    requires GrownRange(files, begin, end, lo, hi)
    ensures forall x :: InRange(x, lo, hi) ==> InRange(x, begin, end) || CoveredBy(Files(Meeting(files, lo, hi)), x)
  {
    MeetingMembers(files, lo, hi);
    forall x | InRange(x, lo, hi) && !InRange(x, begin, end) ensures CoveredBy(Files(Meeting(files, lo, hi)), x) {
      var f :| f in Files(files) && f.Covers(x);
      assert f in Files(Meeting(files, lo, hi));
    }
  }
}
