/** The compaction loop (db/db_impl.cc, DoCompactionWork) and the base-level test
    (db/version_set.cc, Compaction::IsBaseLevelForKey). */
module Compaction {
  import opened DbFormat
  import opened Tables
  import opened VersionedMap

  // ---------------------------------------------------------------- drop rules

  /** `last_sequence_for_key` when the loop looks at `input[i]`: the sequence number of
      the previous entry if that entry parses and has the same user key. */
  function LastSequenceForKey(input: seq<Entry>, i: nat): Sequence
    requires i < |input|
  {
    if i > 0 && input[i - 1].Parses() && input[i - 1].key == input[i].key then input[i - 1].seqno
    else MAX_SEQUENCE
  }

  /** Rule (A): hidden by a newer entry that every snapshot already sees. */
  predicate Hidden(input: seq<Entry>, i: nat, smallest: Sequence)
    requires i < |input|
  {
    LastSequenceForKey(input, i) <= smallest
  }

  /** No file of the levels below the output level covers `k`. */
  ghost predicate IsBaseLevel(deeper: seq<seq<File>>, k: UserKey)
  {
    forall l, f :: 0 <= l < |deeper| && f in deeper[l] ==> !f.Covers(k)
  }

  ghost predicate DeeperLevels(deeper: seq<seq<File>>) {
    forall l :: 0 <= l < |deeper| ==> Disjoint(deeper[l])
  }

  /** A deletion marker that the loop drops because nothing below can be hidden by it. */
  ghost predicate ObsoleteMarker(input: seq<Entry>, i: nat, smallest: Sequence, deeper: seq<seq<File>>)
    requires i < |input| && DeeperLevels(deeper)
  {
    && !Hidden(input, i, smallest)
    && input[i].IsDeletion()
    && input[i].seqno <= smallest
    && IsBaseLevel(deeper, input[i].key)
  }

  ghost predicate Dropped(input: seq<Entry>, i: nat, smallest: Sequence, deeper: seq<seq<File>>)
    requires i < |input| && DeeperLevels(deeper)
  {
    input[i].Parses() && (Hidden(input, i, smallest) || ObsoleteMarker(input, i, smallest, deeper))
  }

  /** What the loop has written after `n` input entries. */
  ghost function Kept(input: seq<Entry>, n: nat, smallest: Sequence, deeper: seq<seq<File>>): seq<Entry>
    requires n <= |input| && DeeperLevels(deeper)
  {
    if n == 0 then []
    else Kept(input, n - 1, smallest, deeper) + (if Dropped(input, n - 1, smallest, deeper) then [] else [input[n - 1]])
  }

  lemma {:induction false} KeptMembers(input: seq<Entry>, n: nat, smallest: Sequence, deeper: seq<seq<File>>)
    requires n <= |input| && DeeperLevels(deeper)
    ensures forall e :: e in Kept(input, n, smallest, deeper) <==>
              exists i :: 0 <= i < n && input[i] == e && !Dropped(input, i, smallest, deeper)
  {
    if n > 0 {
      KeptMembers(input, n - 1, smallest, deeper);
    }
  }

  lemma {:induction false} KeptSorted(input: seq<Entry>, n: nat, smallest: Sequence, deeper: seq<seq<File>>)
    requires n <= |input| && DeeperLevels(deeper) && Sorted(input)
    ensures Sorted(Kept(input, n, smallest, deeper))
  {
    if n > 0 {
      KeptSorted(input, n - 1, smallest, deeper);
      KeptMembers(input, n - 1, smallest, deeper);
      var before := Kept(input, n - 1, smallest, deeper);
      forall i | 0 <= i < |before| ensures Precedes(before[i], input[n - 1]) {
        assert before[i] in before;
      }
    }
  }

  // --------------------------------------------------------- exactly what is written

  /** A newer entry of the user key that every snapshot sees, with nothing but parseable keys
      in between: one that does not parse makes the loop forget. */
  ghost predicate SupersededInSight(E: set<Entry>, e: Entry, smallest: Sequence) {
    exists r :: r in E && Visible(r, e.key, smallest) && r.seqno > e.seqno && AllParseBetween(E, e, r)
  }

  ghost predicate AllParseBetween(E: set<Entry>, e: Entry, r: Entry) {
    forall x :: x in E && x.key == e.key && e.seqno < x.seqno < r.seqno ==> x.Parses()
  }

  /** A deletion that every snapshot sees, at the base level of its user key. */
  ghost predicate Spent(e: Entry, smallest: Sequence, deeper: seq<seq<File>>) {
    && e.IsDeletion() && e.seqno <= smallest
    && forall l, f :: 0 <= l < |deeper| && f in deeper[l] ==> !(f.Smallest().key <= e.key <= f.Largest().key)
  }

  /** For any input: what does not parse is written, and of the rest what no newer entry in
      sight supersedes, except spent deletions.  (At the last sequence number see below.) */
  ghost predicate Survives(E: set<Entry>, e: Entry, smallest: Sequence, deeper: seq<seq<File>>) {
    e in E && (e.Parses() ==> !SupersededInSight(E, e, smallest) && !Spent(e, smallest, deeper))
  }

  /** What has the user key of an entry and is newer stands before it, newest first. */
  lemma NewerStandBefore(input: seq<Entry>, i: nat, r: Entry)
    requires Sorted(input) && Functional(Elems(input)) && i < |input|
    requires r in Elems(input) && r.key == input[i].key && r.seqno > input[i].seqno
    ensures i > 0 && input[i - 1].key == r.key && input[i].seqno < input[i - 1].seqno <= r.seqno
    ensures input[i - 1].seqno == r.seqno ==> r == input[i - 1]
  {
    var j :| 0 <= j < |input| && input[j] == r;
    assert forall a :: i < a < |input| ==> Precedes(input[i], input[a]);
    assert j < i;
    var p := input[i - 1];
    assert Precedes(p, input[i]) && p in Elems(input) && input[i] in Elems(input);
    assert j == i - 1 || Precedes(r, p);
  }

  lemma HiddenIsSuperseded(input: seq<Entry>, i: nat, smallest: Sequence)
    requires Sorted(input) && Functional(Elems(input)) && i < |input| && smallest < MAX_SEQUENCE
    ensures Hidden(input, i, smallest) <==> SupersededInSight(Elems(input), input[i], smallest)
  {
    hide Sorted;
    var E, e := Elems(input), input[i];
    if Hidden(input, i, smallest) {
      var p := input[i - 1];
      ComesBefore(input, i);
      forall x | x in E && x.key == e.key && x.seqno > e.seqno ensures x.seqno >= p.seqno {
        NewerStandBefore(input, i, x);
      }
      assert Visible(p, e.key, smallest) && AllParseBetween(E, e, p);
    }
    if r :| r in E && Visible(r, e.key, smallest) && r.seqno > e.seqno && AllParseBetween(E, e, r) {
      NewerStandBefore(input, i, r);
      assert input[i - 1] in E;
    }
  }

  lemma ComesBefore(input: seq<Entry>, i: nat)
    requires Sorted(input) && Functional(Elems(input)) && 0 < i < |input| && input[i - 1].key == input[i].key
    ensures input[i - 1] in Elems(input) && input[i - 1].seqno > input[i].seqno
  {
    assert Precedes(input[i - 1], input[i]);
    assert input[i - 1] in Elems(input) && input[i] in Elems(input);
  }

  lemma SpentIs(e: Entry, smallest: Sequence, deeper: seq<seq<File>>)
    ensures Spent(e, smallest, deeper) <==> e.IsDeletion() && e.seqno <= smallest && IsBaseLevel(deeper, e.key)
  {
    if Spent(e, smallest, deeper) {
      forall l, f | 0 <= l < |deeper| && f in deeper[l] ensures !f.Covers(e.key) {
      }
    }
    if IsBaseLevel(deeper, e.key) {
      forall l, f | 0 <= l < |deeper| && f in deeper[l] ensures !(f.Smallest().key <= e.key <= f.Largest().key) {
        assert !f.Covers(e.key);
      }
    }
  }

  /** The output as a set, from the input as a set. */
  lemma OutputIs(input: seq<Entry>, smallest: Sequence, deeper: seq<seq<File>>, e: Entry)
    requires DeeperLevels(deeper) && Sorted(input) && Functional(Elems(input)) && smallest < MAX_SEQUENCE
    ensures e in Kept(input, |input|, smallest, deeper) <==> Survives(Elems(input), e, smallest, deeper)
  {
    KeptMembers(input, |input|, smallest, deeper);
    var E := Elems(input);
    if e in E {
      var i :| 0 <= i < |input| && input[i] == e;
      HiddenIsSuperseded(input, i, smallest);
      SpentIs(e, smallest, deeper);
      OnlyOnce(input, i);
    }
  }

  lemma OnlyOnce(input: seq<Entry>, i: nat)
    requires Sorted(input) && i < |input|
    ensures forall j :: 0 <= j < |input| && input[j] == input[i] ==> j == i
  {
    assert forall a :: 0 <= a < i ==> Precedes(input[a], input[i]);
    assert forall a :: i < a < |input| ==> Precedes(input[i], input[a]);
  }

  /** With keys that parse: every entry goes that a newer entry supersedes for all snapshots,
      and every spent deletion; everything else stays. */
  lemma ParsedOutputIs(input: seq<Entry>, smallest: Sequence, deeper: seq<seq<File>>, e: Entry)
    requires DeeperLevels(deeper) && Sorted(input) && Functional(Elems(input)) && smallest < MAX_SEQUENCE
    requires AllParse(Elems(input))
    ensures e in Kept(input, |input|, smallest, deeper) <==>
            e in Elems(input) && !Superseded(Elems(input), e, smallest) && !Spent(e, smallest, deeper)
  {
    OutputIs(input, smallest, deeper, e);
    var E := Elems(input);
    if r :| r in E && Visible(r, e.key, smallest) && r.seqno > e.seqno {
      assert AllParseBetween(E, e, r);
    }
  }

  // ------------------------------------------------------- preservation of reads

  /** The entries the outputs hold. */
  ghost function Output(input: seq<Entry>, smallest: Sequence, deeper: seq<seq<File>>): set<Entry>
    requires DeeperLevels(deeper)
  {
    Elems(Kept(input, |input|, smallest, deeper))
  }

  /** The entries of `E` older than `t`. */
  ghost function Older(E: set<Entry>, t: Entry): set<Entry> {
    set x | x in E && x.seqno < t.seqno
  }

  /** A reader at `smallest` sees something newer than `t`. */
  ghost predicate Superseded(E: set<Entry>, t: Entry, smallest: Sequence) {
    exists r :: r in E && Visible(r, t.key, smallest) && r.seqno > t.seqno
  }

  /** What the loop keeps of a marker's older entries: having passed an entry that does not
      parse, it no longer hides the value behind it. */
  ghost function Resurfacing(input: seq<Entry>, i: nat): set<Entry>
    requires i < |input|
  {
    set j | i < j < |input| && input[j].key == input[i].key && input[j].kind == VALUE && !input[j - 1].Parses() :: input[j]
  }

  /** Dropping the marker `input[i]` uncovers nothing: a newer entry that every snapshot sees
      supersedes it, or nothing below it reads as present.  `rest` is everything in the
      database that is not an input. */
  ghost predicate UncoversNothing(input: seq<Entry>, i: nat, smallest: Sequence, rest: set<Entry>)
    requires i < |input|
  {
    || Superseded(rest + Elems(input), input[i], smallest)
    || Read(Older(rest, input[i]) + Resurfacing(input, i), input[i].key, smallest) == Absent
  }

  /** The condition over all markers the loop drops. */
  ghost predicate MarkersUncoverNothing(input: seq<Entry>, smallest: Sequence, deeper: seq<seq<File>>, rest: set<Entry>)
    requires DeeperLevels(deeper)
  {
    forall i :: 0 <= i < |input| && ObsoleteMarker(input, i, smallest, deeper) ==> UncoversNothing(input, i, smallest, rest)
  }

  ghost predicate ReadsPreserved(input: seq<Entry>, smallest: Sequence, deeper: seq<seq<File>>, rest: set<Entry>)
    requires DeeperLevels(deeper)
  {
    forall k: UserKey, s: Sequence :: s >= smallest ==>
      Read(rest + Output(input, smallest, deeper), k, s) == Read(rest + Elems(input), k, s)
  }

  lemma OutputSubset(input: seq<Entry>, smallest: Sequence, deeper: seq<seq<File>>)
    requires DeeperLevels(deeper)
    ensures Output(input, smallest, deeper) <= Elems(input)
  {
    KeptMembers(input, |input|, smallest, deeper);
  }

  /** A hidden entry has a newer visible entry of its user key right before it. */
  lemma HiddenIsCovered(input: seq<Entry>, i: nat, smallest: Sequence)
    requires Sorted(input) && i < |input| && smallest < MAX_SEQUENCE
    requires Functional(Elems(input))
    requires Hidden(input, i, smallest)
    ensures i > 0 && Visible(input[i - 1], input[i].key, smallest) && input[i - 1].seqno > input[i].seqno
  {
    assert Precedes(input[i - 1], input[i]);
    assert input[i - 1] in Elems(input) && input[i] in Elems(input);
  }

  /** Below a marker that `smallest` already sees, `s` sees no more than `smallest`. */
  lemma ReadBelowMarker(E: set<Entry>, t: Entry, smallest: Sequence, s: Sequence)
    requires Functional(E) && t.seqno <= smallest <= s
    ensures Read(Older(E, t), t.key, s) == Read(Older(E, t), t.key, smallest)
  {
    var older := Older(E, t);
    forall e ensures Newest(e, older, t.key, s) <==> Newest(e, older, t.key, smallest) {
    }
    if e :| Newest(e, older, t.key, s) {
      ReadIs(older, t.key, s, e);
      ReadIs(older, t.key, smallest, e);
    }
  }

  /** What one user key reads once its newest entry, the marker `input[i]`, is gone. */
  lemma ReadWithoutMarker(input: seq<Entry>, i: nat, smallest: Sequence, deeper: seq<seq<File>>, rest: set<Entry>,
                          s: Sequence)
    requires DeeperLevels(deeper) && i < |input|
    requires Functional(rest + Elems(input)) && rest !! Elems(input)
    requires s >= smallest
    requires ObsoleteMarker(input, i, smallest, deeper)
    requires Newest(input[i], rest + Elems(input), input[i].key, s)
    ensures var after := rest + Output(input, smallest, deeper);
            Read(after, input[i].key, s) == Read(Older(after, input[i]), input[i].key, smallest)
  {
    var t, after := input[i], rest + Output(input, smallest, deeper);
    OutputSubset(input, smallest, deeper);
    assert t !in after by {
      KeptMembers(input, |input|, smallest, deeper);
      assert t in Elems(input);
    }
    forall e | Visible(e, t.key, s) ensures e in after <==> e in Older(after, t) {
      if e in after {
        assert e in rest + Elems(input);
      }
    }
    ReadAgrees(after, Older(after, t), t.key, s);
    ReadBelowMarker(after, t, smallest, s);
  }

  /** Unless an obsolete marker was the newest entry, the read is untouched. */
  lemma ReadUntouched(input: seq<Entry>, smallest: Sequence, deeper: seq<seq<File>>, rest: set<Entry>, n: Entry,
                      k: UserKey, s: Sequence)
    requires DeeperLevels(deeper) && Sorted(input)
    requires Functional(rest + Elems(input)) && rest !! Elems(input)
    requires smallest < MAX_SEQUENCE && s >= smallest
    requires Newest(n, rest + Elems(input), k, s)
    requires forall i :: 0 <= i < |input| && ObsoleteMarker(input, i, smallest, deeper) ==> input[i] != n
    ensures Read(rest + Output(input, smallest, deeper), k, s) == Read(rest + Elems(input), k, s)
  {
    var all, out := rest + Elems(input), Output(input, smallest, deeper);
    OutputSubset(input, smallest, deeper);
    assert n in rest + out by {
      if n !in rest {
        KeptMembers(input, |input|, smallest, deeper);
        var i :| 0 <= i < |input| && input[i] == n;
        if Hidden(input, i, smallest) {
          HiddenIsCovered(input, i, smallest);
          assert input[i - 1] in all && Visible(input[i - 1], k, s);
        }
      }
    }
    assert rest + out <= all;
    assert Newest(n, rest + out, k, s);
    ReadIs(all, k, s, n);
    ReadIs(rest + out, k, s, n);
  }

  /** Below an obsolete marker the output holds, of its user key, just what resurfaces. */
  lemma SurvivorsBelow(input: seq<Entry>, i: nat, smallest: Sequence, deeper: seq<seq<File>>, e: Entry)
    requires DeeperLevels(deeper) && Sorted(input) && Functional(Elems(input)) && i < |input|
    requires smallest < MAX_SEQUENCE && ObsoleteMarker(input, i, smallest, deeper)
    requires Visible(e, input[i].key, smallest) && e.seqno < input[i].seqno
    ensures e in Output(input, smallest, deeper) <==> e in Resurfacing(input, i)
  {
    KeptMembers(input, |input|, smallest, deeper);
    if e in Output(input, smallest, deeper) {
      var j :| 0 <= j < |input| && input[j] == e && !Dropped(input, j, smallest, deeper);
      BehindMarker(input, i, j, smallest, deeper);
    }
    if e in Resurfacing(input, i) {
      var j :| i < j < |input| && input[j] == e && input[j].kind == VALUE && !input[j - 1].Parses();
      BehindMarker(input, i, j, smallest, deeper);
    }
  }

  /** What the guards of the loop amount to behind an obsolete marker. */
  lemma BehindMarker(input: seq<Entry>, i: nat, j: nat, smallest: Sequence, deeper: seq<seq<File>>)
    requires DeeperLevels(deeper) && Sorted(input) && Functional(Elems(input)) && i < |input| && j < |input|
    requires smallest < MAX_SEQUENCE && ObsoleteMarker(input, i, smallest, deeper)
    requires input[j].key == input[i].key && input[j].Parses() && input[j].seqno < input[i].seqno
    ensures i < j
    ensures Dropped(input, j, smallest, deeper) <==> input[j].IsDeletion() || input[j - 1].Parses()
  {
    assert forall a :: 0 <= a < i ==> Precedes(input[a], input[i]);
    assert Precedes(input[j - 1], input[j]);
    assert i == j - 1 || Precedes(input[i], input[j - 1]);
  }

  /** What is left below a dropped marker once the inputs are rewritten. */
  lemma ReadBelow(input: seq<Entry>, i: nat, smallest: Sequence, deeper: seq<seq<File>>, rest: set<Entry>)
    requires DeeperLevels(deeper) && Sorted(input) && i < |input|
    requires Functional(rest + Elems(input)) && rest !! Elems(input)
    requires smallest < MAX_SEQUENCE && ObsoleteMarker(input, i, smallest, deeper)
    ensures var t := input[i];
            Read(Older(rest + Output(input, smallest, deeper), t), t.key, smallest) == Read(Older(rest, t) + Resurfacing(input, i), t.key, smallest)
  {
    var t := input[i];
    var A, B := Older(rest + Output(input, smallest, deeper), t), Older(rest, t) + Resurfacing(input, i);
    OutputSubset(input, smallest, deeper);
    assert Resurfacing(input, i) <= Elems(input);
    forall e | Visible(e, t.key, smallest) ensures e in A <==> e in B {
      if e in Resurfacing(input, i) {
        var j :| i < j < |input| && input[j] == e;
        assert Precedes(t, e) && t in Elems(input) && e in Elems(input);
      }
      if e.seqno < t.seqno {
        SurvivorsBelow(input, i, smallest, deeper, e);
      }
    }
    ReadAgrees(A, B, t.key, smallest);
  }

  lemma ReadPreserved(input: seq<Entry>, smallest: Sequence, deeper: seq<seq<File>>, rest: set<Entry>, k: UserKey, s: Sequence)
    requires DeeperLevels(deeper) && Sorted(input)
    requires Functional(rest + Elems(input)) && rest !! Elems(input)
    requires smallest < MAX_SEQUENCE && s >= smallest
    requires MarkersUncoverNothing(input, smallest, deeper, rest)
    ensures Read(rest + Output(input, smallest, deeper), k, s) == Read(rest + Elems(input), k, s)
  {
    hide Resurfacing;
    var all := rest + Elems(input);
    OutputSubset(input, smallest, deeper);
    if n :| Newest(n, all, k, s) {
      assert forall r :: r in all && Visible(r, k, smallest) ==> Visible(r, k, s) && r.seqno <= n.seqno;
      if i :| 0 <= i < |input| && ObsoleteMarker(input, i, smallest, deeper) && input[i] == n {
        ReadWithoutMarker(input, i, smallest, deeper, rest, s);
        ReadBelow(input, i, smallest, deeper, rest);
        ReadIs(all, k, s, n);
      } else {
        ReadUntouched(input, smallest, deeper, rest, n, k, s);
      }
    } else {
      if e :| e in all && Visible(e, k, s) {
        NewestExists(all, k, s);
      }
      forall e ensures !Newest(e, rest + Output(input, smallest, deeper), k, s) {
      }
    }
  }

  lemma MarkerMustUncoverNothing(input: seq<Entry>, i: nat, smallest: Sequence, deeper: seq<seq<File>>, rest: set<Entry>)
    requires DeeperLevels(deeper) && Sorted(input) && i < |input|
    requires Functional(rest + Elems(input)) && rest !! Elems(input) && smallest < MAX_SEQUENCE
    requires ReadsPreserved(input, smallest, deeper, rest)
    requires ObsoleteMarker(input, i, smallest, deeper)
    ensures UncoversNothing(input, i, smallest, rest)
  {
    hide Resurfacing;
    var t, all := input[i], rest + Elems(input);
    if !Superseded(all, t, smallest) {
      assert t in all;
      assert Newest(t, all, t.key, smallest);
      ReadIs(all, t.key, smallest, t);
      ReadWithoutMarker(input, i, smallest, deeper, rest, smallest);
      ReadBelow(input, i, smallest, deeper, rest);
    }
  }

  /** Rewriting the inputs is invisible to every user key and every snapshot from
      `smallest` on, exactly when no marker that the loop drops covers a value: one outside
      the inputs, or one behind an entry that does not parse. */
  lemma CompactionPreservesReads(input: seq<Entry>, smallest: Sequence, deeper: seq<seq<File>>, rest: set<Entry>)
    requires DeeperLevels(deeper) && Sorted(input)
    requires Functional(rest + Elems(input)) && rest !! Elems(input)
    requires smallest < MAX_SEQUENCE
    ensures ReadsPreserved(input, smallest, deeper, rest) <==> MarkersUncoverNothing(input, smallest, deeper, rest)
  {
    hide UncoversNothing;
    if MarkersUncoverNothing(input, smallest, deeper, rest) {
      forall k: UserKey, s: Sequence | s >= smallest
        ensures Read(rest + Output(input, smallest, deeper), k, s) == Read(rest + Elems(input), k, s)
      {
        ReadPreserved(input, smallest, deeper, rest, k, s);
      }
    }
    if ReadsPreserved(input, smallest, deeper, rest) {
      forall i | 0 <= i < |input| && ObsoleteMarker(input, i, smallest, deeper) ensures UncoversNothing(input, i, smallest, rest) {
        MarkerMustUncoverNothing(input, i, smallest, deeper, rest);
      }
    }
  }

  /** With keys that parse nothing resurfaces: only what is outside the inputs matters. */
  lemma ParsedCompactionPreservesReads(input: seq<Entry>, smallest: Sequence, deeper: seq<seq<File>>, rest: set<Entry>)
    requires DeeperLevels(deeper) && Sorted(input) && AllParse(Elems(input))
    requires Functional(rest + Elems(input)) && rest !! Elems(input)
    requires smallest < MAX_SEQUENCE
    ensures ReadsPreserved(input, smallest, deeper, rest) <==>
            forall i :: 0 <= i < |input| && ObsoleteMarker(input, i, smallest, deeper) ==> CoversNoneOf(rest, Elems(input), input[i], smallest)
  {
    CompactionPreservesReads(input, smallest, deeper, rest);
    forall i | 0 <= i < |input| ensures UncoversNothing(input, i, smallest, rest) <==> CoversNoneOf(rest, Elems(input), input[i], smallest) {
      assert forall j :: 0 <= j < |input| ==> input[j] in Elems(input);
      assert Resurfacing(input, i) == {};
      assert Older(rest, input[i]) + {} == Older(rest, input[i]);
    }
  }

  /** The marker `t` is superseded, or nothing older outside the inputs reads as present. */
  ghost predicate CoversNoneOf(rest: set<Entry>, inputs: set<Entry>, t: Entry, smallest: Sequence) {
    Superseded(rest + inputs, t, smallest) || Read(Older(rest, t), t.key, smallest) == Absent
  }

  // --------------------------------------------------- when the condition is met

  ghost predicate AllParse(E: set<Entry>) {
    forall e :: e in E ==> e.Parses()
  }

  /** What the level structure gives the loop: everything else of a user key is newer
      than the inputs, except below, and only where the key is not at its base level. */
  ghost predicate InputsBelowRest(input: seq<Entry>, deeper: seq<seq<File>>, rest: set<Entry>)
    requires DeeperLevels(deeper)
  {
    forall e, r :: e in Elems(input) && r in rest && e.key == r.key ==> r.seqno > e.seqno || !IsBaseLevel(deeper, e.key)
  }

  /** Every entry of the user key that follows one at or below `smallest` is hidden. */
  lemma HiddenBelow(input: seq<Entry>, i: nat, j: nat, smallest: Sequence)
    requires Sorted(input) && AllParse(Elems(input)) && i < j < |input|
    requires input[i].key == input[j].key && input[i].seqno <= smallest
    ensures Hidden(input, j, smallest)
  {
    assert Precedes(input[i], input[j]);
    assert input[j - 1] in Elems(input) && input[i] in Elems(input);
    if i < j - 1 {
      assert Precedes(input[i], input[j - 1]);
      assert Precedes(input[j - 1], input[j]);
    }
  }

  /** Once its marker is obsolete, only strictly newer entries of a user key survive. */
  lemma SurvivorsAreNewer(input: seq<Entry>, i: nat, smallest: Sequence, deeper: seq<seq<File>>, e: Entry)
    requires DeeperLevels(deeper) && Sorted(input) && AllParse(Elems(input)) && i < |input|
    requires Functional(Elems(input))
    requires ObsoleteMarker(input, i, smallest, deeper)
    requires e in Output(input, smallest, deeper) && e.key == input[i].key
    ensures e.seqno > input[i].seqno
  {
    KeptMembers(input, |input|, smallest, deeper);
    var j :| 0 <= j < |input| && input[j] == e && !Dropped(input, j, smallest, deeper);
    assert input[i] in Elems(input) && input[j] in Elems(input);
    if i < j {
      HiddenBelow(input, i, j, smallest);
    } else if j < i {
      assert Precedes(input[j], input[i]);
    }
  }

  /** With keys that parse and the level order intact, compaction preserves all reads. */
  lemma OrderedCompactionPreservesReads(input: seq<Entry>, smallest: Sequence, deeper: seq<seq<File>>, rest: set<Entry>)
    requires DeeperLevels(deeper) && Sorted(input) && AllParse(Elems(input))
    requires Functional(rest + Elems(input)) && rest !! Elems(input)
    requires smallest < MAX_SEQUENCE
    requires InputsBelowRest(input, deeper, rest)
    ensures ReadsPreserved(input, smallest, deeper, rest)
  {
    forall i | 0 <= i < |input| && ObsoleteMarker(input, i, smallest, deeper)
      ensures CoversNoneOf(rest, Elems(input), input[i], smallest)
    {
      var t := input[i];
      assert t in Elems(input);
      forall e ensures !Newest(e, Older(rest, t), t.key, smallest) {
      }
    }
    ParsedCompactionPreservesReads(input, smallest, deeper, rest);
  }

  // ------------------------------------------------- inputs that break the promise

  /** One file of level+1 ends with the marker of a user key whose older value is in the
      next file, which the range test did not select: the value comes back. */
  lemma BoundaryKeyResurrects(u: UserKey, v: Value)
    ensures var input := [Entry(u, 10, DELETION, [])];
            var rest := {Entry(u, 5, VALUE, v)};
            && Read(rest + Elems(input), u, 20) == Absent
            && Read(rest + Output(input, 20, []), u, 20) == Found(v)
  {
    var t, prior := Entry(u, 10, DELETION, []), Entry(u, 5, VALUE, v);
    var input := [t];
    assert Kept(input, 1, 20, []) == Kept(input, 0, 20, []) + [];
    assert Output(input, 20, []) == {};
    assert Elems(input) == {t};
    assert Newest(t, {prior} + {t}, u, 20);
    ReadIs({prior} + {t}, u, 20, t);
    assert {prior} + {} == {prior};
    assert Newest(prior, {prior}, u, 20);
    ReadIs({prior}, u, 20, prior);
  }

  lemma ErrorKeyKept(t: Entry, bad: Entry, prior: Entry)
    requires t.key == bad.key == prior.key && t.seqno == 10 && bad.seqno == 7 && prior.seqno == 5
    requires t.IsDeletion() && !bad.Parses() && prior.kind == VALUE
    ensures Output([t, bad, prior], 20, []) == {bad, prior} && Elems([t, bad, prior]) == {t, bad, prior}
  {
    var input := [t, bad, prior];
    assert Kept(input, 1, 20, []) == Kept(input, 0, 20, []) + [];
    assert Kept(input, 2, 20, []) == Kept(input, 1, 20, []) + [bad];
    assert Kept(input, 3, 20, []) == Kept(input, 2, 20, []) + [prior];
  }

  /** A key with an unknown type byte between a marker and an older value makes the loop
      forget the marker it has just dropped: the value comes back. */
  lemma ErrorKeyResurrects(u: UserKey, v: Value)
    ensures var input := [Entry(u, 10, DELETION, []), Entry(u, 7, 9, []), Entry(u, 5, VALUE, v)];
            && Sorted(input)
            && Read(Elems(input), u, 20) == Absent
            && Read(Output(input, 20, []), u, 20) == Found(v)
  {
    hide Kept, Output, Elems;
    var t, bad, prior := Entry(u, 10, DELETION, []), Entry(u, 7, 9, []), Entry(u, 5, VALUE, v);
    ErrorKeyKept(t, bad, prior);
    assert Newest(t, {t, bad, prior}, u, 20);
    ReadIs({t, bad, prior}, u, 20, t);
    assert Newest(prior, {bad, prior}, u, 20);
    ReadIs({bad, prior}, u, 20, prior);
  }

  /** At the last sequence number the "no previous entry" sentinel counts as visible, and
      the loop drops every entry that parses. */
  lemma {:induction false} EverythingDroppedAtMaxSequence(input: seq<Entry>, n: nat, deeper: seq<seq<File>>)
    requires n <= |input| && DeeperLevels(deeper)
    ensures forall e :: e in Kept(input, n, MAX_SEQUENCE, deeper) <==> e in input[..n] && !e.Parses()
    ensures AllParse(Elems(input)) ==> Kept(input, n, MAX_SEQUENCE, deeper) == []
  {
    if n > 0 {
      EverythingDroppedAtMaxSequence(input, n - 1, deeper);
      assert input[n - 1] in Elems(input);
      assert input[..n] == input[..n - 1] + [input[n - 1]];
    }
  }
}
