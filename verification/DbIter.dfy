/** The user-level cursor (db/db_iter.cc): a stream of internal entries shown as the
    sorted map of the keys that are live at `sequence`. */
module DbIter {
  import opened Wrappers
  import opened DbFormat
  import opened VersionedMap

  // ---------------------------------------------------------- the internal cursor

  /** A cursor over a sorted sequence of entries; past the end means not valid. */
  class InternalIterator {
    const entries: seq<Entry>
    var pos: nat

    constructor (entries: seq<Entry>)
      ensures this.entries == entries && pos == |entries|
    {
      this.entries := entries;
      pos := |entries|;
    }

    predicate Valid()
      reads this
    {
      pos < |entries|
    }

    function Current(): Entry
      requires Valid()
      reads this
    {
      entries[pos]
    }

    method Next()
      requires Valid()
      modifies this
      ensures pos == old(pos) + 1
    {
      pos := pos + 1;
    }

    method Prev()
      requires Valid()
      modifies this
      ensures pos == if old(pos) == 0 then |entries| else old(pos) - 1
    {
      pos := if pos == 0 then |entries| else pos - 1;
    }

    /** First entry at or after `(k, s, KIND_FOR_SEEK)`. */
    method Seek(k: UserKey, s: Sequence)
      requires Sorted(entries)
      modifies this
      ensures pos <= |entries|
      ensures forall i :: 0 <= i < pos ==> BeforeTarget(entries[i], k, s)
      ensures forall i :: pos <= i < |entries| ==> !BeforeTarget(entries[i], k, s)
    {
      pos := 0;
      while pos < |entries| && BeforeTarget(entries[pos], k, s)
        invariant pos <= |entries|
        invariant forall i :: 0 <= i < pos ==> BeforeTarget(entries[i], k, s)
      {
        pos := pos + 1;
      }
      forall i | pos <= i < |entries| ensures !BeforeTarget(entries[i], k, s) {
        assert i > pos ==> Precedes(entries[pos], entries[i]);
      }
    }

    method SeekToFirst()
      modifies this
      ensures pos == 0
    {
      pos := 0;
    }

    method SeekToLast()
      modifies this
      ensures pos == if |entries| == 0 then 0 else |entries| - 1
    {
      pos := if |entries| == 0 then 0 else |entries| - 1;
    }
  }

  // --------------------------------------------------------------- specification

  /** A set of user keys by position in the key order. */
  datatype Range = All | From(lo: UserKey) | After(lo: UserKey) | Before(hi: UserKey) {
    predicate Holds(k: UserKey) {
      match this
      case All => true
      case From(lo) => lo <= k
      case After(lo) => lo < k
      case Before(hi) => k < hi
    }
  }

  datatype Direction = Forward | Reverse

  class Iterator {
    const iter: InternalIterator
    const sequence: Sequence
    var statusOk: bool
    var savedKey: Option<UserKey>
    var savedValue: Value
    var direction: Direction
    var valid: bool

    // ------------------------------------------------------------- abstract view

    /** What the database answers for `k` at this iterator's sequence number. */
    ghost function Lookup(k: UserKey): Answer {
      Read(Elems(iter.entries), k, sequence)
    }

    /** No key of the range is live. */
    ghost predicate Nothing(r: Range) {
      forall k :: r.Holds(k) ==> Lookup(k) == Absent
    }

    function Key(): UserKey
      requires Invariant() && valid
      reads this, iter
    {
      if direction == Forward then iter.Current().key else savedKey.value
    }

    function Val(): Value
      requires Invariant() && valid
      reads this, iter
    {
      if direction == Forward then iter.Current().value else savedValue
    }

    /** The cursor is on the first live key of `r`, with its value, or the range holds no
        live key. */
    ghost predicate OnFirst(r: Range)
      requires Invariant()
      reads this, iter
    {
      if valid then r.Holds(Key()) && Lookup(Key()) == Found(Val()) && forall k :: r.Holds(k) && k < Key() ==> Lookup(k) == Absent
      else Nothing(r)
    }

    ghost predicate OnLast(r: Range)
      requires Invariant()
      reads this, iter
    {
      if valid then r.Holds(Key()) && Lookup(Key()) == Found(Val()) && forall k :: r.Holds(k) && Key() < k ==> Lookup(k) == Absent
      else Nothing(r)
    }

    // ----------------------------------------------------------------- invariant

    ghost predicate Sees(i: nat)
      requires i < |iter.entries|
    {
      iter.entries[i].Parses() && iter.entries[i].seqno <= sequence
    }

    ghost predicate Static() {
      Sorted(iter.entries) && Functional(Elems(iter.entries))
    }

    /** Reading backward, the internal cursor stands before everything visible at `k`. */
    ghost predicate StandsBefore(k: UserKey)
      reads iter
    {
      var last := if iter.Valid() then iter.pos as int else -1;
      && (forall i :: 0 <= i <= last ==> iter.entries[i].key < k)
      && (forall i :: 0 <= i < |iter.entries| && last < i && Sees(i) ==> k <= iter.entries[i].key)
    }

    /** Corruption is reported only if there is an entry that cannot be parsed. */
    ghost predicate StatusJustified()
      reads this
    {
      !statusOk ==> exists i :: 0 <= i < |iter.entries| && !iter.entries[i].Parses()
    }

    ghost predicate Invariant()
      reads this, iter
    {
      && Static() && StatusJustified()
      && iter.pos <= |iter.entries|
      && (valid && direction == Forward ==>
            && iter.Valid()
            && iter.Current().kind == VALUE
            && Newest(iter.Current(), Elems(iter.entries), iter.Current().key, sequence))
      && (valid && direction == Reverse ==>
            && savedKey.Some?
            && Lookup(savedKey.value) == Found(savedValue)
            && StandsBefore(savedKey.value))
    }

    constructor (entries: seq<Entry>, sequence: Sequence)
      requires Sorted(entries) && Functional(Elems(entries))
      ensures Invariant() && !valid && iter.entries == entries && this.sequence == sequence && fresh(iter)
    {
      iter := new InternalIterator(entries);
      this.sequence := sequence;
      statusOk, savedKey, savedValue, direction, valid := true, None, [], Forward, false;
    }

    // -------------------------------------------------------------- reading lemmas

    /** Nothing visible means absent. */
    lemma AbsentIfUnseen(k: UserKey)
      requires Static()
      requires forall i :: 0 <= i < |iter.entries| && iter.entries[i].key == k ==> !Sees(i)
      ensures Lookup(k) == Absent
    {
      forall e ensures !Newest(e, Elems(iter.entries), k, sequence) {
      }
    }

    /** The first entry of a key that is seen decides it. */
    lemma FirstSeenDecides(p: nat)
      requires Static() && p < |iter.entries| && Sees(p)
      requires forall i :: 0 <= i < p && iter.entries[i].key == iter.entries[p].key ==> !Sees(i)
      ensures Newest(iter.entries[p], Elems(iter.entries), iter.entries[p].key, sequence)
      ensures Lookup(iter.entries[p].key) == AnswerOf(iter.entries[p])
    {
      var e, E := iter.entries[p], Elems(iter.entries);
      forall x | x in E && Visible(x, e.key, sequence) ensures x.seqno <= e.seqno {
        var i :| 0 <= i < |iter.entries| && iter.entries[i] == x;
        assert i > p ==> Precedes(iter.entries[p], iter.entries[i]);
      }
      ReadIs(E, e.key, sequence, e);
    }

    lemma EarlierKeys(p: nat)
      requires Static() && p < |iter.entries|
      ensures forall i :: 0 <= i <= p ==> iter.entries[i].key <= iter.entries[p].key
      ensures forall i :: p <= i < |iter.entries| ==> iter.entries[p].key <= iter.entries[i].key
    {
      forall i | 0 <= i < p ensures iter.entries[i].key <= iter.entries[p].key {
        assert Precedes(iter.entries[i], iter.entries[p]);
      }
      forall i | p < i < |iter.entries| ensures iter.entries[p].key <= iter.entries[i].key {
        assert Precedes(iter.entries[p], iter.entries[i]);
      }
    }

    // ------------------------------------------------------------------- forward

    /** State of the forward scan at position `p`, looking for the first live key of `r`:
        what it has passed is decided, what it has yet to meet is wanted or skipped. */
    ghost predicate Scanning(p: nat, r: Range, skipping: bool, skip: UserKey) {
      && p <= |iter.entries|
      && !r.Before?
      && (skipping ==> forall k :: k <= skip && r.Holds(k) ==> Lookup(k) == Absent)
      && (forall i :: 0 <= i < p && Sees(i) && r.Holds(iter.entries[i].key) ==> skipping && iter.entries[i].key <= skip)
      && (forall i :: p <= i < |iter.entries| && Sees(i) ==> skipping ==> skip <= iter.entries[i].key)
      && (forall i :: p <= i < |iter.entries| && Sees(i) ==> r.Holds(iter.entries[i].key) || (skipping && iter.entries[i].key <= skip))
    }

    /** Everything of the range before the next visible entry is decided. */
    lemma ScannedAbsent(p: nat, r: Range, skipping: bool, skip: UserKey, k: UserKey)
      requires Static() && Scanning(p, r, skipping, skip) && r.Holds(k)
      requires forall i :: p <= i < |iter.entries| && Sees(i) ==> iter.entries[i].key > k
      ensures Lookup(k) == Absent
    {
      if !(skipping && k <= skip) {
        AbsentIfUnseen(k);
      }
    }

    predicate HiddenKey(skipping: bool, skip: UserKey, k: UserKey) {
      skipping && k <= skip
    }

    /** A visible entry that is not hidden decides its key, and the keys before it are
        absent. */
    lemma ScanMeets(p: nat, r: Range, skipping: bool, skip: UserKey)
      requires Static() && Scanning(p, r, skipping, skip) && p < |iter.entries| && Sees(p)
      ensures forall k :: r.Holds(k) && k < iter.entries[p].key ==> Lookup(k) == Absent
      ensures !HiddenKey(skipping, skip, iter.entries[p].key) ==>
                && r.Holds(iter.entries[p].key)
                && Newest(iter.entries[p], Elems(iter.entries), iter.entries[p].key, sequence)
                && Lookup(iter.entries[p].key) == AnswerOf(iter.entries[p])
    {
      EarlierKeys(p);
      forall k | r.Holds(k) && k < iter.entries[p].key ensures Lookup(k) == Absent {
        ScannedAbsent(p, r, skipping, skip, k);
      }
      if !HiddenKey(skipping, skip, iter.entries[p].key) {
        FirstSeenDecides(p);
      }
    }

    lemma ScanDeletion(p: nat, r: Range, skipping: bool, skip: UserKey)
      requires Static() && Scanning(p, r, skipping, skip) && p < |iter.entries| && Sees(p)
      requires iter.entries[p].IsDeletion()
      ensures Scanning(p + 1, r, true, iter.entries[p].key)
    {
      ScanMeets(p, r, skipping, skip);
      EarlierKeys(p);
    }

    lemma ScanHidden(p: nat, r: Range, skipping: bool, skip: UserKey)
      requires Static() && Scanning(p, r, skipping, skip) && p < |iter.entries|
      requires Sees(p) ==> HiddenKey(skipping, skip, iter.entries[p].key)
      ensures Scanning(p + 1, r, skipping, skip)
    {
    }

    method FindNextUserEntry(skipping0: bool, skip0: UserKey, ghost r: Range)
      requires Static() && StatusJustified() && iter.Valid() && direction == Forward
      requires Scanning(iter.pos, r, skipping0, skip0)
      modifies this, iter
      ensures Invariant() && direction == Forward
      ensures OnFirst(r)
    {
      hide Read, Functional, Sorted;
      var skipping, skip := skipping0, skip0;
      while iter.Valid()
        invariant direction == Forward && StatusJustified()
        invariant Scanning(iter.pos, r, skipping, skip)
        decreases |iter.entries| - iter.pos
      {
        var e := iter.Current();
        if !e.Parses() {
          statusOk := false;
          assert !iter.entries[iter.pos].Parses();
          ScanHidden(iter.pos, r, skipping, skip);
        } else if e.seqno <= sequence {
          ScanMeets(iter.pos, r, skipping, skip);
          if e.kind == DELETION {
            // The marker hides everything older of its key
            ScanDeletion(iter.pos, r, skipping, skip);
            skip, skipping := e.key, true;
          } else if skipping && e.key <= skip {
            // Entry hidden
            ScanHidden(iter.pos, r, skipping, skip);
          } else {
            valid := true;
            savedKey := None;
            return;
          }
        } else {
          ScanHidden(iter.pos, r, skipping, skip);
        }
        iter.Next();
      }
      savedKey := None;
      valid := false;
      forall k | r.Holds(k) ensures Lookup(k) == Absent {
        ScannedAbsent(iter.pos, r, skipping, skip, k);
      }
    }

    /** Where Next starts scanning: everything visible from `p` on is at or after `k`. */
    lemma ScanFromKey(p: nat, k: UserKey)
      requires p <= |iter.entries|
      requires forall i :: 0 <= i < p && Sees(i) ==> iter.entries[i].key <= k
      requires forall i :: p <= i < |iter.entries| && Sees(i) ==> k <= iter.entries[i].key
      ensures Scanning(p, After(k), true, k)
    {
    }

    method Next()
      requires Invariant() && valid
      modifies this, iter
      ensures Invariant()
      ensures OnFirst(After(old(Key())))
    {
      var k;
      if direction == Reverse {
        direction := Forward;
        k := savedKey.value;
        if !iter.Valid() {
          iter.SeekToFirst();
        } else {
          iter.Next();
        }
        if !iter.Valid() {
          // The code gives up here; the entries of the current key rule it out.
          assert false;
        }
      } else {
        // The key being left is the one to skip
        k := iter.Current().key;
        savedKey := Some(k);
        EarlierKeys(iter.pos);
      }
      ScanFromKey(iter.pos, k);
      FindNextUserEntry(true, k, After(k));
    }

    method Seek(target: UserKey)
      requires Invariant()
      modifies this, iter
      ensures Invariant()
      ensures OnFirst(From(target))
    {
      direction := Forward;
      savedValue := [];
      savedKey := None;
      valid := false;
      iter.Seek(target, sequence);
      if iter.Valid() {
        FindNextUserEntry(false, 0.0, From(target));
      } else {
        forall k | target <= k ensures Lookup(k) == Absent {
          AbsentIfUnseen(k);
        }
      }
    }

    method SeekToFirst()
      requires Invariant()
      modifies this, iter
      ensures Invariant()
      ensures OnFirst(All)
    {
      direction := Forward;
      savedValue := [];
      valid := false;
      iter.SeekToFirst();
      if iter.Valid() {
        FindNextUserEntry(false, 0.0, All);
      } else {
        forall k ensures Lookup(k) == Absent {
          AbsentIfUnseen(k);
        }
      }
    }

    // ------------------------------------------------------------------- backward

    /** Index of the internal cursor, or -1 before the first entry. */
    ghost function At(): int
      reads iter
    {
      if iter.Valid() then iter.pos else -1
    }

    /** State of the backward scan with the internal cursor at `p` (-1: before the first
        entry).  `m` is the visible entry met last, if any; keys above it are decided. */
    ghost predicate BackScanning(p: int, r: Range, start: int, m: int) {
      && -1 <= p <= start < |iter.entries|
      && (r.Before? || r.All?)
      && (forall i :: 0 <= i <= start && Sees(i) ==> r.Holds(iter.entries[i].key))
      && (forall i :: start < i < |iter.entries| && Sees(i) ==> !r.Holds(iter.entries[i].key))
      && (m == -1 ==> forall i :: p < i <= start ==> !Sees(i))
      && (m != -1 ==>
            && p < m <= start && Sees(m)
            && (forall i :: p < i < m ==> !Sees(i))
            && (forall k :: r.Holds(k) && iter.entries[m].key < k ==> Lookup(k) == Absent))
    }

    /** What the local and saved variables say about `m`. */
    ghost predicate Remembers(m: int, kind: KindByte)
      requires m < |iter.entries|
      reads this
    {
      && (m < 0 ==> kind == DELETION)
      && (m >= 0 ==> kind == iter.entries[m].kind)
      && (m >= 0 && kind != DELETION ==> savedKey == Some(iter.entries[m].key) && savedValue == iter.entries[m].value)
    }

    /** Keys between the next visible entry and the last one are absent, and so is the last
        one's key when it was deleted. */
    lemma BackAbsent(p: int, r: Range, start: int, m: int, k: UserKey)
      requires Static() && BackScanning(p, r, start, m) && r.Holds(k)
      requires forall i :: 0 <= i <= p && Sees(i) ==> iter.entries[i].key < k
      requires m != -1 ==> iter.entries[m].IsDeletion() || k != iter.entries[m].key
      ensures Lookup(k) == Absent
    {
      if m == -1 {
        AbsentIfUnseen(k);
      } else {
        EarlierKeys(m);
        if k < iter.entries[m].key {
          AbsentIfUnseen(k);
        } else if k == iter.entries[m].key {
          FirstSeenDecides(m);
        }
      }
    }

    /** Meeting the visible entry `p` decides every key above its own. */
    lemma BackStep(p: nat, r: Range, start: int, m: int)
      requires Static() && BackScanning(p, r, start, m) && Sees(p)
      requires m != -1 ==> iter.entries[m].IsDeletion() || iter.entries[p].key == iter.entries[m].key
      ensures BackScanning(p - 1, r, start, p)
    {
      EarlierKeys(p);
      forall k | r.Holds(k) && iter.entries[p].key < k ensures Lookup(k) == Absent {
        BackAbsent(p, r, start, m, k);
      }
    }

    lemma BackSkip(p: nat, r: Range, start: int, m: int)
      requires BackScanning(p, r, start, m) && !Sees(p)
      ensures BackScanning(p - 1, r, start, m)
    {
    }

    /** The scan stops at a value: it is the newest visible one of its key. */
    lemma BackFound(p: int, r: Range, start: int, m: nat)
      requires Static() && BackScanning(p, r, start, m)
      requires p >= 0 ==> iter.entries[p].key < iter.entries[m].key
      ensures r.Holds(iter.entries[m].key)
      ensures Lookup(iter.entries[m].key) == AnswerOf(iter.entries[m])
      ensures forall i :: 0 <= i <= p ==> iter.entries[i].key < iter.entries[m].key
      ensures forall i :: 0 <= i < |iter.entries| && p < i && Sees(i) ==> iter.entries[m].key <= iter.entries[i].key
    {
      EarlierKeys(m);
      if p >= 0 {
        EarlierKeys(p);
      }
      FirstSeenDecides(m);
    }

    method FindPrevUserEntry(ghost r: Range, ghost start: int)
      requires Static() && StatusJustified() && direction == Reverse && iter.pos <= |iter.entries|
      requires start == At() && BackScanning(start, r, start, -1)
      modifies this, iter
      ensures Invariant()
      ensures OnLast(r)
    {
      hide Read, Functional, Sorted;
      var kind: KindByte := DELETION;
      ghost var m: int := -1;
      while iter.Valid()
        invariant direction == Reverse && StatusJustified() && iter.pos <= |iter.entries|
        invariant BackScanning(At(), r, start, m)
        invariant Remembers(m, kind)
        decreases At()
      {
        var e := iter.Current();
        ghost var p := iter.pos;
        EarlierKeys(p);
        if !e.Parses() {
          statusOk := false;
          assert !iter.entries[iter.pos].Parses();
          BackSkip(p, r, start, m);
        } else if e.seqno <= sequence {
          if kind != DELETION && e.key < savedKey.value {
            // A live value of an earlier key: the pending one stands
            break;
          }
          assert m >= 0 ==> e.key <= iter.entries[m].key by {
            if m >= 0 { EarlierKeys(m); }
          }
          BackStep(p, r, start, m);
          m := p;
          kind := e.kind;
          if kind == DELETION {
            savedKey := None;
            savedValue := [];
          } else {
            savedKey := Some(e.key);
            savedValue := e.value;
          }
        } else {
          BackSkip(p, r, start, m);
        }
        iter.Prev();
      }

      if kind == DELETION {
        // End
        forall k | r.Holds(k) ensures Lookup(k) == Absent {
          BackAbsent(At(), r, start, m, k);
        }
        valid := false;
        savedKey := None;
        savedValue := [];
        direction := Forward;
      } else {
        BackFound(At(), r, start, m);
        valid := true;
      }
    }

    method Prev()
      requires Invariant() && valid
      modifies this, iter
      ensures Invariant()
      ensures OnLast(Before(old(Key())))
    {
      hide Read, Functional, Sorted;
      ghost var k0 := Key();
      if direction == Forward {
        // Leave the entries of the current key behind, going back
        var k := iter.Current().key;
        savedKey := Some(k);
        EarlierKeys(iter.pos);
        while true
          invariant iter.Valid() && Static() && StatusJustified() && direction == Forward && savedKey == Some(k)
          invariant forall i :: iter.pos <= i < |iter.entries| ==> k <= iter.entries[i].key
          decreases iter.pos
        {
          iter.Prev();
          if !iter.Valid() {
            valid := false;
            savedKey := None;
            savedValue := [];
            forall key | key < k ensures Lookup(key) == Absent {
              AbsentIfUnseen(key);
            }
            return;
          }
          if iter.Current().key < k {
            break;
          }
        }
        EarlierKeys(iter.pos);
        direction := Reverse;
      }
      FindPrevUserEntry(Before(k0), At());
    }

    method SeekToLast()
      requires Invariant()
      modifies this, iter
      ensures Invariant()
      ensures OnLast(All)
    {
      direction := Reverse;
      savedValue := [];
      valid := false;
      iter.SeekToLast();
      FindPrevUserEntry(All, At());
    }

    /** Prev undoes Next, across the change of direction. */
    method NextThenPrev() returns (moved: bool)
      requires Invariant() && valid
      modifies this, iter
      ensures Invariant()
      ensures moved ==> valid && Key() == old(Key()) && Val() == old(Val())
      ensures !moved ==> !valid && Nothing(After(old(Key())))
    {
      hide Invariant, Static;
      CurrentIsLive();
      Next();
      moved := valid;
      if valid {
        Prev();
      }
    }

    lemma CurrentIsLive()
      requires Invariant() && valid
      ensures Lookup(Key()) == Found(Val())
    {
      if direction == Forward {
        ReadIs(Elems(iter.entries), iter.Current().key, sequence, iter.Current());
      }
    }
  }

  /** A key that reads as present has an entry. */
  lemma FoundHasEntry(E: set<Entry>, k: UserKey, s: Sequence)
    requires Read(E, k, s).Found?
    ensures exists e :: e in E && e.key == k
  {
    var e :| Newest(e, E, k, s);
  }

  /** The entries from a key on, if there is a key. */
  ghost function Ahead(entries: seq<Entry>, from: Option<UserKey>): set<Entry> {
    if from.Some? then set e | e in entries && from.value <= e.key else {}
  }

  /** Each step of a scan leaves an entry behind. */
  lemma AheadShrinks(entries: seq<Entry>, k: UserKey, s: Sequence, next: Option<UserKey>)
    requires Read(Elems(entries), k, s).Found? && (next.Some? ==> k < next.value)
    ensures Ahead(entries, next) < Ahead(entries, Some(k))
  {
    FoundHasEntry(Elems(entries), k, s);
    var e :| e in Elems(entries) && e.key == k;
    assert e in Ahead(entries, Some(k)) && e !in Ahead(entries, next);
  }

  /** What a client gets by stepping over the whole database: the live keys in ascending
      order, each with the value that is newest at the sequence number, and nothing else. */
  method Scan(entries: seq<Entry>, sequence: Sequence) returns (items: seq<(UserKey, Value)>)
    requires Sorted(entries) && Functional(Elems(entries))
    ensures forall i, j :: 0 <= i < j < |items| ==> items[i].0 < items[j].0
    ensures forall k, v :: (k, v) in items <==> Read(Elems(entries), k, sequence) == Found(v)
  {
    hide Iterator.Invariant, Read, Functional, Sorted, Elems, Ahead;
    var it := new Iterator(entries, sequence);
    it.SeekToFirst();
    items := [];
    while it.valid
      invariant it.Invariant() && fresh(it) && fresh(it.iter) && it.iter.entries == entries && it.sequence == sequence
      invariant forall i, j :: 0 <= i < j < |items| ==> items[i].0 < items[j].0
      invariant forall k, v :: (k, v) in items ==> Read(Elems(entries), k, sequence) == Found(v)
      invariant forall i :: it.valid && 0 <= i < |items| ==> items[i].0 < it.Key()
      invariant it.valid ==> Read(Elems(entries), it.Key(), sequence) == Found(it.Val())
      invariant forall k :: it.Lookup(k).Found? && (it.valid ==> k < it.Key()) ==> (k, it.Lookup(k).value) in items
      decreases Ahead(entries, if it.valid then Some(it.Key()) else None)
    {
      var k, v := it.Key(), it.Val();
      items := items + [(k, v)];
      it.Next();
      AheadShrinks(entries, k, sequence, if it.valid then Some(it.Key()) else None);
    }
    forall k, v | Read(Elems(entries), k, sequence) == Found(v) ensures (k, v) in items {
      assert it.Lookup(k).Found?;
    }
  }
}
