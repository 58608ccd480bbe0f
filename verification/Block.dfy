/** Table blocks (table/block_builder.cc, table/block.cc): prefix-compressed entries with
    restart points, and the iterator over the finished bytes. */
module Block {
  import opened Wrappers
  import opened Coding
  import opened KeyOrders

  datatype Entry = Entry(key: Bytes, value: Bytes)

  ghost predicate Increasing(lt: KeyOrder, es: seq<Entry>) {
    forall i, j :: 0 <= i < j < |es| ==> lt(es[i].key, es[j].key)
  }

  // ----------------------------------------------------------------------- layout

  /** Length of the longest common prefix. */
  function Common(a: Bytes, b: Bytes): (n: nat)
    ensures n <= |a| && n <= |b| && a[..n] == b[..n]
    ensures n < |a| && n < |b| ==> a[n] != b[n]
  {
    if a == [] || b == [] || a[0] != b[0] then 0
    else
      var n := 1 + Common(a[1..], b[1..]);
      assert a[..n] == [a[0]] + a[1..][..n - 1] && b[..n] == [b[0]] + b[1..][..n - 1];
      n
  }

  /** `counter_` after `n` entries. */
  function Counter(interval: nat, n: nat): nat {
    if n == 0 then 0 else if Counter(interval, n - 1) >= interval then 1 else Counter(interval, n - 1) + 1
  }

  lemma CounterStep(interval: nat, n: nat)
    ensures Counter(interval, 0) == 0
    ensures Counter(interval, n + 1) == if Counter(interval, n) >= interval then 1 else Counter(interval, n) + 1
  {
  }

  predicate Restarts(interval: nat, i: nat) {
    i == 0 || Counter(interval, i) >= interval
  }

  lemma {:induction false} CounterIs(interval: nat, n: nat)
    requires interval >= 1 && n > 0
    ensures Counter(interval, n) == (n - 1) % interval + 1
  {
    CounterStep(interval, n - 1);
    if n == 1 {
      Division(0, interval, 0, 0);
    } else {
      CounterIs(interval, n - 1);
      var q, r := (n - 2) / interval, (n - 2) % interval;
      assert n - 2 == q * interval + r;
      if r + 1 == interval {
        Division(n - 1, interval, q + 1, 0);
      } else {
        Division(n - 1, interval, q, r + 1);
      }
    }
  }

  /** Compression restarts at every `interval`th entry. */
  lemma RestartsEvery(interval: nat, i: nat)
    requires interval >= 1
    ensures Restarts(interval, i) <==> i % interval == 0
  {
    if i > 0 {
      CounterIs(interval, i);
      var q, r := (i - 1) / interval, (i - 1) % interval;
      assert i - 1 == q * interval + r;
      if r + 1 == interval {
        Division(i, interval, q + 1, 0);
      } else {
        Division(i, interval, q, r + 1);
      }
    } else {
      Division(0, interval, 0, 0);
    }
  }

  ghost predicate LongestPrefix(n: nat, a: Bytes, b: Bytes) {
    n <= |a| && n <= |b| && a[..n] == b[..n] && (n < |a| && n < |b| ==> a[n] != b[n])
  }

  /** What the entries of a block share with the one before: nothing at every `interval`th, and
      all they can otherwise. */
  lemma SharedExact(interval: nat, es: seq<Entry>, i: nat)
    requires interval >= 1 && i < |es|
    ensures i % interval == 0 ==> SharedAt(interval, es, i) == 0
    ensures i % interval != 0 ==> i > 0 && LongestPrefix(SharedAt(interval, es, i), es[i - 1].key, es[i].key)
  {
    RestartsEvery(interval, i);
    Division(0, interval, 0, 0);
  }

  function SharedAt(interval: nat, es: seq<Entry>, i: nat): (n: nat)
    requires i < |es|
    ensures n <= |es[i].key|
    ensures n > 0 ==> i > 0 && n <= |es[i - 1].key| && es[i - 1].key[..n] == es[i].key[..n]
  {
    if Restarts(interval, i) then 0 else Common(es[i - 1].key, es[i].key)
  }

  function EncodeEntry(shared: nat, e: Entry): Bytes
    requires shared <= |e.key|
  {
    PutVarint(shared) + (PutVarint(|e.key| - shared) + (PutVarint(|e.value|) + (e.key[shared..] + e.value)))
  }

  /** The data of the first `n` entries. */
  function Data(interval: nat, es: seq<Entry>, n: nat): Bytes
    requires n <= |es|
  {
    if n == 0 then [] else Data(interval, es, n - 1) + EncodeEntry(SharedAt(interval, es, n - 1), es[n - 1])
  }

  function Offset(interval: nat, es: seq<Entry>, n: nat): nat
    requires n <= |es|
  {
    |Data(interval, es, n)|
  }

  /** The entries at restart points among the first `n`. */
  function RestartEntries(interval: nat, n: nat): (r: seq<nat>)
    ensures r != [] && r[0] == 0
    ensures forall k :: 0 <= k < |r| ==> r[k] < n || (k == 0 && n == 0)
    ensures forall k :: 0 <= k < |r| ==> Restarts(interval, r[k])
    ensures forall j, k :: 0 <= j < k < |r| ==> r[j] < r[k]
  {
    if n <= 1 then [0]
    else RestartEntries(interval, n - 1) + if Restarts(interval, n - 1) then [n - 1] else []
  }

  lemma {:induction false} RestartEntriesAre(interval: nat, n: nat)
    requires interval >= 1
    ensures forall i :: i in RestartEntries(interval, n) <==> i == 0 || (0 < i < n && Restarts(interval, i))
  {
    if n > 1 {
      RestartEntriesAre(interval, n - 1);
    }
  }

  /** `restarts_`: their offsets. */
  function RestartPoints(interval: nat, es: seq<Entry>, n: nat): (r: seq<nat>)
    requires n <= |es|
    ensures |r| == |RestartEntries(interval, n)|
  {
    var at := RestartEntries(interval, n);
    seq(|at|, k requires 0 <= k < |at| => Offset(interval, es, at[k]))
  }

  function EncodeWord(n: nat): Bytes {
    EncodeFixed(n, 4)
  }

  /** `Finish`. */
  function Finished(interval: nat, es: seq<Entry>): Bytes {
    var points := RestartPoints(interval, es, |es|);
    Data(interval, es, |es|) + (Flat(EncodeWord, points) + EncodeWord(|points|))
  }

  // ---------------------------------------------------------------------- builder

  class Builder {
    const interval: nat
    var buffer: Bytes
    var restarts: seq<nat>
    var counter: nat
    var finished: bool
    var lastKey: Bytes

    // The entries of the block under construction.
    ghost var es: seq<Entry>

    ghost predicate Valid()
      reads this
    {
      && interval >= 1
      && buffer == (if finished then Finished(interval, es) else Data(interval, es, |es|))
      && restarts == RestartPoints(interval, es, |es|)
      && counter == Counter(interval, |es|) <= interval
      && lastKey == (if es == [] then [] else es[|es| - 1].key)
    }

    constructor (interval: nat)
      requires interval >= 1
      ensures Valid() && !finished && es == [] && this.interval == interval
    {
      this.interval := interval;
      buffer, restarts, counter, finished, lastKey, es := [], [0], 0, false, [], [];
    }

    method Reset()
      requires Valid()
      modifies this
      ensures Valid() && !finished && es == []
    {
      buffer, restarts, counter, finished, lastKey, es := [], [0], 0, false, [], [];
    }

    /** The loop of Add: how much to share with the previous key. */
    method ShareWithLast(key: Bytes) returns (shared: nat)
      ensures shared == Common(lastKey, key)
    {
      shared := 0;
      var minLength := if |lastKey| < |key| then |lastKey| else |key|;
      while shared < minLength && lastKey[shared] == key[shared]
        invariant shared <= minLength && shared + Common(lastKey[shared..], key[shared..]) == Common(lastKey, key)
      {
        assert lastKey[shared..][1..] == lastKey[shared + 1..] && key[shared..][1..] == key[shared + 1..];
        shared := shared + 1;
      }
    }

    method Add(key: Bytes, value: Bytes)
      requires Valid() && !finished
      modifies this
      ensures Valid() && !finished && es == old(es) + [Entry(key, value)]
    {
      hide PutVarint, RestartPoints, RestartEntries, Common, Finished, Data, Counter, SharedAt;
      CounterStep(interval, |es|);
      ghost var e := Entry(key, value);
      PointsStep(interval, es, e);
      var shared := 0;
      if counter < interval {
        // Measure the prefix shared with the key before
        shared := ShareWithLast(key);
      } else {
        // Restart compression
        restarts := restarts + [|buffer|];
        counter := 0;
      }
      SharedIs(interval, es, e, lastKey, shared);
      EntryAdded(interval, es, e, shared);
      AppendEntry(key, value, shared);
      lastKey := lastKey[..shared] + key[shared..];
      counter := counter + 1;
      es := es + [e];
    }

    /** The end of Add: three lengths, what the key does not share, and the value. */
    method AppendEntry(key: Bytes, value: Bytes, shared: nat)
      requires shared <= |key|
      modifies this`buffer
      ensures buffer == ((((old(buffer) + PutVarint(shared)) + PutVarint(|key| - shared)) + PutVarint(|value|)) + key[shared..]) + value
    {
      var nonShared := |key| - shared;
      buffer := buffer + PutVarint(shared);
      buffer := buffer + PutVarint(nonShared);
      buffer := buffer + PutVarint(|value|);
      buffer := buffer + key[shared..];
      buffer := buffer + value;
    }

    method Finish() returns (block: Bytes)
      requires Valid() && !finished
      modifies this
      ensures Valid() && finished && es == old(es) && block == Finished(interval, es)
    {
      hide RestartPoints, RestartEntries, Data, Flat, EncodeFixed, Counter;
      ConcatAssoc(buffer, Flat(EncodeWord, restarts), EncodeWord(|restarts|));
      AppendRestarts();
      buffer := buffer + EncodeFixed(|restarts|, 4);
      finished := true;
      block := buffer;
    }

    /** Appends the restart array. */
    method AppendRestarts()
      modifies this`buffer
      ensures buffer == old(buffer) + Flat(EncodeWord, restarts)
    {
      ghost var data := buffer;
      for i := 0 to |restarts|
        invariant buffer == data + Flat(EncodeWord, restarts[..i])
      {
        OneMoreWord(data, restarts, i);
        buffer := buffer + EncodeFixed(restarts[i], 4);
      }
      assert restarts[..|restarts|] == restarts;
    }
  }

  lemma OneMoreWord(data: Bytes, words: seq<nat>, i: nat)
    requires i < |words|
    ensures (data + Flat(EncodeWord, words[..i])) + EncodeFixed(words[i], 4) == data + Flat(EncodeWord, words[..i + 1])
  {
    FlatSnoc(EncodeWord, words[..i], words[i]);
    assert words[..i + 1] == words[..i] + [words[i]];
    ConcatAssoc(data, Flat(EncodeWord, words[..i]), EncodeWord(words[i]));
  }

  /** What Add shares, and the key it keeps. */
  lemma SharedIs(interval: nat, es: seq<Entry>, e: Entry, lastKey: Bytes, shared: nat)
    requires lastKey == if es == [] then [] else es[|es| - 1].key
    requires interval >= 1 && shared == if Counter(interval, |es|) < interval then Common(lastKey, e.key) else 0
    ensures shared == SharedAt(interval, es + [e], |es|) && shared <= |lastKey|
    ensures lastKey[..shared] + e.key[shared..] == e.key
  {
    assert es == [] ==> Common(lastKey, e.key) == 0;
    assert e.key[..shared] + e.key[shared..] == e.key;
  }

  lemma EntryAdded(interval: nat, es: seq<Entry>, e: Entry, shared: nat)
    requires shared == SharedAt(interval, es + [e], |es|)
    ensures ((((Data(interval, es, |es|) + PutVarint(shared)) + PutVarint(|e.key| - shared)) + PutVarint(|e.value|)) + e.key[shared..]) + e.value
         == Data(interval, es + [e], |es| + 1)
  {
    hide PutVarint, Common, Counter, SharedAt;
    PrefixSame(interval, es, e, |es|);
    assert (es + [e])[|es|] == e;
    assert Data(interval, es + [e], |es| + 1) == Data(interval, es, |es|) + EncodeEntry(shared, e);
    FiveParts(Data(interval, es, |es|), PutVarint(shared), PutVarint(|e.key| - shared), PutVarint(|e.value|), e.key[shared..], e.value);
  }

  lemma FiveParts(x: Bytes, a: Bytes, b: Bytes, c: Bytes, d: Bytes, e: Bytes)
    ensures ((((x + a) + b) + c) + d) + e == x + (a + (b + (c + (d + e))))
  {
    ConcatAssoc(x + a + b + c, d, e);
    ConcatAssoc(x + a + b, c, d + e);
    ConcatAssoc(x + a, b, c + (d + e));
    ConcatAssoc(x, a, b + (c + (d + e)));
  }

  lemma {:induction false} PrefixSame(interval: nat, es: seq<Entry>, e: Entry, n: nat)
    requires n <= |es|
    ensures Data(interval, es + [e], n) == Data(interval, es, n)
  {
    if n > 0 {
      PrefixSame(interval, es, e, n - 1);
    }
  }

  lemma PointsStep(interval: nat, es: seq<Entry>, e: Entry)
    ensures RestartPoints(interval, es + [e], |es| + 1)
         == RestartPoints(interval, es, |es|) + if |es| > 0 && Restarts(interval, |es|) then [Offset(interval, es, |es|)] else []
  {
    var at, at' := RestartEntries(interval, |es|), RestartEntries(interval, |es| + 1);
    forall k | 0 <= k < |at'| ensures Offset(interval, es + [e], at'[k]) == Offset(interval, es, at'[k]) {
      PrefixSame(interval, es, e, at'[k]);
    }
  }
}
