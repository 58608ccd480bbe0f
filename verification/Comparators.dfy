/** Key orders and key shortening (util/comparator.cc, db/dbformat.cc). */
module Comparators {
  import opened Coding
  import opened KeyOrders
  import opened Block
  import DbFormat

  // --------------------------------------------------------------------- bytewise

  predicate Less(a: Bytes, b: Bytes) {
    if a == [] then b != []
    else if b == [] then false
    else a[0] < b[0] || (a[0] == b[0] && Less(a[1..], b[1..]))
  }

  lemma {:induction false} LessAsym(a: Bytes, b: Bytes)
    requires Less(a, b)
    ensures !Less(b, a) && a != b
  {
    if a != [] && a[0] == b[0] {
      LessAsym(a[1..], b[1..]);
    }
  }

  lemma {:induction false} LessWeak(a: Bytes, b: Bytes, c: Bytes)
    requires Less(a, b)
    ensures Less(a, c) || Less(c, b)
  {
    if a != [] && c != [] && a[0] == b[0] == c[0] {
      LessWeak(a[1..], b[1..], c[1..]);
    }
  }

  lemma {:induction false} LessTotal(a: Bytes, b: Bytes)
    ensures Less(a, b) || Less(b, a) || a == b
  {
    if a != [] && b != [] && a[0] == b[0] {
      LessTotal(a[1..], b[1..]);
      assert a == [a[0]] + a[1..] && b == [b[0]] + b[1..];
    }
  }

  lemma LessIsWeakOrder()
    ensures WeakOrder(Less)
  {
    forall a: Bytes, b: Bytes | Less(a, b) ensures !Less(b, a) {
      LessAsym(a, b);
    }
    forall a: Bytes, b: Bytes, c: Bytes | Less(a, b) ensures Less(a, c) || Less(c, b) {
      LessWeak(a, b, c);
    }
  }

  /** Strings that agree up to `n` compare as their rest. */
  lemma {:induction false} LessFrom(a: Bytes, b: Bytes, n: nat)
    requires n <= |a| && n <= |b| && a[..n] == b[..n]
    ensures Less(a, b) <==> Less(a[n..], b[n..])
  {
    if n > 0 {
      assert a[0] == a[..n][0] == b[0];
      assert a[1..][..n - 1] == a[..n][1..] && b[1..][..n - 1] == b[..n][1..];
      LessFrom(a[1..], b[1..], n - 1);
      assert a[1..][n - 1..] == a[n..] && b[1..][n - 1..] == b[n..];
    }
  }

  /** What a comparator promises of FindShortestSeparator: a string in [start, limit), and
      for equivalent keys nothing above them. */
  ghost predicate Separates(lt: KeyOrder, shorten: (Bytes, Bytes) -> Bytes) {
    forall start, limit :: !lt(limit, start) ==>
      && !lt(shorten(start, limit), start) && !lt(limit, shorten(start, limit))
      && (lt(start, limit) ==> lt(shorten(start, limit), limit))
  }

  /** BytewiseComparatorImpl::FindShortestSeparator. */
  function ShortestSeparator(start: Bytes, limit: Bytes): Bytes {
    var n := Common(start, limit);
    if n < |start| && n < |limit| && start[n] < 255 && start[n] + 1 < limit[n] then start[..n] + [start[n] + 1]
    else start
  }

  /** Where the keys first differ one byte is raised, if it stays below the other and the rest
      can go; otherwise nothing changes. */
  lemma SeparatorExact(start: Bytes, limit: Bytes, n: nat)
    requires n <= |start| && n <= |limit| && start[..n] == limit[..n]
    requires n < |start| && n < |limit| ==> start[n] != limit[n]
    ensures ShortestSeparator(start, limit) ==
            if n < |start| && n < |limit| && start[n] < 255 && start[n] + 1 < limit[n] then start[..n] + [start[n] + 1] else start
  {
    var m := Common(start, limit);
    assert forall i :: 0 <= i < n ==> start[i] == start[..n][i] == limit[..n][i] == limit[i];
    assert forall i :: 0 <= i < m ==> start[i] == start[..m][i] == limit[..m][i] == limit[i];
  }

  method FindShortestSeparator(start: Bytes, limit: Bytes) returns (r: Bytes)
    ensures r == ShortestSeparator(start, limit)
  {
    var minLength := if |start| < |limit| then |start| else |limit|;
    var diffIndex := 0;
    assert start[0..] == start && limit[0..] == limit;
    while diffIndex < minLength && start[diffIndex] == limit[diffIndex]
      invariant diffIndex <= minLength && diffIndex + Common(start[diffIndex..], limit[diffIndex..]) == Common(start, limit)
    {
      assert start[diffIndex..][1..] == start[diffIndex + 1..] && limit[diffIndex..][1..] == limit[diffIndex + 1..];
      diffIndex := diffIndex + 1;
    }
    r := start;
    if diffIndex < minLength {
      var diffByte := start[diffIndex];
      if diffByte < 255 && diffByte + 1 < limit[diffIndex] {
        r := start[..diffIndex] + [diffByte + 1];
      }
    }
  }

  lemma NotLessSelf(a: Bytes)
    ensures !Less(a, a)
  {
    if Less(a, a) {
      LessAsym(a, a);
    }
  }

  lemma BytewiseSeparates()
    ensures Separates(Less, ShortestSeparator)
  {
    forall start: Bytes, limit: Bytes | !Less(limit, start)
      ensures !Less(ShortestSeparator(start, limit), start) && !Less(limit, ShortestSeparator(start, limit))
      ensures Less(start, limit) ==> Less(ShortestSeparator(start, limit), limit)
    {
      var n, r := Common(start, limit), ShortestSeparator(start, limit);
      NotLessSelf(start);
      if r != start {
        LessFrom(start, r, n);
        LessFrom(r, limit, n);
        LessAsym(start, r);
        LessAsym(r, limit);
      }
    }
  }

  /** BytewiseComparatorImpl::FindShortSuccessor: a run of 0xff is left alone. */
  function ShortSuccessor(key: Bytes): Bytes {
    if key == [] then [] else if key[0] != 255 then [key[0] + 1] else [key[0]] + ShortSuccessor(key[1..])
  }

  /** The first byte that is not 0xff is raised and ends the key; without one nothing changes. */
  lemma {:induction false} SuccessorExact(key: Bytes, n: nat)
    requires n <= |key| && (forall i :: 0 <= i < n ==> key[i] == 255) && (n < |key| ==> key[n] != 255)
    ensures ShortSuccessor(key) == if n < |key| then key[..n] + [key[n] + 1] else key
    decreases n
  {
    if n > 0 {
      SuccessorExact(key[1..], n - 1);
      assert key[..n] == [key[0]] + key[1..][..n - 1] && key == [key[0]] + key[1..];
    }
  }

  method FindShortSuccessor(key: Bytes) returns (r: Bytes)
    ensures r == ShortSuccessor(key)
  {
    assert key[0..] == key;
    for i := 0 to |key|
      invariant ShortSuccessor(key) == key[..i] + ShortSuccessor(key[i..])
    {
      assert key[i..][1..] == key[i + 1..] && key[..i + 1] == key[..i] + [key[i]];
      if key[i] != 255 {
        return key[..i] + [key[i] + 1];
      }
    }
    // Only 0xff bytes: there is no shorter successor
    assert key[..|key|] == key && key[|key|..] == [];
    r := key;
  }

  lemma {:induction false} SuccessorNotLess(key: Bytes)
    ensures !Less(ShortSuccessor(key), key)
  {
    if key != [] && key[0] == 255 {
      assert ShortSuccessor(key)[1..] == ShortSuccessor(key[1..]);
      SuccessorNotLess(key[1..]);
    }
  }

  // ---------------------------------------------------------------- internal keys

  const TAG_FOR_SEEK := DbFormat.MAX_SEQUENCE * 256 + 1

  /** `ExtractUserKey`, and the packed sequence number and type behind it. */
  function UserKey(key: Bytes): Bytes {
    if |key| < 8 then [] else key[..|key| - 8]
  }

  function Tag(key: Bytes): nat {
    if |key| < 8 then 0 else DecodeFixed(key[|key| - 8..])
  }

  function InternalKey(user: Bytes, tag: nat): Bytes {
    user + EncodeFixed(tag, 8)
  }

  lemma InternalKeyParts(user: Bytes, tag: nat)
    requires tag < TWO_64
    ensures UserKey(InternalKey(user, tag)) == user && Tag(InternalKey(user, tag)) == tag
  {
    Powers();
    FixedRoundTrip(tag, 8);
    var k := InternalKey(user, tag);
    assert k[|k| - 8..] == EncodeFixed(tag, 8) && k[..|k| - 8] == user;
  }

  /** InternalKeyComparator::Compare(a, b) < 0. */
  predicate InternalLess(ult: KeyOrder, a: Bytes, b: Bytes) {
    ult(UserKey(a), UserKey(b)) || (!ult(UserKey(b), UserKey(a)) && Tag(a) > Tag(b))
  }

  /** Entries of one user key: the newer one comes first. */
  lemma NewerFirst(ult: KeyOrder, user: Bytes, s: nat, kind: Byte, s': nat, kind': Byte)
    requires WeakOrder(ult) && s <= DbFormat.MAX_SEQUENCE && s' <= DbFormat.MAX_SEQUENCE
    ensures InternalLess(ult, InternalKey(user, s * 256 + kind), InternalKey(user, s' * 256 + kind')) <==>
            s > s' || (s == s' && kind > kind')
  {
    InternalKeyParts(user, s * 256 + kind);
    InternalKeyParts(user, s' * 256 + kind');
  }

  function Internal(ult: KeyOrder): KeyOrder {
    (a: Bytes, b: Bytes) => InternalLess(ult, a, b)
  }

  lemma InternalIsWeakOrder(ult: KeyOrder)
    requires WeakOrder(ult)
    ensures WeakOrder(Internal(ult))
  {
    var lt := Internal(ult);
    forall a: Bytes, b: Bytes | lt(a, b) ensures !lt(b, a) {
      assert ult(UserKey(a), UserKey(b)) ==> !ult(UserKey(b), UserKey(a));
    }
    forall a: Bytes, b: Bytes, c: Bytes | lt(a, b) ensures lt(a, c) || lt(c, b) {
      var x, y, z := UserKey(a), UserKey(b), UserKey(c);
      if ult(x, y) {
        assert ult(x, z) || ult(z, y);
        assert ult(z, x) ==> ult(z, y) || ult(y, x);
        assert ult(y, z) ==> ult(y, x) || ult(x, z);
      } else {
        assert ult(z, x) ==> ult(z, y) || ult(y, x);
        assert ult(y, z) ==> ult(y, x) || ult(x, z);
      }
    }
  }

  /** InternalKeyComparator::FindShortestSeparator and FindShortSuccessor: a user key that
      got shorter but greater takes the first tag, anything else leaves the key alone. */
  function Shortened(ult: KeyOrder, key: Bytes, user: Bytes): Bytes {
    if |user| < |UserKey(key)| && ult(UserKey(key), user) then InternalKey(user, TAG_FOR_SEEK) else key
  }

  /** A user key that got shorter but greater takes the largest sequence number and type. */
  lemma ShortenedExact(ult: KeyOrder, key: Bytes, user: Bytes)
    ensures var r := Shortened(ult, key, user);
            if |user| < |UserKey(key)| && ult(UserKey(key), user) then UserKey(r) == user && Tag(r) == 0xff_ffff_ffff_ffff * 256 + 1
            else r == key
  {
    if |user| < |UserKey(key)| && ult(UserKey(key), user) {
      InternalKeyParts(user, TAG_FOR_SEEK);
    }
  }

  /** A separator lies at or above its block's last key and below the next block's first;
      a shortened one has a user key strictly between the two. */
  lemma SeparatorBetween(ult: KeyOrder, shorten: (Bytes, Bytes) -> Bytes, start: Bytes, limit: Bytes)
    requires WeakOrder(ult) && Separates(ult, shorten) && InternalLess(ult, start, limit)
    ensures var sep := Shortened(ult, start, shorten(UserKey(start), UserKey(limit)));
      && !InternalLess(ult, sep, start) && InternalLess(ult, sep, limit)
      && (sep == start || (ult(UserKey(start), UserKey(sep)) && ult(UserKey(sep), UserKey(limit))))
  {
    var x, y := UserKey(start), UserKey(limit);
    var user := shorten(x, y);
    if |user| < |x| && ult(x, user) {
      InternalKeyParts(user, TAG_FOR_SEEK);
      // Were the user keys equivalent, nothing greater could have come back.
      assert ult(x, y) || ult(y, user);
    }
    assert !InternalLess(ult, start, start);
  }

  lemma SuccessorAbove(ult: KeyOrder, shorten: Bytes -> Bytes, key: Bytes)
    requires WeakOrder(ult)
    ensures !InternalLess(ult, Shortened(ult, key, shorten(UserKey(key))), key)
  {
    var user := shorten(UserKey(key));
    if |user| < |UserKey(key)| && ult(UserKey(key), user) {
      InternalKeyParts(user, TAG_FOR_SEEK);
    }
  }
}
