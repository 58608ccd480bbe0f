/** What the nanopb decoder refuses, and what it guarantees of a struct that it has filled. */
module PbRefusal {
  import opened Wrappers
  import opened Coding
  import opened PbWire
  import opened PbMessage
  import opened PbRoundTrip

  // ------------------------------------------------------------------ required fields

  /** The tags that the fields on the wire carry, up to the first one that is refused. */
  ghost function TagsMet(fs: seq<Field>, input: Bytes, slots: seq<Slot>): set<nat>
    requires |slots| == |fs|
    decreases |input|
  {
    match ReadTag(input)
    case Tag(wireType, tag, rest) =>
      var i := Find(fs, tag);
      {tag} +
      (if i == |fs| then
         match SkipField(wireType, rest)
         case None => {}
         case Some(later) => TagsMet(fs, later, slots)
       else
         match DecodeField(fs[i], wireType, slots[i], rest)
         case None => {}
         case Some((slot, later)) => TagsMet(fs, later, slots[i := slot]))
    case _ => {}
  }

  function RequiredAmong(fs: seq<Field>, i: nat): set<nat>
    requires i <= |fs|
  {
    set j: nat | j < i && fs[j].htype.REQUIRED?
  }

  /** A required field with fewer than 64 required fields before it. */
  ghost predicate Tracked(fs: seq<Field>, i: nat) {
    i < |fs| && fs[i].htype.REQUIRED? && |RequiredAmong(fs, i)| < 64
  }

  lemma {:induction false} RequiredBeforeIs(fs: seq<Field>, i: nat)
    requires i <= |fs|
    ensures RequiredBefore(fs, i) == |RequiredAmong(fs, i)|
  {
    if i == 0 {
      assert RequiredAmong(fs, 0) == {};
    } else {
      RequiredBeforeIs(fs, i - 1);
      assert RequiredAmong(fs, i) == RequiredAmong(fs, i - 1) + if fs[i - 1].htype.REQUIRED? then {i - 1} else {};
    }
  }

  lemma {:induction false} RequiredGrows(fs: seq<Field>, i: nat, j: nat)
    requires i < j <= |fs|
    ensures RequiredBefore(fs, i) + (if fs[i].htype.REQUIRED? then 1 else 0) <= RequiredBefore(fs, j)
    decreases j
  {
    if i < j - 1 {
      RequiredGrows(fs, i, j - 1);
    }
  }

  /** Required fields differ in their index among the required fields. */
  lemma RequiredApart(fs: seq<Field>, i: nat, j: nat)
    requires i < |fs| && j < |fs| && fs[i].htype.REQUIRED? && fs[j].htype.REQUIRED?
    ensures RequiredBefore(fs, i) == RequiredBefore(fs, j) <==> i == j
  {
    if i < j {
      RequiredGrows(fs, i, j);
    } else if j < i {
      RequiredGrows(fs, j, i);
    }
  }

  lemma {:induction false} NthRequired(fs: seq<Field>, k: nat, n: nat) returns (i: nat)
    requires k <= |fs| && n < RequiredBefore(fs, k)
    ensures i < k && fs[i].htype.REQUIRED? && RequiredBefore(fs, i) == n
  {
    if n < RequiredBefore(fs, k - 1) {
      i := NthRequired(fs, k - 1, n);
    } else {
      i := k - 1;
    }
  }

  lemma NotedIs(fs: seq<Field>, i: nat, k: nat, seen: set<nat>)
    requires k < |fs| && Tracked(fs, i)
    ensures RequiredBefore(fs, i) in Noted(fs, k, seen) <==> RequiredBefore(fs, i) in seen || i == k
  {
    hide RequiredAmong;
    RequiredBeforeIs(fs, i);
    if fs[k].htype.REQUIRED? {
      RequiredApart(fs, i, k);
    }
  }

  /** A tracked field is marked exactly if its tag was met. */
  lemma {:induction false} SeenIsMet(fs: seq<Field>, input: Bytes, p: Progress, i: nat)
    requires TableOk(fs) && |p.slots| == |fs| && Tracked(fs, i) && DecodeFields(fs, input, p).Some?
    ensures RequiredBefore(fs, i) in DecodeFields(fs, input, p).value.seen <==>
            RequiredBefore(fs, i) in p.seen || fs[i].tag in TagsMet(fs, input, p.slots)
    decreases |input|
  {
    hide Tracked, Noted, DecodeField, ReadTag, SkipField, FieldOk, RequiredBefore;
    if input == [] {
      NoTag();
    } else {
      var t := ReadTag(input);
      if t.Tag? {
        TrackedIn(fs, i);
        FindAt(fs, i);
        var k := Find(fs, t.tag);
        if k == |fs| {
          SeenIsMet(fs, SkipField(t.wireType, t.rest).value, p, i);
        } else {
          var (slot, later) := DecodeField(fs[k], t.wireType, p.slots[k], t.rest).value;
          NotedIs(fs, i, k, p.seen);
          SeenIsMet(fs, later, Progress(p.slots[k := slot], Noted(fs, k, p.seen)), i);
        }
      }
    }
  }

  lemma NoTag()
    ensures !ReadTag([]).Tag?
  {
  }

  lemma TrackedIn(fs: seq<Field>, i: nat)
    requires Tracked(fs, i)
    ensures i < |fs| && fs[i].htype.REQUIRED?
  {
  }

  /** On any bytes: a struct is accepted if and only if its fields decode and each of the first
      64 required fields is among them. */
  lemma AcceptedIffRequiredMet(fs: seq<Field>, input: Bytes, slots: seq<Slot>)
    requires TableOk(fs) && |slots| == |fs|
    ensures DecodeNoInit(fs, input, slots).Some? <==>
            DecodeFields(fs, input, Progress(slots, {})).Some?
            && forall i: nat :: Tracked(fs, i) ==> fs[i].tag in TagsMet(fs, input, slots)
  {
    hide RequiredAmong, DecodeFields, TagsMet, FieldOk;
    if DecodeFields(fs, input, Progress(slots, {})).Some? {
      var seen := DecodeFields(fs, input, Progress(slots, {})).value.seen;
      forall i: nat | Tracked(fs, i) ensures RequiredBefore(fs, i) in seen <==> fs[i].tag in TagsMet(fs, input, slots) {
        SeenIsMet(fs, input, Progress(slots, {}), i);
      }
      NoneMissingIs(fs, seen);
    }
  }

  lemma NoneMissingIs(fs: seq<Field>, seen: set<nat>)
    ensures NoneMissing(fs, seen) <==> forall i: nat :: Tracked(fs, i) ==> RequiredBefore(fs, i) in seen
  {
    hide RequiredAmong;
    if NoneMissing(fs, seen) {
      forall i: nat | Tracked(fs, i) ensures RequiredBefore(fs, i) in seen {
        RequiredBeforeIs(fs, i);
        RequiredGrows(fs, i, |fs|);
      }
    }
    if forall i: nat :: Tracked(fs, i) ==> RequiredBefore(fs, i) in seen {
      forall n: nat | n < AllRequired(fs) ensures n in seen {
        var i := NthRequired(fs, |fs|, n);
        RequiredBeforeIs(fs, i);
        assert Tracked(fs, i);
      }
    }
  }

  // -------------------------------------------------- a tag that is met is on the wire

  ghost predicate Suffix(rest: Bytes, input: Bytes) {
    exists k: nat :: k <= |input| && rest == input[k..]
  }

  lemma SuffixTrans(a: Bytes, b: Bytes, c: Bytes)
    requires Suffix(a, b) && Suffix(b, c)
    ensures Suffix(a, c)
  {
    var j: nat :| j <= |b| && a == b[j..];
    var k: nat :| k <= |c| && b == c[k..];
    assert a == c[k + j..];
  }

  lemma SuffixAt(input: Bytes, k: nat)
    requires k <= |input|
    ensures Suffix(input[k..], input)
  {
  }

  lemma {:induction false} UInt32Suffix(input: Bytes)
    requires GetUInt32(input).Some?
    ensures Suffix(GetUInt32(input).value.1, input)
  {
    SuffixAt(input, 1);
    if input[0] >= 128 {
      LoopSuffix(input[1..], input[0] - 128, 7);
      SuffixTrans(GetUInt32(input).value.1, input[1..], input);
    }
  }

  lemma {:induction false} LoopSuffix(input: Bytes, result: nat, bitpos: nat)
    requires UInt32Loop(input, result, bitpos).Some?
    ensures Suffix(UInt32Loop(input, result, bitpos).value.1, input)
    decreases |input|
  {
    hide Overflows, Take7, NextPos, Suffix;
    SuffixAt(input, 1);
    if input[0] >= 128 {
      LoopSuffix(input[1..], Take7(input[0], result, bitpos), NextPos(bitpos));
      SuffixTrans(UInt32Loop(input, result, bitpos).value.1, input[1..], input);
    }
  }

  lemma BlobSuffix(input: Bytes)
    requires GetBlob(input).Some?
    ensures Suffix(GetBlob(input).value.1, input)
  {
    hide Suffix, GetUInt32;
    UInt32Suffix(input);
    var (size, rest) := GetUInt32(input).value;
    SuffixAt(rest, size);
    SuffixTrans(rest[size..], rest, input);
  }

  lemma {:induction false} SkipSuffix(wireType: nat, input: Bytes)
    requires SkipField(wireType, input).Some?
    ensures Suffix(SkipField(wireType, input).value, input)
    decreases |input|
  {
    hide Suffix, GetBlob;
    if wireType == WT_VARINT {
      SuffixAt(input, 1);
      if input[0] >= 128 {
        SkipSuffix(wireType, input[1..]);
        SuffixTrans(SkipVarint(input).value, input[1..], input);
      }
    } else if wireType == WT_STRING {
      BlobSuffix(input);
    } else {
      SuffixAt(input, if wireType == WT_64BIT then 8 else 4);
    }
  }

  lemma ScalarSuffix(f: Field, input: Bytes)
    requires DecodeScalar(f, input).Some?
    ensures Suffix(DecodeScalar(f, input).value.1, input)
  {
    hide Suffix, GetBlob, ReadVarint, DecodeFixed;
    if f.ltype.VARINT? || f.ltype.UVARINT? || f.ltype.SVARINT? {
      ReadVarintLength(input, 10);
      SuffixAt(input, ReadVarint(input, 10).value.1);
    } else if f.ltype.FIXED32? || f.ltype.FIXED64? {
      SuffixAt(input, if f.ltype.FIXED32? then 4 else 8);
    } else {
      BlobSuffix(input);
    }
  }

  lemma FieldSuffix(f: Field, wireType: nat, s: Slot, input: Bytes)
    requires DecodeField(f, wireType, s, input).Some?
    ensures Suffix(DecodeField(f, wireType, s, input).value.1, input)
  {
    hide Suffix, GetBlob, DecodeScalar, DecodePacked;
    if (s.Many? && wireType == WT_STRING && Packable(f.ltype)) || f.ltype.SUBMESSAGE? {
      BlobSuffix(input);
    } else {
      ScalarSuffix(f, input);
    }
  }

  /** Somewhere in the input the key of a field with this tag is read. */
  ghost predicate OnTheWire(input: Bytes, tag: nat) {
    exists at: Bytes :: Suffix(at, input) && ReadTag(at).Tag? && ReadTag(at).tag == tag
  }

  lemma TagOnTheWire(input: Bytes)
    requires ReadTag(input).Tag?
    ensures OnTheWire(input, ReadTag(input).tag) && Suffix(ReadTag(input).rest, input)
  {
    hide GetUInt32;
    UInt32Suffix(input);
    SuffixAt(input, 0);
    assert input[0..] == input;
  }

  lemma WireGoesOn(input: Bytes, rest: Bytes, later: Bytes, tag: nat)
    requires Suffix(rest, input) && Suffix(later, rest) && OnTheWire(later, tag)
    ensures OnTheWire(input, tag)
  {
    hide Suffix, ReadTag;
    var at :| Suffix(at, later) && ReadTag(at).Tag? && ReadTag(at).tag == tag;
    SuffixTrans(later, rest, input);
    SuffixTrans(at, later, input);
  }

  lemma {:induction false} MetIsOnTheWire(fs: seq<Field>, input: Bytes, slots: seq<Slot>, tag: nat)
    requires |slots| == |fs| && tag in TagsMet(fs, input, slots)
    ensures OnTheWire(input, tag)
    decreases |input|
  {
    hide Suffix, DecodeField, SkipField, ReadTag, OnTheWire;
    var t := ReadTag(input);
    TagOnTheWire(input);
    if tag != t.tag {
      var i := Find(fs, t.tag);
      if i == |fs| {
        SkipSuffix(t.wireType, t.rest);
        MetIsOnTheWire(fs, SkipField(t.wireType, t.rest).value, slots, tag);
        WireGoesOn(input, t.rest, SkipField(t.wireType, t.rest).value, tag);
      } else {
        var (slot, later) := DecodeField(fs[i], t.wireType, slots[i], t.rest).value;
        FieldSuffix(fs[i], t.wireType, slots[i], t.rest);
        MetIsOnTheWire(fs, later, slots[i := slot], tag);
        WireGoesOn(input, t.rest, later, tag);
      }
    }
  }

  /** On any bytes: without one of the first 64 required fields the message is refused. */
  lemma RequiredIsOnTheWire(fs: seq<Field>, input: Bytes, slots: seq<Slot>, i: nat)
    requires TableOk(fs) && |slots| == |fs| && Tracked(fs, i) && DecodeNoInit(fs, input, slots).Some?
    ensures OnTheWire(input, fs[i].tag)
  {
    hide OnTheWire, TagsMet, DecodeNoInit, DecodeFields, FieldOk;
    AcceptedIffRequiredMet(fs, input, slots);
    MetIsOnTheWire(fs, input, slots, fs[i].tag);
  }

  // -------------------------------------------------------- encodings with fields left out

  /** As PbRoundTrip.Interleaved, without the fields in `left`. */
  function InterleavedBut(fs: seq<Field>, m: seq<Slot>, k: nat, unknown: seq<Bytes>, left: set<nat>): Bytes
    requires k <= |fs| == |m| && |unknown| == |fs| + 1
    decreases |fs| - k
  {
    if k == |fs| then unknown[k]
    else unknown[k] + ((if k in left then [] else EncodeField(fs[k], m[k])) + InterleavedBut(fs, m, k + 1, unknown, left))
  }

  lemma OneField(fs: seq<Field>, k: nat, s: Slot, rest: Bytes, p: Progress)
    requires TableOk(fs) && k < |fs| == |p.slots| && FitsSlot(fs[k], s) && |EncodeField(fs[k], s)| < TWO_32
    requires p.slots[k] == DefaultSlot(fs[k])
    ensures DecodeFields(fs, EncodeField(fs[k], s) + rest, p)
         == DecodeFields(fs, rest, Progress(p.slots[k := RestoredSlot(fs[k], s)], if Present(fs[k], s) then Noted(fs, k, p.seen) else p.seen))
  {
    hide DecodeFields, DecodeField, FieldOk, Noted;
    if !Present(fs[k], s) {
      assert [] + rest == rest;
      assert p.slots[k := DefaultSlot(fs[k])] == p.slots;
    } else if s.Single? {
      SingleRoundTrip(fs, k, s, rest, p);
    } else {
      ManyRoundTrip(fs, k, s, rest, p);
    }
  }

  /** How far a slot has come. */
  function SlotAfter(fs: seq<Field>, m: seq<Slot>, left: set<nat>, i: nat): Slot
    requires i < |fs| == |m|
  {
    if i in left then DefaultSlot(fs[i]) else RestoredSlot(fs[i], m[i])
  }

  ghost predicate Untouched(fs: seq<Field>, slots: seq<Slot>, k: nat) {
    |slots| == |fs| && forall i: nat :: k <= i < |fs| ==> slots[i] == DefaultSlot(fs[i])
  }

  /** The outcome of decoding from field `k` on. */
  ghost predicate Decoded(fs: seq<Field>, m: seq<Slot>, k: nat, left: set<nat>, p: Progress, q: Progress)
    requires |fs| == |m|
  {
    && |q.slots| == |p.slots| == |fs|
    && (forall i: nat :: i < |fs| ==> q.slots[i] == if i < k then p.slots[i] else SlotAfter(fs, m, left, i))
    && (forall i: nat :: Tracked(fs, i) ==> (RequiredBefore(fs, i) in q.seen <==> RequiredBefore(fs, i) in p.seen || (k <= i && i !in left)))
  }

  /** One field more, or left out. */
  lemma OneMoreDecoded(fs: seq<Field>, m: seq<Slot>, k: nat, left: set<nat>, p: Progress, q: Progress)
    requires FitsMessage(fs, m) && k < |fs| == |m| && Untouched(fs, p.slots, k)
    requires var p1 := if k in left then p
                       else Progress(p.slots[k := RestoredSlot(fs[k], m[k])], if Present(fs[k], m[k]) then Noted(fs, k, p.seen) else p.seen);
             Decoded(fs, m, k + 1, left, p1, q)
    ensures Decoded(fs, m, k, left, p, q)
  {
    hide RestoredSlot, DefaultSlot, IsZero, FitsSlot, Noted, RequiredAmong;
    forall i: nat | Tracked(fs, i)
      ensures RequiredBefore(fs, i) in q.seen <==> RequiredBefore(fs, i) in p.seen || (k <= i && i !in left)
    {
      NotedIs(fs, i, k, p.seen);
    }
  }

  lemma {:induction false} DecodeBut(fs: seq<Field>, m: seq<Slot>, k: nat, unknown: seq<Bytes>, left: set<nat>, p: Progress)
    requires TableOk(fs) && FitsMessage(fs, m) && k <= |fs| && |unknown| == |fs| + 1
    requires forall i :: 0 <= i <= |fs| ==> UnknownFields(fs, unknown[i])
    requires forall i :: 0 <= i < |fs| ==> |EncodeField(fs[i], m[i])| < TWO_32
    requires Untouched(fs, p.slots, k)
    ensures var r := DecodeFields(fs, InterleavedBut(fs, m, k, unknown, left), p); r.Some? && Decoded(fs, m, k, left, p, r.value)
    decreases |fs| - k
  {
    hide RestoredSlot, DefaultSlot, IsZero, FitsSlot, Noted, DecodeFields, FieldOk, EncodeField, UnknownFields, Tracked, Decoded;
    if k == |fs| {
      UnknownSkipped(fs, unknown[k], [], p);
      assert unknown[k] + [] == unknown[k];
      NothingLeft(fs, m, left, p);
    } else {
      var later := InterleavedBut(fs, m, k + 1, unknown, left);
      UnknownSkipped(fs, unknown[k], (if k in left then [] else EncodeField(fs[k], m[k])) + later, p);
      var p1 := p;
      if k in left {
        assert [] + later == later;
      } else {
        OneField(fs, k, m[k], later, p);
        p1 := Progress(p.slots[k := RestoredSlot(fs[k], m[k])], if Present(fs[k], m[k]) then Noted(fs, k, p.seen) else p.seen);
      }
      DecodeBut(fs, m, k + 1, unknown, left, p1);
      OneMoreDecoded(fs, m, k, left, p, DecodeFields(fs, later, p1).value);
    }
  }

  lemma NothingLeft(fs: seq<Field>, m: seq<Slot>, left: set<nat>, p: Progress)
    requires |fs| == |m| == |p.slots|
    ensures DecodeFields(fs, [], p) == Some(p) && Decoded(fs, m, |fs|, left, p, p)
  {
  }

  lemma {:induction false} DefaultsUntouched(fs: seq<Field>)
    ensures Untouched(fs, DefaultMessage(fs), 0)
  {
    if fs != [] {
      DefaultsUntouched(fs[1..]);
    }
  }

  /** Leaving fields out of an encoding, whatever unknown fields are in it: they come back with
      their defaults, unless one of them is among the first 64 required fields. */
  lemma LeftOut(fs: seq<Field>, m: seq<Slot>, unknown: seq<Bytes>, left: set<nat>)
    requires TableOk(fs) && FitsMessage(fs, m) && |unknown| == |fs| + 1
    requires forall i :: 0 <= i <= |fs| ==> UnknownFields(fs, unknown[i])
    requires forall i :: 0 <= i < |fs| ==> |EncodeField(fs[i], m[i])| < TWO_32
    ensures var r := Decode(fs, InterleavedBut(fs, m, 0, unknown, left));
      && (r.None? <==> exists i: nat :: i in left && Tracked(fs, i))
      && (r.Some? ==> forall i: nat :: i < |fs| ==> r.value[i] == if i in left then DefaultSlot(fs[i]) else RestoredSlot(fs[i], m[i]))
  {
    hide RestoredSlot, DefaultSlot, FitsSlot, DecodeFields, FieldOk, EncodeField, UnknownFields, Tracked, RequiredBefore, NoneMissing;
    DefaultsUntouched(fs);
    var p := Progress(DefaultMessage(fs), {});
    DecodeBut(fs, m, 0, unknown, left, p);
    NoneMissingIs(fs, DecodeFields(fs, InterleavedBut(fs, m, 0, unknown, left), p).value.seen);
  }

  // ------------------------------------------------- what a filled struct can be relied on

  /** A value that the decoder may store: as FitsValue, but a string may have zeros in it. */
  ghost predicate HoldsValue(l: LType, size: nat, v: Value)
    decreases v
  {
    match l
    case STRING => v.Octets? && |v.b| <= size
    case SUBMESSAGE(fields) => v.Struct? && HoldsMessage(fields, v.slots)
    case _ => FitsValue(l, size, v)
  }

  ghost predicate HoldsSlot(f: Field, s: Slot)
    decreases s
  {
    if f.htype.REPEATED? then s.Many? && |s.items| <= f.arraySize && forall v :: v in s.items ==> HoldsValue(f.ltype, f.dataSize, v)
    else s.Single? && (f.htype.OPTIONAL? || s.has) && HoldsValue(f.ltype, f.dataSize, s.v)
  }

  ghost predicate HoldsMessage(fs: seq<Field>, m: seq<Slot>)
    decreases m
  {
    |m| == |fs| && forall i :: 0 <= i < |m| ==> HoldsSlot(fs[i], m[i])
  }

  /** The defaults of the table fit their fields. */
  ghost predicate InitsHold(fs: seq<Field>)
    decreases fs
  {
    forall i :: 0 <= i < |fs| ==> InitHolds(fs[i])
  }

  ghost predicate InitHolds(f: Field)
    decreases f
  {
    if f.ltype.SUBMESSAGE? then InitsHold(f.ltype.fields) else HoldsValue(f.ltype, f.dataSize, f.init)
  }

  lemma {:induction false} DefaultHolds(f: Field)
    requires InitHolds(f)
    ensures HoldsSlot(f, DefaultSlot(f)) && HoldsValue(f.ltype, f.dataSize, DefaultValue(f))
    decreases f, 1
  {
    if f.ltype.SUBMESSAGE? {
      DefaultsHold(f.ltype.fields);
    }
  }

  lemma {:induction false} DefaultsHold(fs: seq<Field>)
    requires InitsHold(fs)
    ensures HoldsMessage(fs, DefaultMessage(fs))
    decreases fs, 0
  {
    if fs != [] {
      DefaultHolds(fs[0]);
      assert InitsHold(fs[1..]);
      DefaultsHold(fs[1..]);
    }
  }

  lemma ScalarHolds(f: Field, input: Bytes)
    requires DecodeScalar(f, input).Some?
    ensures HoldsValue(f.ltype, f.dataSize, DecodeScalar(f, input).value.0)
  {
    hide GetUInt64, GetBlob, DecodeFixed;
    if f.ltype.FIXED32? || f.ltype.FIXED64? {
      var n := if f.ltype.FIXED32? then 4 else 8;
      Powers();
      FixedBounded(input[..n]);
    }
  }

  lemma {:induction false} FixedBounded(bs: Bytes)
    ensures DecodeFixed(bs) < Power256(|bs|)
  {
    if bs != [] {
      FixedBounded(bs[1..]);
    }
  }

  lemma {:induction false} ValueHolds(f: Field, old_: Value, fresh_: bool, input: Bytes)
    requires InitHolds(f) && DecodeValue(f, old_, fresh_, input).Some?
    requires fresh_ || HoldsValue(f.ltype, f.dataSize, old_)
    ensures HoldsValue(f.ltype, f.dataSize, DecodeValue(f, old_, fresh_, input).value.0)
    decreases |input|, 4
  {
    hide DecodeScalar, DecodeFields, GetBlob, NoneMissing;
    if f.ltype.SUBMESSAGE? {
      var fields, blob := f.ltype.fields, GetBlob(input).value.0;
      DefaultsHold(fields);
      FieldsHold(fields, blob, Progress(if fresh_ then DefaultMessage(fields) else old_.slots, {}));
    } else {
      ScalarHolds(f, input);
    }
  }

  lemma {:induction false} PackedHolds(f: Field, blob: Bytes, items: seq<Value>)
    requires InitHolds(f) && HoldsSlot(f, Many(items)) && DecodePacked(f, blob, items).Some?
    ensures HoldsSlot(f, Many(DecodePacked(f, blob, items).value))
    decreases |blob|, 5
  {
    hide DecodeValue, HoldsValue, InitHolds;
    if blob != [] {
      var (v, rest) := DecodeValue(f, DefaultValue(f), true, blob).value;
      ValueHolds(f, DefaultValue(f), true, blob);
      PackedHolds(f, rest, items + [v]);
    }
  }

  lemma {:induction false} SlotHolds(f: Field, wireType: nat, s: Slot, input: Bytes)
    requires InitHolds(f) && HoldsSlot(f, s) && DecodeField(f, wireType, s, input).Some?
    ensures HoldsSlot(f, DecodeField(f, wireType, s, input).value.0)
    decreases |input|, 6
  {
    hide DecodeValue, HoldsValue, InitHolds, DecodePacked, GetBlob;
    if s.Single? {
      ValueHolds(f, s.v, false, input);
    } else if wireType == WT_STRING && Packable(f.ltype) {
      PackedHolds(f, GetBlob(input).value.0, s.items);
    } else {
      ValueHolds(f, DefaultValue(f), true, input);
    }
  }

  lemma {:induction false} FieldsHold(fs: seq<Field>, input: Bytes, p: Progress)
    requires InitsHold(fs) && HoldsMessage(fs, p.slots) && DecodeFields(fs, input, p).Some?
    ensures HoldsMessage(fs, DecodeFields(fs, input, p).value.slots)
    decreases |input|, 2
  {
    hide ReadTag, DecodeField, SkipField, InitHolds, HoldsSlot, Noted;
    if input != [] {
      var t := ReadTag(input);
      if t.Tag? {
        var i := Find(fs, t.tag);
        if i == |fs| {
          FieldsHold(fs, SkipField(t.wireType, t.rest).value, p);
        } else {
          var (slot, later) := DecodeField(fs[i], t.wireType, p.slots[i], t.rest).value;
          SlotHolds(fs[i], t.wireType, p.slots[i], t.rest);
          FieldsHold(fs, later, Progress(p.slots[i := slot], Noted(fs, i, p.seen)));
        }
      }
    }
  }

  /** On any bytes: a struct that was filled holds what its C types can hold, no array beyond its
      size, no string or bytes beyond theirs. */
  lemma DecodedHolds(fs: seq<Field>, input: Bytes)
    requires InitsHold(fs) && Decode(fs, input).Some?
    ensures HoldsMessage(fs, Decode(fs, input).value)
  {
    hide DecodeFields, NoneMissing;
    DefaultsHold(fs);
    FieldsHold(fs, input, Progress(DefaultMessage(fs), {}));
  }

  /** A string with a zero in it is accepted, so a filled struct need not be one to encode. */
  lemma ZeroInString(tag: nat, rest: Bytes)
    ensures var f := Field(tag, REQUIRED, STRING, 1, 0, Octets([]));
            && DecodeScalar(f, PutLengthPrefixed([0]) + rest) == Some((Octets([0]), rest))
            && HoldsValue(STRING, 1, Octets([0])) && !FitsValue(STRING, 1, Octets([0]))
  {
    BlobRoundTrip([0], rest);
  }

  /** No string in the value, slot or message has a zero in it. */
  ghost predicate ZeroFreeValue(l: LType, v: Value)
    decreases v
  {
    match l
    case STRING => v.Octets? ==> 0 !in v.b
    case SUBMESSAGE(fields) => v.Struct? ==> ZeroFree(fields, v.slots)
    case _ => true
  }

  ghost predicate ZeroFreeSlot(f: Field, s: Slot)
    decreases s
  {
    match s
    case Single(_, v) => ZeroFreeValue(f.ltype, v)
    case Many(items) => forall v :: v in items ==> ZeroFreeValue(f.ltype, v)
  }

  ghost predicate ZeroFree(fs: seq<Field>, m: seq<Slot>)
    decreases m
  {
    forall i :: 0 <= i < |m| && i < |fs| ==> ZeroFreeSlot(fs[i], m[i])
  }

  lemma {:induction false} ValueFits(l: LType, size: nat, v: Value)
    requires HoldsValue(l, size, v)
    ensures FitsValue(l, size, v) <==> ZeroFreeValue(l, v)
    decreases v, 0
  {
    if l.SUBMESSAGE? {
      MessageFits(l.fields, v.slots);
    }
  }

  lemma {:induction false} SlotFits(f: Field, s: Slot)
    requires HoldsSlot(f, s)
    ensures FitsSlot(f, s) <==> ZeroFreeSlot(f, s)
    decreases s, 0
  {
    hide HoldsValue, FitsValue, ZeroFreeValue;
    match s
    case Single(_, v) => ValueFits(f.ltype, f.dataSize, v);
    case Many(items) =>
      forall v | v in items ensures FitsValue(f.ltype, f.dataSize, v) <==> ZeroFreeValue(f.ltype, v) {
        ValueFits(f.ltype, f.dataSize, v);
      }
  }

  lemma {:induction false} MessageFits(fs: seq<Field>, m: seq<Slot>)
    requires HoldsMessage(fs, m)
    ensures FitsMessage(fs, m) <==> ZeroFree(fs, m)
    decreases m, 0
  {
    hide HoldsSlot, FitsSlot, ZeroFreeSlot;
    forall i | 0 <= i < |m| ensures FitsSlot(fs[i], m[i]) <==> ZeroFreeSlot(fs[i], m[i]) {
      SlotFits(fs[i], m[i]);
    }
  }

  /** On any bytes: a struct that was filled is one to encode if and only if no string in it, at
      any depth, has a zero. */
  lemma DecodedFits(fs: seq<Field>, input: Bytes)
    requires InitsHold(fs) && Decode(fs, input).Some?
    ensures FitsMessage(fs, Decode(fs, input).value) <==> ZeroFree(fs, Decode(fs, input).value)
  {
    hide Decode, HoldsMessage, FitsMessage, ZeroFree;
    DecodedHolds(fs, input);
    MessageFits(fs, Decode(fs, input).value);
  }

  // --------------------------------------------------------------- what a field refuses

  /** Strings and bytes: stored if and only if they fit; an empty one clears fixed-length bytes. */
  lemma OctetsExact(f: Field, b: Bytes, rest: Bytes)
    requires f.ltype in {BYTES, STRING, FIXED_BYTES} && |b| < TWO_32
    ensures DecodeScalar(f, PutLengthPrefixed(b) + rest) ==
            if f.ltype.FIXED_BYTES? && b == [] then Some((Octets(Zeros(f.dataSize)), rest))
            else if (if f.ltype.FIXED_BYTES? then |b| == f.dataSize else |b| <= f.dataSize) then Some((Octets(b), rest))
            else None
  {
    BlobRoundTrip(b, rest);
  }

  /** A length that reaches beyond the input is refused. */
  lemma ShortBlobRefused(n: nat, rest: Bytes)
    requires |rest| < n < TWO_32
    ensures GetBlob(PutVarint(n) + rest) == None
  {
    UInt32RoundTrip(n, rest);
  }

  /** A number that was written with 64 bits is read if and only if it fits the field. */
  lemma NumberExact(f: Field, n: int, rest: Bytes)
    ensures f.ltype.UVARINT? && 0 <= n < TWO_64 ==>
            DecodeScalar(f, PutVarint(n) + rest) == if FitsUnsigned(n, f.dataSize) then Some((Number(n), rest)) else None
    ensures f.ltype.SVARINT? && FitsSigned(n, 8) ==>
            DecodeScalar(f, PutVarint(ZigZag(n)) + rest) == if FitsSigned(n, f.dataSize) then Some((Number(n), rest)) else None
    ensures f.ltype.VARINT? && FitsSigned(n, 8) && f.dataSize == 8 ==>
            DecodeScalar(f, PutVarint(Unsigned64(n)) + rest) == Some((Number(n), rest))
  {
    hide GetUInt32;
    if f.ltype.UVARINT? && 0 <= n < TWO_64 {
      Varint64RoundTrip(n, rest);
    }
    if f.ltype.SVARINT? && FitsSigned(n, 8) {
      ZigZagRoundTrip(n);
      Varint64RoundTrip(ZigZag(n), rest);
    }
    if f.ltype.VARINT? && FitsSigned(n, 8) && f.dataSize == 8 {
      SignedRoundTrip(n, 8);
      Varint64RoundTrip(Unsigned64(n), rest);
    }
  }

  /** A signed field below 64 bits looks at the low 32 bits only: of `n` the number `m`. */
  lemma NarrowExact(f: Field, n: int, m: int, rest: Bytes)
    requires f.ltype.VARINT? && FitsSigned(n, 8) && f.dataSize != 8 && FitsSigned(m, 4) && (n - m) % TWO_32 == 0
    ensures DecodeScalar(f, PutVarint(Unsigned64(n)) + rest) == if FitsSigned(m, f.dataSize) then Some((Number(m), rest)) else None
  {
    hide GetUInt32;
    Varint64RoundTrip(Unsigned64(n), rest);
    var u: nat, q := Unsigned64(n), (n - m) / TWO_32;
    var k := q + (if n < 0 then TWO_32 else 0) - (if m < 0 then 1 else 0);
    assert u == k * TWO_32 + (if m < 0 then m + TWO_32 else m);
    LowPart(u, k, if m < 0 then m + TWO_32 else m);
  }

  lemma LowPart(u: nat, k: int, low: nat)
    requires u == k * TWO_32 + low && low < TWO_32
    ensures u % TWO_32 == low
  {
  }

  /** A packed array is appended to what is there, if and only if all of it fits. */
  lemma {:induction false} PackedExact(f: Field, items: seq<Value>, before: seq<Value>)
    requires Packable(f.ltype) && items != [] && forall v :: v in items ==> FitsValue(f.ltype, f.dataSize, v)
    ensures DecodePacked(f, Packed(f.ltype, items), before)
         == if |before| + |items| <= f.arraySize then Some(before + items) else None
    decreases items
  {
    hide DecodeScalar, FitsValue, Payload;
    var v, rest := items[0], Packed(f.ltype, items[1..]);
    PayloadNonEmpty(f.ltype, v, f.dataSize);
    ScalarOfNumber(f, v, rest);
    if |items| > 1 {
      PackedExact(f, items[1..], before + [v]);
      assert (before + [v]) + items[1..] == before + items;
    } else {
      assert items == [v] && Packed(f.ltype, items[1..]) == [];
    }
  }

  lemma ScalarOfNumber(f: Field, v: Value, rest: Bytes)
    requires Packable(f.ltype) && FitsValue(f.ltype, f.dataSize, v)
    ensures DecodeValue(f, DefaultValue(f), true, Payload(f.ltype, v) + rest) == Some((v, rest))
  {
    ScalarRoundTrip(f, v, rest);
  }

  /** An array that is full takes no item more. */
  lemma FullArrayRefused(f: Field, wireType: nat, items: seq<Value>, input: Bytes)
    requires |items| >= f.arraySize && !(wireType == WT_STRING && Packable(f.ltype))
    ensures DecodeField(f, wireType, Many(items), input) == None
  {
  }

  /** An array field takes one more item, also a number that is not packed. */
  lemma ItemAppended(f: Field, wireType: nat, items: seq<Value>, v: Value, rest: Bytes)
    requires !f.ltype.SUBMESSAGE? && FitsValue(f.ltype, f.dataSize, v) && (v.Octets? ==> |v.b| < TWO_32)
    requires |items| < f.arraySize && !(wireType == WT_STRING && Packable(f.ltype))
    ensures DecodeField(f, wireType, Many(items), Payload(f.ltype, v) + rest) == Some((Many(items + [v]), rest))
  {
    hide DecodeScalar;
    ScalarRoundTrip(f, v, rest);
  }

  /** Of a scalar that comes twice the last one counts. */
  lemma LastScalarCounts(f: Field, wireType: nat, s: Slot, v: Value, rest: Bytes)
    requires !f.ltype.SUBMESSAGE? && s.Single? && FitsValue(f.ltype, f.dataSize, v) && (v.Octets? ==> |v.b| < TWO_32)
    ensures DecodeField(f, wireType, s, Payload(f.ltype, v) + rest) == Some((Single(true, v), rest))
  {
    hide DecodeScalar;
    ScalarRoundTrip(f, v, rest);
  }

  /** A submessage that comes twice is decoded into what is there. */
  lemma SubmessageMerged(f: Field, wireType: nat, has: bool, slots: seq<Slot>, blob: Bytes, rest: Bytes)
    requires f.ltype.SUBMESSAGE? && |slots| == |f.ltype.fields| && |blob| < TWO_32
    ensures DecodeField(f, wireType, Single(has, Struct(slots)), PutLengthPrefixed(blob) + rest) ==
            match DecodeNoInit(f.ltype.fields, blob, slots)
            case None => None
            case Some(slots') => Some((Single(true, Struct(slots')), rest))
  {
    hide DecodeNoInit;
    BlobRoundTrip(blob, rest);
  }

  // ------------------------------------------------------------------- unknown fields

  lemma {:induction false} VarintSkipped(b: Bytes, rest: Bytes)
    requires IsVarint(b)
    ensures SkipVarint(b + rest) == Some(rest)
    decreases |b|
  {
    assert (b + rest)[1..] == b[1..] + rest;
    if |b| > 1 {
      VarintSkipped(b[1..], rest);
    } else {
      assert b[1..] + rest == rest;
    }
  }

  /** What an unknown field is, by its wire type; any other wire type is refused. */
  lemma SkipExact(wireType: nat, b: Bytes, rest: Bytes)
    ensures wireType == 0 && IsVarint(b) ==> SkipField(wireType, b + rest) == Some(rest)
    ensures wireType == 1 && |b| == 8 ==> SkipField(wireType, b + rest) == Some(rest)
    ensures wireType == 2 && |b| < TWO_32 ==> SkipField(wireType, PutLengthPrefixed(b) + rest) == Some(rest)
    ensures wireType == 5 && |b| == 4 ==> SkipField(wireType, b + rest) == Some(rest)
    ensures wireType !in {0, 1, 2, 5} ==> SkipField(wireType, b) == None
    ensures (wireType == 0 && forall i :: 0 <= i < |b| ==> b[i] >= 128) ==> SkipField(wireType, b) == None
    ensures (wireType == 1 && |b| < 8) || (wireType == 5 && |b| < 4) ==> SkipField(wireType, b) == None
  {
    hide GetUInt32, PutVarint;
    assert (b + rest)[|b|..] == rest;
    if wireType == 0 && IsVarint(b) {
      VarintSkipped(b, rest);
    }
    if wireType == 0 && forall i :: 0 <= i < |b| ==> b[i] >= 128 {
      EndlessVarint(b);
    }
    if wireType == 2 && |b| < TWO_32 {
      BlobRoundTrip(b, rest);
    }
  }

  lemma {:induction false} EndlessVarint(b: Bytes)
    requires forall i :: 0 <= i < |b| ==> b[i] >= 128
    ensures SkipVarint(b) == None
  {
    if b != [] {
      EndlessVarint(b[1..]);
    }
  }

  /** A zero ends the message, whatever follows; a key that is cut off is refused. */
  lemma EndOfMessage(fs: seq<Field>, rest: Bytes, p: Progress)
    requires |p.slots| == |fs|
    ensures DecodeFields(fs, [0] + rest, p) == Some(p) && DecodeFields(fs, [128], p) == None
  {
    assert ([0] + rest)[1..] == rest;
    assert ReadTag([0] + rest) == Eof && ReadTag([128]) == Bad;
  }

  // ------------------------------------------------------------------ what is left out

  /** A field is left out of the encoding exactly if it is an optional one that is not set, an
      empty array, or one without has_ flag that is zero, which for a submessage means that
      nothing of it would be written. */
  lemma AbsentExact(f: Field, s: Slot)
    requires FieldOk(f) && FitsSlot(f, s)
    ensures EncodeField(f, s) == [] <==>
            match f.htype
            case REQUIRED => false
            case OPTIONAL => !s.has
            case REPEATED => s.items == []
            case SINGULAR =>
              match f.ltype
              case SUBMESSAGE(fields) => s.v.Struct? && EncodeMessage(fields, s.v.slots) == []
              case FIXED_BYTES => f.dataSize == 0
              case BYTES => s.v == Octets([])
              case STRING => s.v == Octets([])
              case _ => s.v == Number(0)
    decreases s, 1
  {
    hide Payload, PutVarint;
    KeyNonEmpty(f.tag, WireType(f.ltype));
    KeyNonEmpty(f.tag, WT_STRING);
    if f.htype.SINGULAR? && f.ltype.SUBMESSAGE? {
      AllZeroIsEmpty(f.ltype.fields, s.v.slots);
    }
  }

  lemma KeyNonEmpty(tag: nat, wireType: nat)
    ensures Key(tag, wireType) != []
  {
  }

  lemma {:induction false} AllZeroIsEmpty(fs: seq<Field>, m: seq<Slot>)
    requires TableOk(fs) && FitsMessage(fs, m)
    ensures AllZero(fs, m) <==> EncodeMessage(fs, m) == []
    decreases m, 0
  {
    hide EncodeField, IsZero, FieldOk, FitsSlot;
    if fs != [] {
      TailOk(fs, m);
      ZeroIsEmpty(fs[0], m[0]);
      AllZeroIsEmpty(fs[1..], m[1..]);
    }
  }

  lemma {:induction false} ZeroIsEmpty(f: Field, s: Slot)
    requires FieldOk(f) && FitsSlot(f, s)
    ensures IsZero(f, s) <==> EncodeField(f, s) == []
    decreases s, 2
  {
    AbsentExact(f, s);
  }
}
