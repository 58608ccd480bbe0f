/** Decoding what nanopb encoded restores the message, absent fields becoming defaults, also
    with unknown fields between the known ones. */
module PbRoundTrip {
  import opened Wrappers
  import opened Coding
  import opened PbWire
  import opened PbMessage

  // ------------------------------------------------------------------------ values

  lemma ScalarRoundTrip(f: Field, v: Value, rest: Bytes)
    requires !f.ltype.SUBMESSAGE? && FitsValue(f.ltype, f.dataSize, v)
    requires v.Octets? ==> |v.b| < TWO_32
    ensures DecodeScalar(f, Payload(f.ltype, v) + rest) == Some((v, rest))
  {
    match f.ltype
    case VARINT =>
      SignedRoundTrip(v.n, f.dataSize);
      Varint64RoundTrip(Unsigned64(v.n), rest);
    case UVARINT => Varint64RoundTrip(v.n, rest);
    case SVARINT =>
      ZigZagRoundTrip(v.n);
      Varint64RoundTrip(ZigZag(v.n), rest);
    case FIXED32 =>
      Powers();
      GetFixedRoundTrip(v.n, 4, rest);
    case FIXED64 =>
      Powers();
      GetFixedRoundTrip(v.n, 8, rest);
    case FIXED_BYTES =>
      BlobRoundTrip(v.b, rest);
      assert v.b == [] ==> Zeros(f.dataSize) == [];
    case BYTES => BlobRoundTrip(v.b, rest);
    case STRING => BlobRoundTrip(v.b, rest);
  }

  /** Scalars come back as they are; a submessage as MessageRoundTrip says. */
  lemma ValueRoundTrip(f: Field, v: Value, old_: Value, fresh_: bool, rest: Bytes)
    requires FieldOk(f) && FitsValue(f.ltype, f.dataSize, v) && |Payload(f.ltype, v)| < TWO_32
    requires fresh_ || old_ == DefaultValue(f)
    ensures DecodeValue(f, old_, fresh_, Payload(f.ltype, v) + rest) == Some((Restored(f.ltype, v), rest))
    decreases v, 1
  {
    if f.ltype.SUBMESSAGE? {
      var fields, bytes := f.ltype.fields, EncodeMessage(f.ltype.fields, v.slots);
      MessageRoundTrip(fields, v.slots);
      BlobRoundTrip(bytes, rest);
    } else {
      ScalarRoundTrip(f, v, rest);
    }
  }

  // ------------------------------------------------------------------------ arrays

  lemma PayloadNonEmpty(l: LType, v: Value, size: nat)
    requires FitsValue(l, size, v)
    ensures Payload(l, v) != []
  {
  }

  lemma {:induction false} PackedRoundTrip(f: Field, items: seq<Value>, before: seq<Value>)
    requires Packable(f.ltype) && forall v :: v in items ==> FitsValue(f.ltype, f.dataSize, v)
    requires |before| + |items| <= f.arraySize
    ensures DecodePacked(f, Packed(f.ltype, items), before) == Some(before + RestoredItems(f.ltype, items))
    decreases items
  {
    if items == [] {
      assert before + [] == before;
    } else {
      var v, rest := items[0], Packed(f.ltype, items[1..]);
      PayloadNonEmpty(f.ltype, v, f.dataSize);
      ScalarRoundTrip(f, v, rest);
      PackedRoundTrip(f, items[1..], before + [v]);
      assert (before + [v]) + RestoredItems(f.ltype, items[1..]) == before + ([v] + RestoredItems(f.ltype, items[1..]));
    }
  }

  // ----------------------------------------------------------------- field by field

  /** The struct when the first `k` fields have been restored and the others are as the
      defaults. */
  function Partial(fs: seq<Field>, m: seq<Slot>, k: nat): (r: seq<Slot>)
    requires k <= |m| == |fs|
    ensures |r| == |fs|
  {
    RestoredMessage(fs, m)[..k] + DefaultMessage(fs)[k..]
  }

  lemma {:induction false} RestoredAt(fs: seq<Field>, m: seq<Slot>, k: nat)
    requires k < |m| == |fs|
    ensures RestoredMessage(fs, m)[k] == RestoredSlot(fs[k], m[k])
    ensures DefaultMessage(fs)[k] == DefaultSlot(fs[k])
    decreases k
  {
    if k > 0 {
      RestoredAt(fs[1..], m[1..], k - 1);
    }
  }

  lemma PartialStep(fs: seq<Field>, m: seq<Slot>, k: nat)
    requires k < |m| == |fs|
    ensures Partial(fs, m, k)[k] == DefaultSlot(fs[k])
    ensures Partial(fs, m, k)[k := RestoredSlot(fs[k], m[k])] == Partial(fs, m, k + 1)
    ensures RestoredSlot(fs[k], m[k]) == DefaultSlot(fs[k]) ==> Partial(fs, m, k) == Partial(fs, m, k + 1)
  {
    RestoredAt(fs, m, k);
  }

  /** The required fields among the first `k`, as far as they are tracked. */
  function SeenUpTo(fs: seq<Field>, k: nat): set<nat>
    requires k <= |fs|
  {
    if k == 0 then {} else Noted(fs, k - 1, SeenUpTo(fs, k - 1))
  }

  lemma {:induction false} SeenIsAll(fs: seq<Field>, k: nat)
    requires k <= |fs|
    ensures forall i :: 0 <= i < RequiredBefore(fs, k) && i < MAX_REQUIRED_FIELDS ==> i in SeenUpTo(fs, k)
  {
    if k > 0 {
      SeenIsAll(fs, k - 1);
    }
  }

  lemma FindAt(fs: seq<Field>, k: nat)
    requires TableOk(fs) && k < |fs|
    ensures Find(fs, fs[k].tag) == k
  {
    assert forall j :: 0 <= j < k ==> fs[j].tag != fs[k].tag;
  }

  /** One field on the wire. */
  lemma OneRecord(fs: seq<Field>, k: nat, wireType: nat, body: Bytes, rest: Bytes, p: Progress, slot: Slot)
    requires TableOk(fs) && k < |fs| == |p.slots| && wireType < 8
    requires DecodeField(fs[k], wireType, p.slots[k], body + rest) == Some((slot, rest))
    ensures DecodeFields(fs, (Key(fs[k].tag, wireType) + body) + rest, p)
         == DecodeFields(fs, rest, Progress(p.slots[k := slot], Noted(fs, k, p.seen)))
  {
    assert FieldOk(fs[k]);
    ConcatAssoc(Key(fs[k].tag, wireType), body, rest);
    KeyRoundTrip(fs[k].tag, wireType, body + rest);
    FindAt(fs, k);
  }

  lemma SingleRoundTrip(fs: seq<Field>, k: nat, s: Slot, rest: Bytes, p: Progress)
    requires TableOk(fs) && k < |fs| == |p.slots| && FitsSlot(fs[k], s) && s.Single? && Present(fs[k], s)
    requires p.slots[k] == DefaultSlot(fs[k]) && |EncodeField(fs[k], s)| < TWO_32
    ensures DecodeFields(fs, EncodeField(fs[k], s) + rest, p)
         == DecodeFields(fs, rest, Progress(p.slots[k := RestoredSlot(fs[k], s)], Noted(fs, k, p.seen)))
    decreases s, 0
  {
    var f := fs[k];
    assert FieldOk(f);
    ValueRoundTrip(f, s.v, DefaultValue(f), false, rest);
    OneRecord(fs, k, WireType(f.ltype), Payload(f.ltype, s.v), rest, p, Single(true, Restored(f.ltype, s.v)));
  }

  lemma PackedFieldRoundTrip(fs: seq<Field>, k: nat, items: seq<Value>, rest: Bytes, p: Progress)
    requires TableOk(fs) && k < |fs| == |p.slots| && Packable(fs[k].ltype) && |items| <= fs[k].arraySize
    requires forall v :: v in items ==> FitsValue(fs[k].ltype, fs[k].dataSize, v)
    requires p.slots[k] == Many([]) && |Packed(fs[k].ltype, items)| < TWO_32
    ensures DecodeFields(fs, (Key(fs[k].tag, WT_STRING) + PutLengthPrefixed(Packed(fs[k].ltype, items))) + rest, p)
         == DecodeFields(fs, rest, Progress(p.slots[k := Many(RestoredItems(fs[k].ltype, items))], Noted(fs, k, p.seen)))
  {
    var f, blob := fs[k], Packed(fs[k].ltype, items);
    BlobRoundTrip(blob, rest);
    PackedRoundTrip(f, items, []);
    assert [] + RestoredItems(f.ltype, items) == RestoredItems(f.ltype, items);
    OneRecord(fs, k, WT_STRING, PutLengthPrefixed(blob), rest, p, Many(RestoredItems(f.ltype, items)));
  }

  /** One item of an array that is not packed. */
  lemma ItemRoundTrip(f: Field, v: Value, before: seq<Value>, rest: Bytes)
    requires FieldOk(f) && !Packable(f.ltype) && FitsValue(f.ltype, f.dataSize, v) && |Payload(f.ltype, v)| < TWO_32
    requires |before| < f.arraySize
    ensures DecodeField(f, WireType(f.ltype), Many(before), Payload(f.ltype, v) + rest) == Some((Many(before + [Restored(f.ltype, v)]), rest))
    decreases v, 2
  {
    ValueRoundTrip(f, v, DefaultValue(f), true, rest);
  }

  lemma {:induction false} UnpackedRoundTrip(fs: seq<Field>, k: nat, items: seq<Value>, before: seq<Value>,
                                             rest: Bytes, p: Progress)
    requires TableOk(fs) && k < |fs| == |p.slots| && fs[k].htype.REPEATED? && !Packable(fs[k].ltype)
    requires forall v :: v in items ==> FitsValue(fs[k].ltype, fs[k].dataSize, v)
    requires p.slots[k] == Many(before) && |before| + |items| <= fs[k].arraySize && |Unpacked(fs[k], items)| < TWO_32
    ensures DecodeFields(fs, Unpacked(fs[k], items) + rest, p)
         == DecodeFields(fs, rest, Progress(p.slots[k := Many(before + RestoredItems(fs[k].ltype, items))], p.seen))
    decreases items
  {
    hide DecodeFields, DecodeField, FitsValue, Payload, Restored;
    var f := fs[k];
    if items == [] {
      assert before + [] == before && p.slots[k := Many(before)] == p.slots;
      assert [] + rest == rest;
    } else {
      var v, later := items[0], Unpacked(f, items[1..]);
      var one := Key(f.tag, WireType(f.ltype)) + Payload(f.ltype, v);
      assert FieldOk(f);
      ConcatAssoc(one, later, rest);
      ItemRoundTrip(f, v, before, later + rest);
      var slot := Many(before + [Restored(f.ltype, v)]);
      OneRecord(fs, k, WireType(f.ltype), Payload(f.ltype, v), later + rest, p, slot);
      var p1 := Progress(p.slots[k := slot], p.seen);
      UnpackedRoundTrip(fs, k, items[1..], before + [Restored(f.ltype, v)], rest, p1);
      assert (before + [Restored(f.ltype, v)]) + RestoredItems(f.ltype, items[1..]) == before + RestoredItems(f.ltype, items);
      var all := Many(before + RestoredItems(f.ltype, items));
      assert p.slots[k := slot][k := all] == p.slots[k := all];
    }
  }

  lemma ManyRoundTrip(fs: seq<Field>, k: nat, s: Slot, rest: Bytes, p: Progress)
    requires TableOk(fs) && k < |fs| == |p.slots| && FitsSlot(fs[k], s) && s.Many? && s.items != []
    requires p.slots[k] == Many([]) && |EncodeField(fs[k], s)| < TWO_32
    ensures DecodeFields(fs, EncodeField(fs[k], s) + rest, p)
         == DecodeFields(fs, rest, Progress(p.slots[k := RestoredSlot(fs[k], s)], Noted(fs, k, p.seen)))
    decreases s, 0
  {
    var f := fs[k];
    if Packable(f.ltype) {
      PackedFieldRoundTrip(fs, k, s.items, rest, p);
    } else {
      UnpackedRoundTrip(fs, k, s.items, [], rest, p);
      assert [] + RestoredItems(f.ltype, s.items) == RestoredItems(f.ltype, s.items);
    }
  }

  /** One field of the table: afterwards the struct is restored one field further. */
  lemma FieldRoundTrip(fs: seq<Field>, m: seq<Slot>, k: nat, rest: Bytes)
    requires TableOk(fs) && FitsMessage(fs, m) && k < |fs| && |EncodeField(fs[k], m[k])| < TWO_32
    ensures DecodeFields(fs, EncodeField(fs[k], m[k]) + rest, Progress(Partial(fs, m, k), SeenUpTo(fs, k)))
         == DecodeFields(fs, rest, Progress(Partial(fs, m, k + 1), SeenUpTo(fs, k + 1)))
    decreases m, 0
  {
    var p := Progress(Partial(fs, m, k), SeenUpTo(fs, k));
    PartialStep(fs, m, k);
    if !Present(fs[k], m[k]) {
      assert [] + rest == rest;
    } else if m[k].Single? {
      SingleRoundTrip(fs, k, m[k], rest, p);
    } else {
      ManyRoundTrip(fs, k, m[k], rest, p);
    }
  }

  // -------------------------------------------------------------- whole messages

  /** Well-formed fields that the table does not know. */
  ghost predicate UnknownFields(fs: seq<Field>, bs: Bytes)
    decreases |bs|
  {
    bs != [] ==>
      var t := ReadTag(bs);
      && t.Tag? && Find(fs, t.tag) == |fs| && (fs != [] || t.tag != 0) && SkipField(t.wireType, t.rest).Some?
      && UnknownFields(fs, SkipField(t.wireType, t.rest).value)
  }

  lemma {:induction false} UnknownSkipped(fs: seq<Field>, bs: Bytes, rest: Bytes, p: Progress)
    requires UnknownFields(fs, bs) && |p.slots| == |fs|
    ensures DecodeFields(fs, bs + rest, p) == DecodeFields(fs, rest, p)
    decreases |bs|
  {
    if bs == [] {
      assert bs + rest == rest;
    } else {
      var t := ReadTag(bs);
      ReadTagMore(bs, rest);
      SkipFieldMore(t.wireType, t.rest, rest);
      UnknownSkipped(fs, SkipField(t.wireType, t.rest).value, rest, p);
    }
  }

  /** The fields from `k` on, each behind unknown fields, and unknown fields at the end. */
  function Interleaved(fs: seq<Field>, m: seq<Slot>, k: nat, unknown: seq<Bytes>): Bytes
    requires k <= |fs| == |m| && |unknown| == |fs| + 1
    decreases |fs| - k
  {
    if k == |fs| then unknown[k] else unknown[k] + (EncodeField(fs[k], m[k]) + Interleaved(fs, m, k + 1, unknown))
  }

  lemma {:induction false} InterleavedRoundTrip(fs: seq<Field>, m: seq<Slot>, k: nat, unknown: seq<Bytes>)
    requires TableOk(fs) && FitsMessage(fs, m) && k <= |fs| && |unknown| == |fs| + 1
    requires forall i :: 0 <= i <= |fs| ==> UnknownFields(fs, unknown[i])
    requires forall i :: 0 <= i < |fs| ==> |EncodeField(fs[i], m[i])| < TWO_32
    ensures DecodeFields(fs, Interleaved(fs, m, k, unknown), Progress(Partial(fs, m, k), SeenUpTo(fs, k)))
         == Some(Progress(RestoredMessage(fs, m), SeenUpTo(fs, |fs|)))
    decreases m, 1, |fs| - k
  {
    var p := Progress(Partial(fs, m, k), SeenUpTo(fs, k));
    if k == |fs| {
      UnknownSkipped(fs, unknown[k], [], p);
      assert unknown[k] + [] == unknown[k];
      assert Partial(fs, m, k) == RestoredMessage(fs, m);
    } else {
      var later := Interleaved(fs, m, k + 1, unknown);
      UnknownSkipped(fs, unknown[k], EncodeField(fs[k], m[k]) + later, p);
      FieldRoundTrip(fs, m, k, later);
      InterleavedRoundTrip(fs, m, k + 1, unknown);
    }
  }

  /** Whatever well-formed unknown fields stand between the fields of a message, decoding
      gives the message back. */
  lemma UnknownFieldsRoundTrip(fs: seq<Field>, m: seq<Slot>, unknown: seq<Bytes>)
    requires TableOk(fs) && FitsMessage(fs, m) && |unknown| == |fs| + 1
    requires forall i :: 0 <= i <= |fs| ==> UnknownFields(fs, unknown[i])
    requires forall i :: 0 <= i < |fs| ==> |EncodeField(fs[i], m[i])| < TWO_32
    ensures Decode(fs, Interleaved(fs, m, 0, unknown)) == Some(RestoredMessage(fs, m))
    decreases m, 2
  {
    InterleavedRoundTrip(fs, m, 0, unknown);
    assert Partial(fs, m, 0) == DefaultMessage(fs);
    SeenIsAll(fs, |fs|);
  }

  lemma {:induction false} EncodeFrom(fs: seq<Field>, m: seq<Slot>, k: nat)
    requires k <= |fs| == |m|
    ensures Interleaved(fs, m, k, seq(|fs| + 1, _ => [])) == EncodeMessage(fs[k..], m[k..])
    ensures k < |fs| ==> |EncodeField(fs[k], m[k])| <= |EncodeMessage(fs[k..], m[k..])|
    ensures k < |fs| ==> |EncodeMessage(fs[k + 1..], m[k + 1..])| <= |EncodeMessage(fs[k..], m[k..])|
    decreases |fs| - k
  {
    if k < |fs| {
      EncodeFrom(fs, m, k + 1);
      assert fs[k..][1..] == fs[k + 1..] && m[k..][1..] == m[k + 1..];
      assert [] + (EncodeField(fs[k], m[k]) + EncodeMessage(fs[k + 1..], m[k + 1..])) == EncodeMessage(fs[k..], m[k..]);
    }
  }

  lemma {:induction false} FieldsShorter(fs: seq<Field>, m: seq<Slot>, k: nat, i: nat)
    requires k <= i < |fs| == |m|
    ensures |EncodeField(fs[i], m[i])| <= |EncodeMessage(fs[k..], m[k..])|
    decreases i - k
  {
    EncodeFrom(fs, m, k);
    if k < i {
      FieldsShorter(fs, m, k + 1, i);
    }
  }

  /** `pb_decode` undoes `pb_encode` up to absent fields. */
  lemma MessageRoundTrip(fs: seq<Field>, m: seq<Slot>)
    requires TableOk(fs) && FitsMessage(fs, m) && |EncodeMessage(fs, m)| < TWO_32
    ensures Decode(fs, EncodeMessage(fs, m)) == Some(RestoredMessage(fs, m))
    decreases m, 3
  {
    var none: seq<Bytes> := seq(|fs| + 1, _ => []);
    assert fs[0..] == fs && m[0..] == m;
    EncodeFrom(fs, m, 0);
    forall i | 0 <= i < |fs| ensures |EncodeField(fs[i], m[i])| < TWO_32 {
      FieldsShorter(fs, m, 0, i);
    }
    UnknownFieldsRoundTrip(fs, m, none);
  }

  // ------------------------------------------- the restored message means the same

  /** The default of a field that may be left out is one that is left out. */
  lemma {:induction false} ZeroDefault(f: Field, s: Slot)
    requires FieldOk(f) && FitsSlot(f, s) && IsZero(f, s)
    ensures IsZero(f, DefaultSlot(f))
    decreases s
  {
    if f.htype.SINGULAR? && f.ltype.SUBMESSAGE? {
      ZeroDefaults(f.ltype.fields, s.v.slots);
    }
  }

  lemma {:induction false} ZeroDefaults(fs: seq<Field>, m: seq<Slot>)
    requires TableOk(fs) && FitsMessage(fs, m) && AllZero(fs, m)
    ensures AllZero(fs, DefaultMessage(fs))
    decreases m
  {
    if fs != [] {
      TailOk(fs, m);
      ZeroDefault(fs[0], m[0]);
      ZeroDefaults(fs[1..], m[1..]);
      assert DefaultMessage(fs)[1..] == DefaultMessage(fs[1..]);
    }
  }

  lemma TailOk(fs: seq<Field>, m: seq<Slot>)
    requires TableOk(fs) && FitsMessage(fs, m) && fs != []
    ensures FieldOk(fs[0]) && FitsSlot(fs[0], m[0]) && TableOk(fs[1..]) && FitsMessage(fs[1..], m[1..])
  {
  }

  /** What is left out stays out, and what is written stays in. */
  lemma {:induction false} RestoredIsZero(f: Field, s: Slot)
    requires FieldOk(f) && FitsSlot(f, s)
    ensures IsZero(f, RestoredSlot(f, s)) <==> IsZero(f, s)
    decreases s
  {
    if s.Single? {
      if !Present(f, s) {
        ZeroDefault(f, s);
      } else if f.htype.SINGULAR? && f.ltype.SUBMESSAGE? {
        RestoredAllZero(f.ltype.fields, s.v.slots);
      }
    }
  }

  lemma {:induction false} RestoredAllZero(fs: seq<Field>, m: seq<Slot>)
    requires TableOk(fs) && FitsMessage(fs, m)
    ensures AllZero(fs, RestoredMessage(fs, m)) <==> AllZero(fs, m)
    decreases m
  {
    if fs != [] {
      TailOk(fs, m);
      RestoredIsZero(fs[0], m[0]);
      RestoredAllZero(fs[1..], m[1..]);
      assert RestoredMessage(fs, m)[1..] == RestoredMessage(fs[1..], m[1..]);
    }
  }

  lemma {:induction false} SamePayload(f: Field, v: Value)
    requires FieldOk(f) && FitsValue(f.ltype, f.dataSize, v)
    ensures Payload(f.ltype, Restored(f.ltype, v)) == Payload(f.ltype, v)
    decreases v
  {
    if f.ltype.SUBMESSAGE? {
      SameEncoding(f.ltype.fields, v.slots);
    }
  }

  lemma {:induction false} SameItems(f: Field, items: seq<Value>)
    requires FieldOk(f) && forall v :: v in items ==> FitsValue(f.ltype, f.dataSize, v)
    ensures Packed(f.ltype, RestoredItems(f.ltype, items)) == Packed(f.ltype, items)
    ensures Unpacked(f, RestoredItems(f.ltype, items)) == Unpacked(f, items)
    decreases items
  {
    if items != [] {
      SamePayload(f, items[0]);
      SameItems(f, items[1..]);
      assert RestoredItems(f.ltype, items)[1..] == RestoredItems(f.ltype, items[1..]);
    }
  }

  lemma {:induction false} SameField(f: Field, s: Slot)
    requires FieldOk(f) && FitsSlot(f, s)
    ensures EncodeField(f, RestoredSlot(f, s)) == EncodeField(f, s)
    decreases s
  {
    RestoredIsZero(f, s);
    if s.Many? {
      SameItems(f, s.items);
    } else if Present(f, s) {
      SamePayload(f, s.v);
    }
  }

  /** Decoding replaces what was absent by defaults; encoding the result again gives the
      same bytes. */
  lemma {:induction false} SameEncoding(fs: seq<Field>, m: seq<Slot>)
    requires TableOk(fs) && FitsMessage(fs, m)
    ensures EncodeMessage(fs, RestoredMessage(fs, m)) == EncodeMessage(fs, m)
    decreases m
  {
    if fs != [] {
      TailOk(fs, m);
      SameField(fs[0], m[0]);
      SameEncoding(fs[1..], m[1..]);
      assert RestoredMessage(fs, m)[1..] == RestoredMessage(fs[1..], m[1..]);
    }
  }
}
