/** The nanopb encoder (pb_encode.c): the same code runs once to count bytes and once to
    write them. */
module PbEncode {
  import opened Wrappers
  import opened Coding
  import opened PbWire
  import opened PbMessage

  datatype Error = NoError | StreamFull

  /** `pb_encode_varint`: all bytes get the continuation bit, the last one loses it. */
  method VarintBytes(v: nat) returns (bs: Bytes)
    ensures bs == PutVarint(v)
  {
    if v <= 127 {
      return [v];
    }
    bs := [];
    var left: nat := v;
    while left != 0
      invariant left > 0 ==> bs + PutVarint(left) == PutVarint(v)
      invariant left == 0 ==> bs != [] && bs[|bs| - 1] >= 128 && ClearLast(bs) == PutVarint(v)
      decreases left
    {
      VarintStep(bs, left);
      bs := bs + [left % 128 + 128];
      left := left / 128;
    }
    bs := ClearLast(bs);
  }

  lemma VarintStep(bs: Bytes, left: nat)
    requires left > 0
    ensures var bs' := bs + [left % 128 + 128];
            if left / 128 > 0 then bs' + PutVarint(left / 128) == bs + PutVarint(left) else ClearLast(bs') == bs + PutVarint(left)
  {
    if left < 128 {
      assert left % 128 == left && left / 128 == 0;
      assert ClearLast(bs + [left + 128]) == bs + [left];
    } else {
      assert PutVarint(left) == [128 + left % 128] + PutVarint(left / 128);
      ConcatAssoc(bs, [128 + left % 128], PutVarint(left / 128));
    }
  }

  function ClearLast(bs: Bytes): Bytes
    requires bs != [] && bs[|bs| - 1] >= 128
  {
    bs[|bs| - 1 := bs[|bs| - 1] - 128]
  }

  /** Any run of bytes that must fit in `maxSize` when written. */
  ghost predicate Fit(sizing: bool, before: Bytes, more: Bytes, maxSize: nat) {
    sizing || |before| + |more| <= maxSize
  }

  lemma {:induction false} PackedFixedSize(l: LType, size: nat, items: seq<Value>)
    requires l.FIXED32? || l.FIXED64?
    requires forall v :: v in items ==> FitsValue(l, size, v)
    ensures |Packed(l, items)| == (if l.FIXED32? then 4 else 8) * |items|
  {
    if items != [] {
      var n := if l.FIXED32? then 4 else 8;
      assert FitsValue(l, size, items[0]);
      assert |Payload(l, items[0])| == n;
      PackedFixedSize(l, size, items[1..]);
      assert n * |items| == n + n * |items[1..]|;
    }
  }

  class OStream {
    const sizing: bool
    const maxSize: nat
    var buffer: Bytes
    var bytesWritten: nat
    var error: Error

    // All bytes passed to this stream, in a sizing pass too.
    ghost var emitted: Bytes

    ghost predicate Valid()
      reads this
    {
      bytesWritten == |emitted| && (!sizing ==> buffer == emitted && bytesWritten <= maxSize)
    }

    constructor (sizing: bool, maxSize: nat)
      ensures Valid() && emitted == [] && this.sizing == sizing && this.maxSize == maxSize
    {
      this.sizing, this.maxSize := sizing, maxSize;
      buffer, bytesWritten, error, emitted := [], 0, NoError, [];
    }

    /** `pb_write`. */
    method Write(bs: Bytes) returns (ok: bool)
      requires Valid()
      modifies this
      ensures Valid() && (ok <==> Fit(sizing, old(emitted), bs, maxSize))
      ensures ok ==> emitted == old(emitted) + bs
      ensures !ok ==> error == StreamFull
    {
      if !sizing {
        if bytesWritten + |bs| > maxSize {
          error := StreamFull;
          return false;
        }
        buffer := buffer + bs;
      }
      bytesWritten := bytesWritten + |bs|;
      emitted := emitted + bs;
      ok := true;
    }

    /** `pb_write(stream, NULL, size)` while only sizing. */
    method Count(size: nat, ghost bs: Bytes)
      requires Valid() && sizing && size == |bs|
      modifies this
      ensures Valid() && emitted == old(emitted) + bs
    {
      bytesWritten := bytesWritten + size;
      emitted := emitted + bs;
    }

    method EncodeVarint(v: nat) returns (ok: bool)
      requires Valid()
      modifies this
      ensures Valid() && (ok <==> Fit(sizing, old(emitted), PutVarint(v), maxSize))
      ensures ok ==> emitted == old(emitted) + PutVarint(v)
      ensures !ok ==> error == StreamFull
    {
      var bs := VarintBytes(v);
      ok := Write(bs);
    }

    /** `pb_encode_string`. */
    method EncodeString(bs: Bytes) returns (ok: bool)
      requires Valid()
      modifies this
      ensures Valid() && (ok <==> Fit(sizing, old(emitted), PutLengthPrefixed(bs), maxSize))
      ensures ok ==> emitted == old(emitted) + PutLengthPrefixed(bs)
      ensures !ok ==> error == StreamFull
    {
      ConcatAssoc(emitted, PutVarint(|bs|), bs);
      ok := EncodeVarint(|bs|);
      if ok {
        ok := Write(bs);
      }
    }

    method EncodeNumber(l: LType, size: nat, v: Value) returns (ok: bool)
      requires Valid() && Packable(l) && FitsValue(l, size, v)
      modifies this
      ensures Valid() && (ok <==> Fit(sizing, old(emitted), Payload(l, v), maxSize))
      ensures ok ==> emitted == old(emitted) + Payload(l, v)
      ensures !ok ==> error == StreamFull
    {
      match l
      case VARINT =>
        SignedRoundTrip(v.n, size);
        ok := EncodeVarint(Unsigned64(v.n));
      case UVARINT => ok := EncodeVarint(v.n);
      case SVARINT => ok := EncodeVarint(ZigZag(v.n));
      case FIXED32 => ok := Write(EncodeFixed(v.n, 4));
      case FIXED64 => ok := Write(EncodeFixed(v.n, 8));
    }

    /** One of the field encoders. */
    method EncodeValue(l: LType, size: nat, v: Value) returns (ok: bool)
      requires Valid() && FitsValue(l, size, v)
      modifies this
      ensures Valid() && (ok <==> Fit(sizing, old(emitted), Payload(l, v), maxSize))
      ensures ok ==> emitted == old(emitted) + Payload(l, v)
      ensures !ok ==> error == StreamFull
      decreases v, 0
    {
      if l.SUBMESSAGE? {
        ok := EncodeSubmessage(l.fields, v.slots);
      } else if Packable(l) {
        ok := EncodeNumber(l, size, v);
      } else {
        ok := EncodeString(v.b);
      }
    }

    /** `pb_encode_submessage`: a sizing pass, the length, then a writing pass into a
        substream of just that size. */
    method EncodeSubmessage(fs: seq<Field>, m: seq<Slot>) returns (ok: bool)
      requires Valid() && FitsMessage(fs, m)
      modifies this
      ensures Valid() && (ok <==> Fit(sizing, old(emitted), PutLengthPrefixed(EncodeMessage(fs, m)), maxSize))
      ensures ok ==> emitted == old(emitted) + PutLengthPrefixed(EncodeMessage(fs, m))
      ensures !ok ==> error == StreamFull
      decreases m, 10
    {
      ghost var body := EncodeMessage(fs, m);
      ConcatAssoc(emitted, PutVarint(|body|), body);
      var substream := new OStream(true, 0);
      ok := substream.Encode(fs, m);
      assert [] + body == body;
      var size := substream.bytesWritten;
      ok := EncodeVarint(size);
      if !ok {
        return;
      }
      if sizing {
        Count(size, body);
        return;
      }
      if bytesWritten + size > maxSize {
        error := StreamFull;
        return false;
      }
      substream := new OStream(false, size);
      ok := substream.Encode(fs, m);
      // "submsg size changed" is never reported
      assert ok && substream.bytesWritten == size;
      buffer := buffer + substream.buffer;
      bytesWritten := bytesWritten + substream.bytesWritten;
      emitted := emitted + body;
    }

    /** `encode_array` for packable items: the size of the payload, then the items. */
    method EncodePacked(f: Field, items: seq<Value>) returns (ok: bool)
      requires Valid() && Packable(f.ltype) && forall v :: v in items ==> FitsValue(f.ltype, f.dataSize, v)
      modifies this
      ensures Valid()
      ensures var bs := Key(f.tag, WT_STRING) + PutLengthPrefixed(Packed(f.ltype, items));
              (ok <==> Fit(sizing, old(emitted), bs, maxSize)) && (ok ==> emitted == old(emitted) + bs)
      ensures !ok ==> error == StreamFull
    {
      ghost var blob := Packed(f.ltype, items);
      ConcatAssoc(emitted, Key(f.tag, WT_STRING), PutLengthPrefixed(blob));
      ConcatAssoc(emitted + Key(f.tag, WT_STRING), PutVarint(|blob|), blob);
      ok := EncodeVarint(8 * f.tag + WT_STRING);
      if !ok {
        return;
      }
      var size;
      if f.ltype.FIXED32? {
        PackedFixedSize(f.ltype, f.dataSize, items);
        size := 4 * |items|;
      } else if f.ltype.FIXED64? {
        PackedFixedSize(f.ltype, f.dataSize, items);
        size := 8 * |items|;
      } else {
        var sizestream := new OStream(true, 0);
        var counted := sizestream.EncodeItems(f, items);
        assert [] + blob == blob;
        size := sizestream.bytesWritten;
      }
      ok := EncodeVarint(size);
      if !ok {
        return;
      }
      if sizing {
        Count(size, blob);
      } else {
        ok := EncodeItems(f, items);
      }
    }

    method EncodeItems(f: Field, items: seq<Value>) returns (ok: bool)
      requires Valid() && Packable(f.ltype) && forall v :: v in items ==> FitsValue(f.ltype, f.dataSize, v)
      modifies this
      ensures Valid() && (ok <==> Fit(sizing, old(emitted), Packed(f.ltype, items), maxSize))
      ensures ok ==> emitted == old(emitted) + Packed(f.ltype, items)
      ensures !ok ==> error == StreamFull
    {
      for i := 0 to |items|
        invariant Valid() && emitted + Packed(f.ltype, items[i..]) == old(emitted) + Packed(f.ltype, items)
      {
        assert items[i..][0] == items[i] && items[i..][1..] == items[i + 1..];
        ConcatAssoc(emitted, Payload(f.ltype, items[i]), Packed(f.ltype, items[i + 1..]));
        ok := EncodeNumber(f.ltype, f.dataSize, items[i]);
        if !ok {
          return;
        }
      }
      ok := true;
    }

    /** `pb_encode_tag_for_field` and the field's encoder. */
    method EncodeTagged(f: Field, v: Value) returns (ok: bool)
      requires Valid() && FitsValue(f.ltype, f.dataSize, v)
      modifies this
      ensures Valid()
      ensures var bs := Key(f.tag, WireType(f.ltype)) + Payload(f.ltype, v);
              (ok <==> Fit(sizing, old(emitted), bs, maxSize)) && (ok ==> emitted == old(emitted) + bs)
      ensures !ok ==> error == StreamFull
      decreases v, 1
    {
      ConcatAssoc(emitted, Key(f.tag, WireType(f.ltype)), Payload(f.ltype, v));
      ok := EncodeVarint(8 * f.tag + WireType(f.ltype));
      if ok {
        ok := EncodeValue(f.ltype, f.dataSize, v);
      }
    }

    /** `encode_array` for the other items: each with its own key. */
    method EncodeUnpacked(f: Field, items: seq<Value>) returns (ok: bool)
      requires Valid() && forall v :: v in items ==> FitsValue(f.ltype, f.dataSize, v)
      modifies this
      ensures Valid() && (ok <==> Fit(sizing, old(emitted), Unpacked(f, items), maxSize))
      ensures ok ==> emitted == old(emitted) + Unpacked(f, items)
      ensures !ok ==> error == StreamFull
      decreases items
    {
      for i := 0 to |items|
        invariant Valid() && emitted + Unpacked(f, items[i..]) == old(emitted) + Unpacked(f, items)
      {
        assert items[i..][0] == items[i] && items[i..][1..] == items[i + 1..];
        ConcatAssoc(emitted, Key(f.tag, WireType(f.ltype)) + Payload(f.ltype, items[i]), Unpacked(f, items[i + 1..]));
        ok := EncodeTagged(f, items[i]);
        if !ok {
          return;
        }
      }
      ok := true;
    }

    /** `encode_field`. */
    method EncodeOne(f: Field, s: Slot) returns (ok: bool)
      requires Valid() && FitsSlot(f, s)
      modifies this
      ensures Valid() && (ok <==> Fit(sizing, old(emitted), EncodeField(f, s), maxSize))
      ensures ok ==> emitted == old(emitted) + EncodeField(f, s)
      ensures !ok ==> error == StreamFull
      decreases s
    {
      if !Present(f, s) {
        assert emitted + [] == emitted;
        ok := true;
      } else if s.Single? {
        ok := EncodeTagged(f, s.v);
      } else if Packable(f.ltype) {
        ok := EncodePacked(f, s.items);
      } else {
        ok := EncodeUnpacked(f, s.items);
      }
    }

    /** `pb_encode`: succeeds exactly when the stream has room, and then has passed the
        encoding on, or counted it. */
    method Encode(fs: seq<Field>, m: seq<Slot>) returns (ok: bool)
      requires Valid() && FitsMessage(fs, m)
      modifies this
      ensures Valid() && (ok <==> Fit(sizing, old(emitted), EncodeMessage(fs, m), maxSize))
      ensures ok ==> emitted == old(emitted) + EncodeMessage(fs, m)
      ensures !ok ==> error == StreamFull
      decreases m, 5
    {
      for i := 0 to |fs|
        invariant Valid() && emitted + EncodeMessage(fs[i..], m[i..]) == old(emitted) + EncodeMessage(fs, m)
      {
        assert fs[i..][0] == fs[i] && fs[i..][1..] == fs[i + 1..] && m[i..][0] == m[i] && m[i..][1..] == m[i + 1..];
        ConcatAssoc(emitted, EncodeField(fs[i], m[i]), EncodeMessage(fs[i + 1..], m[i + 1..]));
        ok := EncodeOne(fs[i], m[i]);
        if !ok {
          return;
        }
      }
      ok := true;
    }
  }

  /** `pb_get_encoded_size`. */
  method GetEncodedSize(fs: seq<Field>, m: seq<Slot>) returns (size: nat)
    requires FitsMessage(fs, m)
    ensures size == |EncodeMessage(fs, m)|
  {
    var stream := new OStream(true, 0);
    var ok := stream.Encode(fs, m);
    size := stream.bytesWritten;
  }

  /** Encoding into a buffer: the bytes, or None if they do not fit. */
  method EncodeToBuffer(fs: seq<Field>, m: seq<Slot>, size: nat) returns (r: Option<Bytes>)
    requires FitsMessage(fs, m)
    ensures r == if |EncodeMessage(fs, m)| <= size then Some(EncodeMessage(fs, m)) else None
  {
    var stream := new OStream(false, size);
    var ok := stream.Encode(fs, m);
    assert [] + EncodeMessage(fs, m) == EncodeMessage(fs, m);
    r := if ok then Some(stream.buffer) else None;
  }
}
