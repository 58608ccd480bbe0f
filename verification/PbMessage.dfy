/** Messages and field tables of nanopb (pb.h), for static allocation without callbacks,
    extensions, oneofs and fixed-count arrays.  A message is a tree of values laid out by
    its field table, in place of a C struct addressed by offsets. */
module PbMessage {
  import opened Wrappers
  import opened Coding
  import opened PbWire

  datatype LType = VARINT | UVARINT | SVARINT | FIXED32 | FIXED64 | BYTES | STRING | FIXED_BYTES | SUBMESSAGE(fields: seq<Field>)

  /** SINGULAR is an optional field without a has_ flag (proto3). */
  datatype HType = REQUIRED | OPTIONAL | SINGULAR | REPEATED

  /** `pb_field_t`.  `dataSize` is the size of one item (for BYTES and STRING: how many bytes
      it can hold), `arraySize` the capacity of a repeated field, `init` the default. */
  datatype Field = Field(tag: nat, htype: HType, ltype: LType, dataSize: nat, arraySize: nat, init: Value)

  datatype Value = Number(n: int) | Octets(b: Bytes) | Struct(slots: seq<Slot>)

  /** The part of a struct that belongs to one field.  `has` is the has_ flag of an OPTIONAL
      field and true for others. */
  datatype Slot = Single(has: bool, v: Value) | Many(items: seq<Value>)

  predicate Packable(l: LType) {
    l.VARINT? || l.UVARINT? || l.SVARINT? || l.FIXED32? || l.FIXED64?
  }

  function WireType(l: LType): nat {
    match l
    case VARINT => WT_VARINT
    case UVARINT => WT_VARINT
    case SVARINT => WT_VARINT
    case FIXED32 => WT_32BIT
    case FIXED64 => WT_64BIT
    case _ => WT_STRING
  }

  // ------------------------------------------------------------------ what fits what

  /** A value that the C type of the field can hold. */
  ghost predicate FitsValue(l: LType, size: nat, v: Value)
    decreases v
  {
    match l
    case VARINT => v.Number? && FitsSigned(v.n, size)
    case UVARINT => v.Number? && FitsUnsigned(v.n, size)
    case SVARINT => v.Number? && FitsSigned(v.n, size)
    case FIXED32 => v.Number? && 0 <= v.n < TWO_32
    case FIXED64 => v.Number? && 0 <= v.n < TWO_64
    case BYTES => v.Octets? && |v.b| <= size
    case STRING => v.Octets? && |v.b| <= size && 0 !in v.b
    case FIXED_BYTES => v.Octets? && |v.b| == size
    case SUBMESSAGE(fields) => v.Struct? && FitsMessage(fields, v.slots)
  }

  ghost predicate FitsSlot(f: Field, s: Slot)
    decreases s
  {
    if f.htype.REPEATED? then s.Many? && |s.items| <= f.arraySize && forall v :: v in s.items ==> FitsValue(f.ltype, f.dataSize, v)
    else s.Single? && (f.htype.OPTIONAL? || s.has) && FitsValue(f.ltype, f.dataSize, s.v)
  }

  ghost predicate FitsMessage(fs: seq<Field>, m: seq<Slot>)
    decreases m
  {
    |m| == |fs| && forall i :: 0 <= i < |m| ==> FitsSlot(fs[i], m[i])
  }

  /** A table as the generator makes it: distinct tags of at most 29 bits; a field without
      has_ flag starts as zero. */
  ghost predicate TableOk(fs: seq<Field>)
    decreases fs
  {
    && (forall i, j :: 0 <= i < j < |fs| ==> fs[i].tag != fs[j].tag)
    && (forall i :: 0 <= i < |fs| ==> FieldOk(fs[i]))
  }

  ghost predicate FieldOk(f: Field)
    decreases f
  {
    && 0 < f.tag < 0x2000_0000
    && (f.htype.SINGULAR? && !f.ltype.SUBMESSAGE? ==> f.init == Zero(f.ltype, f.dataSize))
    && (f.ltype.SUBMESSAGE? ==> TableOk(f.ltype.fields))
  }

  function Zeros(n: nat): (r: Bytes)
    ensures |r| == n
  {
    if n == 0 then [] else [0] + Zeros(n - 1)
  }

  function Zero(l: LType, size: nat): Value {
    match l
    case BYTES => Octets([])
    case STRING => Octets([])
    case FIXED_BYTES => Octets(Zeros(size))
    case SUBMESSAGE(_) => Struct([])
    case _ => Number(0)
  }

  // ----------------------------------------------------------------------- defaults

  /** `pb_field_set_to_default`. */
  function DefaultSlot(f: Field): Slot
    decreases f, 1
  {
    if f.htype.REPEATED? then Many([]) else Single(!f.htype.OPTIONAL?, DefaultValue(f))
  }

  function DefaultValue(f: Field): Value
    decreases f, 0
  {
    match f.ltype
    case SUBMESSAGE(fields) => Struct(DefaultMessage(fields))
    case _ => f.init
  }

  /** `pb_message_set_to_defaults`. */
  function DefaultMessage(fs: seq<Field>): (m: seq<Slot>)
    ensures |m| == |fs|
    decreases fs
  {
    if fs == [] then [] else [DefaultSlot(fs[0])] + DefaultMessage(fs[1..])
  }

  // ----------------------------------------------------------------------- encoding

  /** `pb_check_proto3_default_value` on the slot of a field. */
  predicate IsZero(f: Field, s: Slot)
    decreases s
  {
    match s
    case Many(items) => items == []
    case Single(has, v) =>
      if f.htype.OPTIONAL? then !has
      else if !f.htype.SINGULAR? then false
      else
        match (f.ltype, v)
        case (SUBMESSAGE(fields), Struct(slots)) => AllZero(fields, slots)
        case (FIXED_BYTES, _) => f.dataSize == 0
        case (_, Octets(b)) => b == []
        case (_, Number(n)) => n == 0
        case _ => false
  }

  predicate AllZero(fs: seq<Field>, m: seq<Slot>)
    decreases m
  {
    if fs == [] || m == [] then true else IsZero(fs[0], m[0]) && AllZero(fs[1..], m[1..])
  }

  /** The field is written at all. */
  predicate Present(f: Field, s: Slot) {
    f.htype.REQUIRED? || !IsZero(f, s)
  }

  /** What the field encoders write after the key. */
  function Payload(l: LType, v: Value): Bytes
    decreases v
  {
    match (l, v)
    case (VARINT, Number(n)) => PutVarint(if Unsigned64(n) >= 0 then Unsigned64(n) else 0)
    case (UVARINT, Number(n)) => PutVarint(if n >= 0 then n else 0)
    case (SVARINT, Number(n)) => PutVarint(ZigZag(n))
    case (FIXED32, Number(n)) => EncodeFixed(if n >= 0 then n else 0, 4)
    case (FIXED64, Number(n)) => EncodeFixed(if n >= 0 then n else 0, 8)
    case (SUBMESSAGE(fields), Struct(slots)) => PutLengthPrefixed(EncodeMessage(fields, slots))
    case (_, Octets(b)) => PutLengthPrefixed(b)
    case _ => []
  }

  /** The items of a packed array. */
  function Packed(l: LType, items: seq<Value>): Bytes
    decreases items
  {
    if items == [] then [] else Payload(l, items[0]) + Packed(l, items[1..])
  }

  /** The items of an array that cannot be packed. */
  function Unpacked(f: Field, items: seq<Value>): Bytes
    decreases items
  {
    if items == [] then [] else (Key(f.tag, WireType(f.ltype)) + Payload(f.ltype, items[0])) + Unpacked(f, items[1..])
  }

  /** `encode_field`. */
  function EncodeField(f: Field, s: Slot): Bytes
    decreases s
  {
    if !Present(f, s) then []
    else
      match s
      case Single(_, v) => Key(f.tag, WireType(f.ltype)) + Payload(f.ltype, v)
      case Many(items) =>
        if Packable(f.ltype) then Key(f.tag, WT_STRING) + PutLengthPrefixed(Packed(f.ltype, items)) else Unpacked(f, items)
  }

  /** `pb_encode`. */
  function EncodeMessage(fs: seq<Field>, m: seq<Slot>): Bytes
    decreases m
  {
    if fs == [] || m == [] then [] else EncodeField(fs[0], m[0]) + EncodeMessage(fs[1..], m[1..])
  }

  // ---------------------------------------------------------- what decoding restores

  /** An absent field comes back with its default. */
  function RestoredSlot(f: Field, s: Slot): Slot
    decreases s
  {
    match s
    case Many(items) => Many(RestoredItems(f.ltype, items))
    case Single(has, v) => if Present(f, s) then Single(true, Restored(f.ltype, v)) else DefaultSlot(f)
  }

  function Restored(l: LType, v: Value): Value
    decreases v
  {
    match (l, v)
    case (SUBMESSAGE(fields), Struct(slots)) => Struct(RestoredMessage(fields, slots))
    case _ => v
  }

  function RestoredItems(l: LType, items: seq<Value>): (r: seq<Value>)
    ensures |r| == |items|
    decreases items
  {
    if items == [] then [] else [Restored(l, items[0])] + RestoredItems(l, items[1..])
  }

  function RestoredMessage(fs: seq<Field>, m: seq<Slot>): (r: seq<Slot>)
    ensures |fs| == |m| ==> |r| == |m|
    decreases m
  {
    if fs == [] || m == [] then [] else [RestoredSlot(fs[0], m[0])] + RestoredMessage(fs[1..], m[1..])
  }

  // ----------------------------------------------------------------------- decoding

  /** `pb_field_iter_find`: the field with this tag, or |fs|. */
  function Find(fs: seq<Field>, tag: nat): (i: nat)
    ensures i <= |fs| && (i < |fs| ==> fs[i].tag == tag)
    ensures forall j :: 0 <= j < i ==> fs[j].tag != tag
  {
    if fs == [] then 0
    else if fs[0].tag == tag then 0
    else var r := 1 + Find(fs[1..], tag); assert forall j :: 0 < j < r ==> fs[j] == fs[1..][j - 1]; r
  }

  /** How many required fields come before field `i`. */
  function RequiredBefore(fs: seq<Field>, i: nat): nat
    requires i <= |fs|
  {
    if i == 0 then 0 else RequiredBefore(fs, i - 1) + if fs[i - 1].htype.REQUIRED? then 1 else 0
  }

  const MAX_REQUIRED_FIELDS := 64

  /** The struct being filled, and which required fields have been seen (by their index
      among the required fields, below MAX_REQUIRED_FIELDS). */
  datatype Progress = Progress(slots: seq<Slot>, seen: set<nat>)

  function Noted(fs: seq<Field>, i: nat, seen: set<nat>): set<nat>
    requires i < |fs|
  {
    if fs[i].htype.REQUIRED? && RequiredBefore(fs, i) < MAX_REQUIRED_FIELDS then seen + {RequiredBefore(fs, i)} else seen
  }

  /** The bits that must be set at the end. */
  function AllRequired(fs: seq<Field>): nat {
    var n := RequiredBefore(fs, |fs|);
    if n > MAX_REQUIRED_FIELDS then MAX_REQUIRED_FIELDS else n
  }

  predicate NoneMissing(fs: seq<Field>, seen: set<nat>) {
    forall i :: 0 <= i < AllRequired(fs) ==> i in seen
  }

  /** `pb_decode_noinit` on a struct that holds `slots`; None stands for failure. */
  function DecodeNoInit(fs: seq<Field>, input: Bytes, slots: seq<Slot>): (r: Option<seq<Slot>>)
    requires |slots| == |fs|
    ensures r.Some? ==> |r.value| == |fs|
    decreases |input|, 3
  {
    match DecodeFields(fs, input, Progress(slots, {}))
    case None => None
    case Some(p) => if NoneMissing(fs, p.seen) then Some(p.slots) else None
  }

  /** Its loop over the fields on the wire. */
  function DecodeFields(fs: seq<Field>, input: Bytes, p: Progress): (r: Option<Progress>)
    requires |p.slots| == |fs|
    ensures r.Some? ==> |r.value.slots| == |fs|
    decreases |input|, 2
  {
    if input == [] then Some(p)
    else
      match ReadTag(input)
      case Bad => None
      case Eof => Some(p)
      case Tag(wireType, tag, rest) =>
        var i := Find(fs, tag);
        if fs == [] && tag == 0 then None    // taken for the end marker of the table
        else if i == |fs| then
          match SkipField(wireType, rest)
          case None => None
          case Some(later) => DecodeFields(fs, later, p)
        else
          match DecodeField(fs[i], wireType, p.slots[i], rest)
          case None => None
          case Some((slot, later)) => DecodeFields(fs, later, Progress(p.slots[i := slot], Noted(fs, i, p.seen)))
  }

  /** `decode_static_field`. */
  function DecodeField(f: Field, wireType: nat, s: Slot, input: Bytes): (r: Option<(Slot, Bytes)>)
    ensures r.Some? ==> |r.value.1| <= |input|
    decreases |input|, 5
  {
    match s
    case Single(_, v) =>
      (match DecodeValue(f, v, false, input)
       case None => None
       case Some((v', rest)) => Some((Single(true, v'), rest)))
    case Many(items) =>
      if wireType == WT_STRING && Packable(f.ltype) then
        match GetBlob(input)
        case None => None
        case Some((blob, rest)) =>
          (match DecodePacked(f, blob, items)
           case None => None
           case Some(items') => Some((Many(items'), rest)))
      else if |items| >= f.arraySize then None
      else
        match DecodeValue(f, DefaultValue(f), true, input)
        case None => None
        case Some((v, rest)) => Some((Many(items + [v]), rest))
  }

  /** The loop over a packed array. */
  function DecodePacked(f: Field, blob: Bytes, items: seq<Value>): Option<seq<Value>>
    decreases |blob|, 5
  {
    if blob == [] then Some(items)
    else if |items| >= f.arraySize then None
    else
      match DecodeValue(f, DefaultValue(f), true, blob)
      case None => None
      case Some((v, rest)) => if |rest| < |blob| then DecodePacked(f, rest, items + [v]) else None
  }

  /** The field decoders.  A submessage is decoded into `old`, or into a fresh struct. */
  function DecodeValue(f: Field, old_: Value, fresh_: bool, input: Bytes): (r: Option<(Value, Bytes)>)
    ensures r.Some? ==> |r.value.1| <= |input|
    decreases |input|, 4
  {
    match f.ltype
    case SUBMESSAGE(fields) =>
      (match GetBlob(input)
       case None => None
       case Some((blob, rest)) =>
         var slots := if fresh_ then DefaultMessage(fields) else if old_.Struct? then old_.slots else [];
         if |slots| != |fields| then None
         else
           match DecodeNoInit(fields, blob, slots)
           case None => None
           case Some(slots') => Some((Struct(slots'), rest)))
    case _ => DecodeScalar(f, input)
  }

  function DecodeScalar(f: Field, input: Bytes): (r: Option<(Value, Bytes)>)
    ensures r.Some? ==> |r.value.1| <= |input|
  {
    match f.ltype
    case VARINT =>
      (match GetUInt64(input)
       case None => None
       case Some((u, rest)) =>
         var n := if f.dataSize == 8 then Signed64(u) else Signed32(u);
         if FitsSigned(n, f.dataSize) then Some((Number(n), rest)) else None)
    case UVARINT =>
      (match GetUInt64(input)
       case None => None
       case Some((u, rest)) => if FitsUnsigned(u, f.dataSize) then Some((Number(u), rest)) else None)
    case SVARINT =>
      (match GetUInt64(input)
       case None => None
       case Some((u, rest)) => if FitsSigned(UnZigZag(u), f.dataSize) then Some((Number(UnZigZag(u)), rest)) else None)
    case FIXED32 => (match GetFixed(input, 4) case None => None case Some((u, rest)) => Some((Number(u), rest)))
    case FIXED64 => (match GetFixed(input, 8) case None => None case Some((u, rest)) => Some((Number(u), rest)))
    case FIXED_BYTES =>
      (match GetBlob(input)
       case None => None
       case Some((b, rest)) =>
         if b == [] then Some((Octets(Zeros(f.dataSize)), rest)) else if |b| == f.dataSize then Some((Octets(b), rest)) else None)
    case SUBMESSAGE(_) => None
    case _ => (match GetBlob(input) case None => None case Some((b, rest)) => if |b| <= f.dataSize then Some((Octets(b), rest)) else None)
  }

  /** `pb_decode`. */
  function Decode(fs: seq<Field>, input: Bytes): Option<seq<Slot>> {
    DecodeNoInit(fs, input, DefaultMessage(fs))
  }
}
