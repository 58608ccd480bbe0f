/** The nanopb decoder (pb_decode.c) with its field iterator (pb_common.c). */
module PbDecode {
  import opened Wrappers
  import opened Coding
  import opened PbWire
  import opened PbMessage

  /** `pb_decode_varint32_eof`, byte by byte. */
  method DecodeVarint32(stream: Bytes) returns (r: Option<(nat, Bytes)>)
    ensures r == GetUInt32(stream)
  {
    hide Overflows, Take7, NextPos;
    if stream == [] {
      return None;
    }
    var byte, rest := stream[0], stream[1..];
    if byte < 128 {
      return Some((byte, rest));
    }
    var result: nat, bitpos: nat := byte - 128, 7;
    while byte >= 128
      invariant if byte >= 128 then UInt32Loop(stream[1..], stream[0] - 128, 7) == UInt32Loop(rest, result, bitpos)
                else UInt32Loop(stream[1..], stream[0] - 128, 7) == if bitpos == 35 && byte >= 16 then None else Some((result, rest))
      decreases |rest|, byte
    {
      if rest == [] {
        return None;
      }
      byte, rest := rest[0], rest[1..];
      if Overflows(byte, result, bitpos) {
        return None;
      }
      result, bitpos := Take7(byte, result, bitpos), NextPos(bitpos);
    }
    if bitpos == 35 && byte >= 16 {
      return None;
    }
    r := Some((result, rest));
  }

  /** `pb_field_iter_t`: a position in a field table that wraps around, and the number of
      required fields before it. */
  class FieldIter {
    const fields: seq<Field>
    var pos: nat
    var requiredFieldIndex: nat

    ghost predicate Valid()
      reads this
    {
      if fields == [] then pos == 0 && requiredFieldIndex == 0
      else pos < |fields| && requiredFieldIndex == RequiredBefore(fields, pos)
    }

    constructor (fields: seq<Field>)
      ensures Valid() && this.fields == fields && pos == 0
    {
      this.fields := fields;
      pos, requiredFieldIndex := 0, 0;
    }

    /** `pb_field_iter_next`: false when it wrapped back to the beginning. */
    method Next() returns (more: bool)
      requires Valid()
      modifies this
      ensures Valid()
      ensures more <==> old(pos) + 1 < |fields|
      ensures pos == if more then old(pos) + 1 else 0
    {
      if fields == [] {
        return false;
      }
      var prev := fields[pos];
      pos := pos + 1;
      if pos == |fields| {
        pos, requiredFieldIndex := 0, 0;
        return false;
      }
      if prev.htype.REQUIRED? {
        requiredFieldIndex := requiredFieldIndex + 1;
      }
      more := true;
    }

    /** `pb_field_iter_find`: searches from the current position all the way around. */
    method Find(tag: nat) returns (found: bool)
      requires Valid() && fields != []
      modifies this
      ensures Valid()
      ensures found ==> fields[pos].tag == tag
      ensures !found ==> pos == old(pos) && forall i :: 0 <= i < |fields| ==> fields[i].tag != tag
    {
      var start := pos;
      var first := true;
      while first || pos != start
        invariant Valid() && start == old(pos) < |fields|
        invariant first ==> pos == start
        invariant !first && start < pos ==> forall i :: start <= i < pos ==> fields[i].tag != tag
        invariant !first && pos <= start ==> forall i :: start <= i < |fields| || 0 <= i < pos ==> fields[i].tag != tag
        decreases first, if pos > start then |fields| - pos + start else start - pos
      {
        if fields[pos].tag == tag {
          return true;
        }
        var more := Next();
        first := false;
      }
      found := false;
    }

    /** Seeks to the end of the table, counting the required fields on the way. */
    method CountRequired() returns (n: nat)
      requires Valid()
      modifies this
      ensures Valid() && n == RequiredBefore(fields, |fields|)
    {
      if fields == [] {
        return 0;
      }
      n := requiredFieldIndex;
      var last := fields[pos].htype;
      var more := Next();
      while more
        invariant Valid() && (more ==> n == RequiredBefore(fields, pos - 1) && pos > 0 && last == fields[pos - 1].htype)
        invariant !more ==> n == RequiredBefore(fields, |fields| - 1) && last == fields[|fields| - 1].htype
        decreases more, |fields| - pos
      {
        n := requiredFieldIndex;
        last := fields[pos].htype;
        more := Next();
      }
      // The last field of the table counts too
      if last.REQUIRED? {
        n := n + 1;
      }
    }
  }

  /** The bit set agrees with the required fields seen. */
  ghost predicate Marks(bits: seq<bool>, seen: set<nat>) {
    |bits| == MAX_REQUIRED_FIELDS && forall i :: 0 <= i < |bits| ==> (bits[i] <==> i in seen)
  }

  lemma FoundIsFind(fs: seq<Field>, i: nat)
    requires TableOk(fs) && i < |fs|
    ensures Find(fs, fs[i].tag) == i
  {
    assert forall j :: 0 <= j < i ==> fs[j].tag != fs[i].tag;
  }

  /** `pb_decode_noinit`. */
  method DecodeMessage(fs: seq<Field>, input: Bytes, slots: seq<Slot>) returns (r: Option<seq<Slot>>)
    requires TableOk(fs) && |slots| == |fs|
    ensures r == DecodeNoInit(fs, input, slots)
    decreases |input|, 3
  {
    hide DecodeField, ReadTag, SkipField, FieldOk;
    var iter := new FieldIter(fs);
    var fieldsSeen := seq(MAX_REQUIRED_FIELDS, _ => false);
    var dest, stream := slots, input;
    ghost var seen: set<nat> := {};
    ghost var all := DecodeFields(fs, input, Progress(slots, {}));
    while stream != []
      invariant iter.Valid() && iter.fields == fs && fresh(iter)
      invariant |dest| == |fs| && Marks(fieldsSeen, seen)
      invariant |stream| <= |input| && DecodeFields(fs, stream, Progress(dest, seen)) == all
      decreases |stream|
    {
      var t := ReadTag(stream);
      if t.Bad? {
        return None;
      }
      if t.Eof? {
        break;
      }
      if fs == [] && t.tag == 0 {
        // The end marker of an empty table is not a field
        return None;
      }
      var found := false;
      if fs != [] {
        found := iter.Find(t.tag);
      }
      if !found {
        // An unknown field
        assert Find(fs, t.tag) == |fs|;
        var rest := SkipField(t.wireType, t.rest);
        if rest.None? {
          return None;
        }
        stream := rest.value;
      } else {
        var i := iter.pos;
        FoundIsFind(fs, i);
        assert FieldOk(fs[i]);
        if fs[i].htype.REQUIRED? && iter.requiredFieldIndex < MAX_REQUIRED_FIELDS {
          fieldsSeen := fieldsSeen[iter.requiredFieldIndex := true];
        }
        seen := Noted(fs, i, seen);
        var field := DecodeStaticField(fs[i], t.wireType, dest[i], t.rest);
        if field.None? {
          return None;
        }
        dest, stream := dest[i := field.value.0], field.value.1;
      }
    }
    assert all == Some(Progress(dest, seen));
    // Every required field must have been seen
    var required := iter.CountRequired();
    if required > MAX_REQUIRED_FIELDS {
      required := MAX_REQUIRED_FIELDS;
    }
    for i := 0 to required
      invariant forall j :: 0 <= j < i ==> j in seen
    {
      if !fieldsSeen[i] {
        return None;
      }
    }
    r := Some(dest);
  }

  /** `decode_static_field`. */
  method DecodeStaticField(f: Field, wireType: nat, s: Slot, input: Bytes) returns (r: Option<(Slot, Bytes)>)
    requires FieldOk(f)
    ensures r == DecodeField(f, wireType, s, input)
    decreases |input|, 5
  {
    if s.Single? {
      var v := DecodeInto(f, s.v, false, input);
      return if v.None? then None else Some((Single(true, v.value.0), v.value.1));
    }
    if wireType == WT_STRING && Packable(f.ltype) {
      // Packed array
      var sub := GetBlob(input);
      if sub.None? {
        return None;
      }
      var substream, items := sub.value.0, s.items;
      while substream != [] && |items| < f.arraySize
        invariant |substream| <= |sub.value.0| && DecodePacked(f, substream, items) == DecodePacked(f, sub.value.0, s.items)
        decreases |substream|
      {
        var v := DecodeInto(f, DefaultValue(f), true, substream);
        if v.None? || |v.value.1| == |substream| {
          return None;
        }
        items, substream := items + [v.value.0], v.value.1;
      }
      if substream != [] {
        // array overflow
        return None;
      }
      return Some((Many(items), sub.value.1));
    }
    // Repeated field
    if |s.items| >= f.arraySize {
      return None;
    }
    var v := DecodeInto(f, DefaultValue(f), true, input);
    r := if v.None? then None else Some((Many(s.items + [v.value.0]), v.value.1));
  }

  /** The field decoders. */
  method DecodeInto(f: Field, old_: Value, fresh_: bool, input: Bytes) returns (r: Option<(Value, Bytes)>)
    requires FieldOk(f)
    ensures r == DecodeValue(f, old_, fresh_, input)
    decreases |input|, 4
  {
    if !f.ltype.SUBMESSAGE? {
      return DecodeScalar(f, input);
    }
    var sub := GetBlob(input);
    if sub.None? {
      return None;
    }
    var slots := if fresh_ then DefaultMessage(f.ltype.fields) else if old_.Struct? then old_.slots else [];
    if |slots| != |f.ltype.fields| {
      return None;
    }
    var m := DecodeMessage(f.ltype.fields, sub.value.0, slots);
    r := if m.None? then None else Some((Struct(m.value), sub.value.1));
  }
}
