/** Version edits as MANIFEST records (db/version_edit.cc). */
module VersionEdit {
  import opened Wrappers
  import opened Coding
  import DbFormat

  /** `FileMetaData`: the bounds are encoded internal keys. */
  datatype Meta = Meta(number: nat, size: nat, smallest: Bytes, largest: Bytes)

  datatype Edit = Edit(
    comparator: Option<Bytes>, logNumber: Option<nat>, prevLogNumber: Option<nat>,
    nextFileNumber: Option<nat>, lastSequence: Option<nat>,
    compactPointers: seq<(nat, Bytes)>, deleted: set<(nat, nat)>, newFiles: seq<(nat, Meta)>)

  /** An edit on which nothing has been set. */
  const EMPTY := Edit(None, None, None, None, None, [], {}, [])

  /** One tagged field of a record. */
  datatype Field =
    | Comparator(name: Bytes)
    | LogNumber(n: nat)
    | NextFileNumber(n: nat)
    | LastSequence(n: nat)
    | CompactPointer(level: nat, key: Bytes)
    | DeletedFile(level: nat, number: nat)
    | NewFile(level: nat, meta: Meta)
    | PrevLogNumber(n: nat)
  {
    predicate Encodable() {
      match this
      case Comparator(name) => |name| < TWO_32
      case LogNumber(n) => n < TWO_64
      case NextFileNumber(n) => n < TWO_64
      case LastSequence(n) => n < TWO_64
      case CompactPointer(level, key) => level < DbFormat.NUM_LEVELS && |key| < TWO_32
      case DeletedFile(level, number) => level < DbFormat.NUM_LEVELS && number < TWO_64
      case NewFile(level, f) =>
        level < DbFormat.NUM_LEVELS && f.number < TWO_64 && f.size < TWO_64 && |f.smallest| < TWO_32 && |f.largest| < TWO_32
      case PrevLogNumber(n) => n < TWO_64
    }
  }

  function EncodeMeta(f: Meta): Bytes {
    PutVarint(f.number) + (PutVarint(f.size) + (PutLengthPrefixed(f.smallest) + PutLengthPrefixed(f.largest)))
  }

  function Body(field: Field): Bytes {
    match field
    case Comparator(name) => PutLengthPrefixed(name)
    case LogNumber(n) => PutVarint(n)
    case NextFileNumber(n) => PutVarint(n)
    case LastSequence(n) => PutVarint(n)
    case CompactPointer(level, key) => PutVarint(level) + PutLengthPrefixed(key)
    case DeletedFile(level, number) => PutVarint(level) + PutVarint(number)
    case NewFile(level, f) => PutVarint(level) + EncodeMeta(f)
    case PrevLogNumber(n) => PutVarint(n)
  }

  function Tag(field: Field): (t: nat)
    ensures 1 <= t <= 9
  {
    match field
    case Comparator(_) => 1
    case LogNumber(_) => 2
    case NextFileNumber(_) => 3
    case LastSequence(_) => 4
    case CompactPointer(_, _) => 5
    case DeletedFile(_, _) => 6
    case NewFile(_, _) => 7
    case PrevLogNumber(_) => 9
  }

  function EncodeField(field: Field): Bytes {
    PutVarint(Tag(field)) + Body(field)
  }

  // --------------------------------------------------------------------- decoding

  /** GetLevel. */
  function GetLevel(input: Bytes): Option<(nat, Bytes)> {
    match GetVarint32(input)
    case None => None
    case Some((v, rest)) => if v < DbFormat.NUM_LEVELS then Some((v, rest)) else None
  }

  function GetMeta(input: Bytes): Option<(Meta, Bytes)> {
    match GetVarint64(input)
    case None => None
    case Some((number, r1)) =>
      match GetVarint64(r1)
      case None => None
      case Some((size, r2)) =>
        match GetLengthPrefixed(r2)
        case None => None
        case Some((smallest, r3)) =>
          match GetLengthPrefixed(r3)
          case None => None
          case Some((largest, r4)) => Some((Meta(number, size, smallest, largest), r4))
  }

  /** A field whose tag has been read. */
  function ParseBody(tag: nat, input: Bytes): Option<(Field, Bytes)> {
    if tag == 1 then (match GetLengthPrefixed(input) case None => None case Some((name, r)) => Some((Comparator(name), r)))
    else if tag == 2 then (match GetVarint64(input) case None => None case Some((n, r)) => Some((LogNumber(n), r)))
    else if tag == 9 then (match GetVarint64(input) case None => None case Some((n, r)) => Some((PrevLogNumber(n), r)))
    else if tag == 3 then (match GetVarint64(input) case None => None case Some((n, r)) => Some((NextFileNumber(n), r)))
    else if tag == 4 then (match GetVarint64(input) case None => None case Some((n, r)) => Some((LastSequence(n), r)))
    else if tag == 5 || tag == 6 || tag == 7 then
      (match GetLevel(input) case None => None case Some((level, r)) => ParseAtLevel(tag, level, r))
    else None
  }

  function ParseAtLevel(tag: nat, level: nat, input: Bytes): Option<(Field, Bytes)> {
    if tag == 5 then (match GetLengthPrefixed(input) case None => None case Some((key, r)) => Some((CompactPointer(level, key), r)))
    else if tag == 6 then (match GetVarint64(input) case None => None case Some((n, r)) => Some((DeletedFile(level, n), r)))
    else (match GetMeta(input) case None => None case Some((f, r)) => Some((NewFile(level, f), r)))
  }

  /** One round of the loop in DecodeFrom. */
  function ParseField(input: Bytes): Option<(Field, Bytes)> {
    match GetVarint32(input)
    case None => None
    case Some((tag, rest)) => ParseBody(tag, rest)
  }

  lemma MetaRoundTrip(f: Meta, rest: Bytes)
    requires f.number < TWO_64 && f.size < TWO_64 && |f.smallest| < TWO_32 && |f.largest| < TWO_32
    ensures GetMeta(EncodeMeta(f) + rest) == Some((f, rest))
  {
    var n, z, s, l := PutVarint(f.number), PutVarint(f.size), PutLengthPrefixed(f.smallest), PutLengthPrefixed(f.largest);
    ConcatAssoc(n, z + (s + l), rest);
    ConcatAssoc(z, s + l, rest);
    ConcatAssoc(s, l, rest);
    Varint64RoundTrip(f.number, z + (s + (l + rest)));
    Varint64RoundTrip(f.size, s + (l + rest));
    LengthPrefixedRoundTrip(f.smallest, l + rest);
    LengthPrefixedRoundTrip(f.largest, rest);
  }

  lemma LevelRoundTrip(level: nat, rest: Bytes)
    requires level < DbFormat.NUM_LEVELS
    ensures GetLevel(PutVarint(level) + rest) == Some((level, rest))
  {
    Varint32RoundTrip(level, rest);
  }

  lemma BodyRoundTrip(field: Field, rest: Bytes)
    requires field.Encodable()
    ensures ParseBody(Tag(field), Body(field) + rest) == Some((field, rest))
  {
    match field
    case Comparator(name) => LengthPrefixedRoundTrip(name, rest);
    case LogNumber(n) => Varint64RoundTrip(n, rest);
    case NextFileNumber(n) => Varint64RoundTrip(n, rest);
    case LastSequence(n) => Varint64RoundTrip(n, rest);
    case PrevLogNumber(n) => Varint64RoundTrip(n, rest);
    case CompactPointer(level, key) => PointerRoundTrip(level, key, rest);
    case DeletedFile(level, number) => DeletedRoundTrip(level, number, rest);
    case NewFile(level, f) =>
      MetaRoundTrip(f, rest);
      NewFileRoundTrip(level, f, EncodeMeta(f), rest);
  }

  lemma PointerRoundTrip(level: nat, key: Bytes, rest: Bytes)
    requires level < DbFormat.NUM_LEVELS && |key| < TWO_32
    ensures ParseBody(5, (PutVarint(level) + PutLengthPrefixed(key)) + rest) == Some((CompactPointer(level, key), rest))
  {
    ConcatAssoc(PutVarint(level), PutLengthPrefixed(key), rest);
    LevelRoundTrip(level, PutLengthPrefixed(key) + rest);
    LengthPrefixedRoundTrip(key, rest);
  }

  lemma DeletedRoundTrip(level: nat, number: nat, rest: Bytes)
    requires level < DbFormat.NUM_LEVELS && number < TWO_64
    ensures ParseBody(6, (PutVarint(level) + PutVarint(number)) + rest) == Some((DeletedFile(level, number), rest))
  {
    ConcatAssoc(PutVarint(level), PutVarint(number), rest);
    LevelRoundTrip(level, PutVarint(number) + rest);
    Varint64RoundTrip(number, rest);
  }

  lemma NewFileRoundTrip(level: nat, f: Meta, meta: Bytes, rest: Bytes)
    requires level < DbFormat.NUM_LEVELS && GetMeta(meta + rest) == Some((f, rest))
    ensures ParseBody(7, (PutVarint(level) + meta) + rest) == Some((NewFile(level, f), rest))
  {
    hide GetMeta, PutVarint, GetLevel;
    ConcatAssoc(PutVarint(level), meta, rest);
    LevelRoundTrip(level, meta + rest);
  }

  lemma FieldRoundTrip(field: Field, rest: Bytes)
    requires field.Encodable()
    ensures ReadsBack(EncodeField, ParseField, field, rest)
  {
    ConcatAssoc(PutVarint(Tag(field)), Body(field), rest);
    Varint32RoundTrip(Tag(field), Body(field) + rest);
    BodyRoundTrip(field, rest);
  }

  // -------------------------------------------------- what is accepted, exactly

  ghost predicate SpellsLevel(bs: Bytes, level: nat) {
    SpellsVarint32(bs, level) && level < 7
  }

  ghost predicate SpellsMeta(bs: Bytes, f: Meta) {
    exists n: Bytes, z: Bytes, s: Bytes, l: Bytes ::
      SpellsVarint64(n, f.number) && SpellsVarint64(z, f.size) && SpellsSlice(s, f.smallest) && SpellsSlice(l, f.largest)
      && bs == n + (z + (s + l))
  }

  /** The bytes behind the tag of a field. */
  ghost predicate SpellsBody(bs: Bytes, field: Field) {
    match field
    case Comparator(name) => SpellsSlice(bs, name)
    case CompactPointer(level, key) => exists a: Bytes, b: Bytes :: SpellsLevel(a, level) && SpellsSlice(b, key) && bs == a + b
    case DeletedFile(level, number) => exists a: Bytes, b: Bytes :: SpellsLevel(a, level) && SpellsVarint64(b, number) && bs == a + b
    case NewFile(level, f) => exists a: Bytes, b: Bytes :: SpellsLevel(a, level) && SpellsMeta(b, f) && bs == a + b
    case _ => SpellsVarint64(bs, field.n)
  }

  ghost predicate SpellsField(bs: Bytes, field: Field) {
    exists t: Bytes, b: Bytes :: SpellsVarint32(t, Tag(field)) && SpellsBody(b, field) && bs == t + b
  }

  lemma MetaIsSpelled(input: Bytes) returns (bs: Bytes)
    requires GetMeta(input).Some?
    ensures var (f, rest) := GetMeta(input).value; SpellsMeta(bs, f) && input == bs + rest
  {
    hide SpellsVarint64, SpellsSlice, GetVarint64, GetLengthPrefixed;
    var n := SpelledVarint64(input);
    var r1 := GetVarint64(input).value.1;
    var z := SpelledVarint64(r1);
    var r2 := GetVarint64(r1).value.1;
    var s := SpelledSlice(r2);
    var r3 := GetLengthPrefixed(r2).value.1;
    var l := SpelledSlice(r3);
    bs := n + (z + (s + l));
    FourParts(n, z, s, l, GetLengthPrefixed(r3).value.1);
  }

  lemma FourParts(a: Bytes, b: Bytes, c: Bytes, d: Bytes, rest: Bytes)
    ensures (a + (b + (c + d))) + rest == a + (b + (c + (d + rest)))
  {
  }

  lemma MetaIsRead(bs: Bytes, f: Meta, rest: Bytes)
    requires SpellsMeta(bs, f)
    ensures GetMeta(bs + rest) == Some((f, rest))
  {
    hide SpellsVarint64, SpellsSlice, GetVarint64, GetLengthPrefixed;
    var n: Bytes, z: Bytes, s: Bytes, l: Bytes :|
      SpellsVarint64(n, f.number) && SpellsVarint64(z, f.size) && SpellsSlice(s, f.smallest) && SpellsSlice(l, f.largest)
      && bs == n + (z + (s + l));
    FourParts(n, z, s, l, rest);
    Varint64IsRead(n, f.number, z + (s + (l + rest)));
    Varint64IsRead(z, f.size, s + (l + rest));
    SliceIsRead(s, f.smallest, l + rest);
    SliceIsRead(l, f.largest, rest);
  }

  lemma LevelIsRead(a: Bytes, level: nat, rest: Bytes)
    requires SpellsLevel(a, level)
    ensures GetLevel(a + rest) == Some((level, rest))
  {
    hide SpellsVarint32, GetVarint32;
    Varint32IsRead(a, level, rest);
  }

  lemma AtLevelIsSpelled(tag: nat, level: nat, input: Bytes) returns (b: Bytes)
    requires tag in {5, 6, 7} && ParseAtLevel(tag, level, input).Some?
    ensures var (field, rest) := ParseAtLevel(tag, level, input).value;
      && input == b + rest
      && match field
         case CompactPointer(l, key) => tag == 5 && l == level && SpellsSlice(b, key)
         case DeletedFile(l, number) => tag == 6 && l == level && SpellsVarint64(b, number)
         case NewFile(l, f) => tag == 7 && l == level && SpellsMeta(b, f)
         case _ => false
  {
    hide SpellsVarint64, SpellsSlice, SpellsMeta, GetVarint64, GetLengthPrefixed, GetMeta;
    if tag == 5 {
      b := SpelledSlice(input);
    } else if tag == 6 {
      b := SpelledVarint64(input);
    } else {
      b := MetaIsSpelled(input);
    }
  }

  lemma BodyIsSpelled(tag: nat, input: Bytes) returns (bs: Bytes)
    requires ParseBody(tag, input).Some?
    ensures var (field, rest) := ParseBody(tag, input).value; tag == Tag(field) && SpellsBody(bs, field) && input == bs + rest
  {
    hide SpellsVarint64, SpellsVarint32, SpellsSlice, SpellsMeta, GetVarint64, GetVarint32, GetLengthPrefixed, ParseAtLevel;
    if tag == 1 {
      bs := SpelledSlice(input);
    } else if tag in {2, 3, 4, 9} {
      bs := SpelledVarint64(input);
    } else {
      var (level, r) := GetLevel(input).value;
      var a := SpelledVarint32(input);
      var b := AtLevelIsSpelled(tag, level, r);
      bs := a + b;
      ConcatAssoc(a, b, ParseAtLevel(tag, level, r).value.1);
      assert SpellsLevel(a, level);
    }
  }

  lemma BodyIsRead(bs: Bytes, field: Field, rest: Bytes)
    requires SpellsBody(bs, field)
    ensures ParseBody(Tag(field), bs + rest) == Some((field, rest))
  {
    hide SpellsVarint64, SpellsLevel, SpellsSlice, SpellsMeta, GetVarint64, GetLevel, GetLengthPrefixed, GetMeta;
    match field
    case Comparator(name) => SliceIsRead(bs, name, rest);
    case CompactPointer(level, key) =>
      var a: Bytes, b: Bytes :| SpellsLevel(a, level) && SpellsSlice(b, key) && bs == a + b;
      ConcatAssoc(a, b, rest);
      LevelIsRead(a, level, b + rest);
      SliceIsRead(b, key, rest);
    case DeletedFile(level, number) =>
      var a: Bytes, b: Bytes :| SpellsLevel(a, level) && SpellsVarint64(b, number) && bs == a + b;
      ConcatAssoc(a, b, rest);
      LevelIsRead(a, level, b + rest);
      Varint64IsRead(b, number, rest);
    case NewFile(level, f) =>
      var a: Bytes, b: Bytes :| SpellsLevel(a, level) && SpellsMeta(b, f) && bs == a + b;
      ConcatAssoc(a, b, rest);
      LevelIsRead(a, level, b + rest);
      MetaIsRead(b, f, rest);
    case _ => Varint64IsRead(bs, field.n, rest);
  }

  /** A field is accepted if and only if its tag and its bytes stand at the front: an unknown tag
      or a level from 7 on is refused. */
  lemma ParseFieldExact(input: Bytes, field: Field, rest: Bytes)
    ensures ParseField(input) == Some((field, rest)) <==> exists bs :: SpellsField(bs, field) && input == bs + rest
  {
    hide ParseBody, SpellsBody, SpellsVarint32, GetVarint32, Tag;
    if ParseField(input) == Some((field, rest)) {
      var t := SpelledVarint32(input);
      var (tag, body) := GetVarint32(input).value;
      var b := BodyIsSpelled(tag, body);
      ConcatAssoc(t, b, rest);
      assert SpellsField(t + b, field);
    }
    if bs :| SpellsField(bs, field) && input == bs + rest {
      var t: Bytes, b: Bytes :| SpellsVarint32(t, Tag(field)) && SpellsBody(b, field) && bs == t + b;
      ConcatAssoc(t, b, rest);
      Varint32IsRead(t, Tag(field), b + rest);
      BodyIsRead(b, field, rest);
    }
  }

  lemma VarintConsumes(input: Bytes)
    ensures GetVarint32(input).Some? ==> |GetVarint32(input).value.1| < |input|
    ensures GetVarint64(input).Some? ==> |GetVarint64(input).value.1| < |input|
  {
    ReadVarintLength(input, 5);
    ReadVarintLength(input, 10);
  }

  lemma MetaConsumes(input: Bytes)
    ensures GetMeta(input).Some? ==> |GetMeta(input).value.1| <= |input|
  {
    VarintConsumes(input);
    match GetVarint64(input)
    case None =>
    case Some((_, r1)) =>
      VarintConsumes(r1);
      match GetVarint64(r1)
      case None =>
      case Some((_, r2)) =>
        VarintConsumes(r2);
        match GetLengthPrefixed(r2)
        case None =>
        case Some((_, r3)) => VarintConsumes(r3);
  }

  lemma ParserConsumes()
    ensures Consuming(ParseField)
  {
    forall input: Bytes | input != [] && ParseField(input).Some? ensures |ParseField(input).value.1| < |input| {
      VarintConsumes(input);
      var rest := GetVarint32(input).value.1;
      VarintConsumes(rest);
      match GetLevel(rest)
      case None =>
      case Some((_, r)) =>
        VarintConsumes(r);
        MetaConsumes(r);
    }
  }

  // ------------------------------------------------------------------ whole records

  /** What one field sets. */
  function Set(e: Edit, field: Field): Edit {
    match field
    case Comparator(name) => e.(comparator := Some(name))
    case LogNumber(n) => e.(logNumber := Some(n))
    case NextFileNumber(n) => e.(nextFileNumber := Some(n))
    case LastSequence(n) => e.(lastSequence := Some(n))
    case CompactPointer(level, key) => e.(compactPointers := e.compactPointers + [(level, key)])
    case DeletedFile(level, number) => e.(deleted := e.deleted + {(level, number)})
    case NewFile(level, f) => e.(newFiles := e.newFiles + [(level, f)])
    case PrevLogNumber(n) => e.(prevLogNumber := Some(n))
  }

  function SetAll(e: Edit, fields: seq<Field>): Edit
    decreases |fields|
  {
    if fields == [] then e else SetAll(Set(e, fields[0]), fields[1..])
  }

  lemma {:induction false} SetAllConcat(e: Edit, a: seq<Field>, b: seq<Field>)
    ensures SetAll(e, a + b) == SetAll(SetAll(e, a), b)
    decreases |a|
  {
    if a == [] {
      assert a + b == b;
    } else {
      assert (a + b)[1..] == a[1..] + b;
      SetAllConcat(Set(e, a[0]), a[1..], b);
    }
  }

  /** `DecodeFrom` on an edit that holds `start`, which is not cleared of its compaction
      pointers: the fields found, and whether the record was well formed. */
  ghost function Decode(start: Edit, record: Bytes): (Edit, bool) {
    ParserConsumes();
    var (fields, ok) := ParseAll(ParseField, record);
    (SetAll(EMPTY.(compactPointers := start.compactPointers), fields), ok)
  }

  /** The loop of DecodeFrom, for any field parser. */
  method DecodeFields(parse: Bytes -> Option<(Field, Bytes)>, start: Edit, record: Bytes) returns (e: Edit, ok: bool)
    requires Consuming(parse)
    ensures e == SetAll(start, ParseAll(parse, record).0) && ok == ParseAll(parse, record).1
  {
    e := start;
    var input := record;
    while input != []
      invariant SetAll(e, ParseAll(parse, input).0) == SetAll(start, ParseAll(parse, record).0)
      invariant ParseAll(parse, input).1 == ParseAll(parse, record).1
      decreases |input|
    {
      var r := parse(input);
      if r.None? {
        return e, false;
      }
      var (field, rest) := r.value;
      assert ParseAll(parse, input).0 == [field] + ParseAll(parse, rest).0;
      e := Set(e, field);
      input := rest;
    }
    ok := true;
  }

  method DecodeFrom(start: Edit, record: Bytes) returns (e: Edit, ok: bool)
    ensures (e, ok) == Decode(start, record)
  {
    ParserConsumes();
    e, ok := DecodeFields(ParseField, EMPTY.(compactPointers := start.compactPointers), record);
  }

  function Number(tag: nat, n: nat): Field {
    if tag == 2 then LogNumber(n) else if tag == 9 then PrevLogNumber(n) else if tag == 3 then NextFileNumber(n) else LastSequence(n)
  }

  /** A number is written if it was set. */
  function MaybeNumber(tag: nat, o: Option<nat>): seq<Field> {
    match o case None => [] case Some(n) => [Number(tag, n)]
  }

  function MaybeComparator(o: Option<Bytes>): seq<Field> {
    match o case None => [] case Some(name) => [Comparator(name)]
  }

  /** `deleted` in the order in which the set is listed. */
  ghost predicate Lists(listing: seq<(nat, nat)>, deleted: set<(nat, nat)>) {
    forall p :: p in listing <==> p in deleted
  }

  function PointerFields(ps: seq<(nat, Bytes)>): seq<Field> {
    seq(|ps|, i requires 0 <= i < |ps| => CompactPointer(ps[i].0, ps[i].1))
  }

  function DeletedFields(ps: seq<(nat, nat)>): seq<Field> {
    seq(|ps|, i requires 0 <= i < |ps| => DeletedFile(ps[i].0, ps[i].1))
  }

  function NewFileFields(ps: seq<(nat, Meta)>): seq<Field> {
    seq(|ps|, i requires 0 <= i < |ps| => NewFile(ps[i].0, ps[i].1))
  }

  function Scalars(e: Edit): seq<Field> {
    MaybeComparator(e.comparator) + NumberFields(e)
  }

  function NumberFields(e: Edit): seq<Field> {
    MaybeNumber(2, e.logNumber) + (MaybeNumber(9, e.prevLogNumber)
    + (MaybeNumber(3, e.nextFileNumber) + (MaybeNumber(4, e.lastSequence) + [])))
  }

  /** The fields EncodeTo writes, in its order. */
  function Fields(e: Edit, listing: seq<(nat, nat)>): seq<Field> {
    Scalars(e) + PointerFields(e.compactPointers) + DeletedFields(listing) + NewFileFields(e.newFiles)
  }

  function EncodeTo(e: Edit, listing: seq<(nat, nat)>): Bytes {
    Flat(EncodeField, Fields(e, listing))
  }

  ghost predicate Encodable(e: Edit) {
    && (e.comparator.Some? ==> |e.comparator.value| < TWO_32)
    && (e.logNumber.Some? ==> e.logNumber.value < TWO_64)
    && (e.prevLogNumber.Some? ==> e.prevLogNumber.value < TWO_64)
    && (e.nextFileNumber.Some? ==> e.nextFileNumber.value < TWO_64)
    && (e.lastSequence.Some? ==> e.lastSequence.value < TWO_64)
    && (forall p :: p in e.compactPointers ==> CompactPointer(p.0, p.1).Encodable())
    && (forall p :: p in e.deleted ==> DeletedFile(p.0, p.1).Encodable())
    && (forall p :: p in e.newFiles ==> NewFile(p.0, p.1).Encodable())
  }

  lemma {:induction false} SetPointers(e: Edit, ps: seq<(nat, Bytes)>)
    ensures SetAll(e, PointerFields(ps)) == e.(compactPointers := e.compactPointers + ps)
    decreases |ps|
  {
    if ps != [] {
      assert PointerFields(ps)[1..] == PointerFields(ps[1..]);
      SetPointers(Set(e, PointerFields(ps)[0]), ps[1..]);
      assert (e.compactPointers + [ps[0]]) + ps[1..] == e.compactPointers + ps;
    } else {
      assert e.compactPointers + ps == e.compactPointers;
    }
  }

  lemma {:induction false} SetDeleted(e: Edit, ps: seq<(nat, nat)>)
    ensures SetAll(e, DeletedFields(ps)) == e.(deleted := e.deleted + set p | p in ps)
    decreases |ps|
  {
    if ps != [] {
      assert DeletedFields(ps)[1..] == DeletedFields(ps[1..]);
      SetDeleted(Set(e, DeletedFields(ps)[0]), ps[1..]);
      assert e.deleted + {ps[0]} + (set p | p in ps[1..]) == e.deleted + set p | p in ps;
    } else {
      assert e.deleted + (set p | p in ps) == e.deleted;
    }
  }

  lemma {:induction false} SetNewFiles(e: Edit, ps: seq<(nat, Meta)>)
    ensures SetAll(e, NewFileFields(ps)) == e.(newFiles := e.newFiles + ps)
    decreases |ps|
  {
    if ps != [] {
      assert NewFileFields(ps)[1..] == NewFileFields(ps[1..]);
      SetNewFiles(Set(e, NewFileFields(ps)[0]), ps[1..]);
      assert (e.newFiles + [ps[0]]) + ps[1..] == e.newFiles + ps;
    } else {
      assert e.newFiles + ps == e.newFiles;
    }
  }

  /** Decoding an encoded edit into a fresh one gives the edit. */
  lemma EditRoundTrip(e: Edit, listing: seq<(nat, nat)>)
    requires Encodable(e) && Lists(listing, e.deleted)
    ensures Decode(EMPTY, EncodeTo(e, listing)) == (e, true)
  {
    var fields := Fields(e, listing);
    ParserConsumes();
    forall field, rest: Bytes | field in fields ensures ReadsBack(EncodeField, ParseField, field, rest) {
      FieldsEncodable(e, listing, field);
      FieldRoundTrip(field, rest);
    }
    ParseAllRoundTrip(EncodeField, ParseField, fields);
    FieldsRestore(e, listing);
  }

  lemma PointersEncodable(ps: seq<(nat, Bytes)>, field: Field)
    requires (forall p :: p in ps ==> CompactPointer(p.0, p.1).Encodable()) && field in PointerFields(ps)
    ensures field.Encodable()
  {
    var i :| 0 <= i < |ps| && field == PointerFields(ps)[i];
    assert ps[i] in ps;
  }

  lemma DeletedEncodable(ps: seq<(nat, nat)>, field: Field)
    requires (forall p :: p in ps ==> DeletedFile(p.0, p.1).Encodable()) && field in DeletedFields(ps)
    ensures field.Encodable()
  {
    var i :| 0 <= i < |ps| && field == DeletedFields(ps)[i];
    assert ps[i] in ps;
  }

  lemma NewFilesEncodable(ps: seq<(nat, Meta)>, field: Field)
    requires (forall p :: p in ps ==> NewFile(p.0, p.1).Encodable()) && field in NewFileFields(ps)
    ensures field.Encodable()
  {
    var i :| 0 <= i < |ps| && field == NewFileFields(ps)[i];
    assert ps[i] in ps;
  }

  lemma FieldsEncodable(e: Edit, listing: seq<(nat, nat)>, field: Field)
    requires Encodable(e) && Lists(listing, e.deleted) && field in Fields(e, listing)
    ensures field.Encodable()
  {
    if field in PointerFields(e.compactPointers) {
      PointersEncodable(e.compactPointers, field);
    } else if field in DeletedFields(listing) {
      DeletedEncodable(listing, field);
    } else if field in NewFileFields(e.newFiles) {
      NewFilesEncodable(e.newFiles, field);
    } else {
      assert field in Scalars(e);
      ScalarsEncodable(e, field);
    }
  }

  lemma ScalarsEncodable(e: Edit, field: Field)
    requires Encodable(e) && field in Scalars(e)
    ensures field.Encodable()
  {
    hide MaybeNumber, MaybeComparator, Encodable, Field.Encodable;
    if field in MaybeComparator(e.comparator) {
      ComparatorEncodable(e, field);
    } else {
      assert field in NumberFields(e);
      NumbersEncodable(e);
      NumberEncodable(2, e.logNumber, field);
      NumberEncodable(9, e.prevLogNumber, field);
      NumberEncodable(3, e.nextFileNumber, field);
      NumberEncodable(4, e.lastSequence, field);
    }
  }

  lemma ComparatorEncodable(e: Edit, field: Field)
    requires Encodable(e) && field in MaybeComparator(e.comparator)
    ensures field.Encodable()
  {
  }

  ghost predicate Small(o: Option<nat>) {
    o.Some? ==> o.value < TWO_64
  }

  lemma NumbersEncodable(e: Edit)
    requires Encodable(e)
    ensures Small(e.logNumber) && Small(e.prevLogNumber) && Small(e.nextFileNumber) && Small(e.lastSequence)
  {
  }

  lemma NumberEncodable(tag: nat, o: Option<nat>, field: Field)
    requires Small(o)
    ensures field in MaybeNumber(tag, o) ==> field.Encodable()
  {
  }

  lemma FieldsRestore(e: Edit, listing: seq<(nat, nat)>)
    requires Lists(listing, e.deleted)
    ensures SetAll(EMPTY, Fields(e, listing)) == e
  {
    var scalars := EMPTY.(comparator := e.comparator, logNumber := e.logNumber, prevLogNumber := e.prevLogNumber,
                          nextFileNumber := e.nextFileNumber, lastSequence := e.lastSequence);
    ScalarsRestore(e, scalars);
    var pointers := scalars.(compactPointers := e.compactPointers);
    SetPointers(scalars, e.compactPointers);
    assert [] + e.compactPointers == e.compactPointers;
    SetDeleted(pointers, listing);
    assert {} + (set p | p in listing) == e.deleted;
    SetNewFiles(pointers.(deleted := e.deleted), e.newFiles);
    assert [] + e.newFiles == e.newFiles;
    SetAllConcat(EMPTY, Scalars(e), PointerFields(e.compactPointers));
    SetAllConcat(EMPTY, Scalars(e) + PointerFields(e.compactPointers), DeletedFields(listing));
    SetAllConcat(EMPTY, Scalars(e) + PointerFields(e.compactPointers) + DeletedFields(listing), NewFileFields(e.newFiles));
  }

  function SetMaybe(e: Edit, tag: nat, o: Option<nat>): Edit {
    match o case None => e case Some(n) => Set(e, Number(tag, n))
  }

  lemma SetNumberFirst(e: Edit, tag: nat, o: Option<nat>, rest: seq<Field>)
    ensures SetAll(e, MaybeNumber(tag, o) + rest) == SetAll(SetMaybe(e, tag, o), rest)
  {
    if o.None? {
      assert [] + rest == rest;
    } else {
      assert ([Number(tag, o.value)] + rest)[1..] == rest;
    }
  }

  lemma ScalarsRestore(e: Edit, scalars: Edit)
    requires scalars == EMPTY.(comparator := e.comparator, logNumber := e.logNumber, prevLogNumber := e.prevLogNumber,
                               nextFileNumber := e.nextFileNumber, lastSequence := e.lastSequence)
    ensures SetAll(EMPTY, Scalars(e)) == scalars
  {
    var e1 := EMPTY.(comparator := e.comparator);
    SetAllConcat(EMPTY, MaybeComparator(e.comparator), NumberFields(e));
    assert SetAll(EMPTY, MaybeComparator(e.comparator)) == e1;
    NumbersRestore(e1, e);
  }

  lemma NumbersRestore(start: Edit, e: Edit)
    requires start.logNumber == start.prevLogNumber == start.nextFileNumber == start.lastSequence == None
    ensures SetAll(start, NumberFields(e)) == start.(logNumber := e.logNumber, prevLogNumber := e.prevLogNumber,
                                                nextFileNumber := e.nextFileNumber, lastSequence := e.lastSequence)
  {
    var d, f := MaybeNumber(3, e.nextFileNumber), MaybeNumber(4, e.lastSequence);
    SetNumberFirst(start, 2, e.logNumber, MaybeNumber(9, e.prevLogNumber) + (d + (f + [])));
    var e2 := start.(logNumber := e.logNumber);
    SetNumberFirst(e2, 9, e.prevLogNumber, d + (f + []));
    var e3 := e2.(prevLogNumber := e.prevLogNumber);
    SetNumberFirst(e3, 3, e.nextFileNumber, f + []);
    SetNumberFirst(e3.(nextFileNumber := e.nextFileNumber), 4, e.lastSequence, []);
  }
}
