/**
  What one field contributes to the output, as functions: the key written
  by `appendPrefix`, the payload written by `append` and the two
  `appendLengthDelimited`s, and the packed form of a repeated scalar field.
  Both revisions of the encoder are described at once, told apart by a
  `Version`.
 */
module WireEncoding {
  import opened ProtoTypes
  import opened Bits
  import opened VarintCodec
  import opened FixedWidth
  import opened WireTypes
  import opened TypeMapper

  /**
    `Current` is the encoder under serialize/src, `Earlier` the one under
    serialize/main. They differ in the largest field number, the byte order
    of fixed-width values, whether a string's encoded bytes are trimmed, and
    the nesting level given to repeated messages.
   */
  datatype Version = Current | Earlier

  const MinFieldNumber: int := 1

  /** `(2 ^ 29) - 1` in Java: `^` is exclusive or, so this is 30, not 2^29 - 1. */
  function EarlierMaxFieldNumber(): (m: int)
    ensures m == 30
  {
    Xor(2, 29) - 1
  }

  /** The largest accepted field number: 2^29 - 1 (protobuf's limit) in the current encoder. */
  function MaxFieldNumber(ver: Version): int
  {
    match ver
    case Current => 0x1FFF_FFFF
    case Earlier => EarlierMaxFieldNumber()
  }

  /** Fixed-width values: little-endian now, `ByteBuffer`'s big-endian default before. */
  function FixedOrder(ver: Version): ByteOrder
  {
    match ver
    case Current => Little
    case Earlier => Big
  }

  /** `(fieldNumber << 3) + wireTypeId` evaluated in Java `int` arithmetic. */
  function Key(fieldNumber: int32, w: WireType): int32
  {
    ToInt32(ToInt32(fieldNumber * 8) + WireTypeId(w))
  }

  /**
    The key `appendPrefix` writes: refused for a field number outside
    [1, max]; for `MESSAGE` the wire-type table has no entry and the
    lookup's `null` is dereferenced; otherwise the key as a varint of the
    sign-extended `int`.
   */
  function Tag(ver: Version, t: ProtobufType, fieldNumber: int32): (r: Result<seq<byte>>)
    ensures r.Err? <==> fieldNumber < MinFieldNumber || fieldNumber > MaxFieldNumber(ver) || t == MESSAGE
    ensures fieldNumber < MinFieldNumber || fieldNumber > MaxFieldNumber(ver)
      ==> r == Err(InvalidFieldNumber(fieldNumber))
    ensures r.Ok? ==> 1 <= |r.value| <= 10
  {
    if fieldNumber > MaxFieldNumber(ver) || fieldNumber < MinFieldNumber then
      Err(InvalidFieldNumber(fieldNumber))
    else
      match GetWireType(t)
      case None => Err(NullPointer)
      case Some(w) =>
        LongTakesAtMostTenBytes(Key(fieldNumber, w));
        Ok(VarintOfLong(Key(fieldNumber, w)))
  }

  /** A byte array with its length in front as a varint; an empty array still writes its length 0. */
  function LengthDelimited(data: seq<byte>): (r: seq<byte>)
    ensures |r| > |data|
    ensures r[|r| - |data|..] == data
  {
    Varint(|data|) + data
  }

  /**
    The bytes the `String` overload of `appendLengthDelimited` writes:
    nothing for `null` or the empty string; otherwise the encoder's UTF-8
    bytes length-delimited, trimmed to the encoded length now, but the whole
    backing array, unused zero bytes included, in the earlier revision.
   */
  function LengthDelimitedString(ver: Version, s: Option<JavaString>): (r: seq<byte>)
    ensures s.None? || s.value.utf8 == [] ==> r == []
  {
    if s.None? || s.value.utf8 == [] then []
    else
      match ver
      case Current => LengthDelimited(s.value.utf8)
      case Earlier => LengthDelimited(s.value.utf8 + Repeat(0, s.value.spare))
  }

  /**
    The bytes `append` writes for a value of a field of type `t`, or the
    exception its cast throws: a value of another class is a
    `ClassCastException` before anything is written; `null` cannot be
    unboxed and has no length, except as a `String`, which writes nothing.
    `MESSAGE` has no case and writes nothing.
   */
  function Payload(ver: Version, t: ProtobufType, v: Value): (r: Result<seq<byte>>)
    ensures r.Err? ==> r.error == (if v.Null? then NullPointer else ClassCast)
  {
    match t
    case DOUBLE => if v.F64Bits? then Ok(Fixed64(FixedOrder(ver), v.bits64)) else CastFailure(v)
    case FLOAT => if v.F32Bits? then Ok(Fixed32(FixedOrder(ver), v.bits32)) else CastFailure(v)
    case INT32 => if v.I32? then Ok(VarintOfLong(v.i)) else CastFailure(v)
    case UINT32 => if v.I32? then Ok(VarintOfLong(v.i)) else CastFailure(v)
    case SINT32 => if v.I32? then Ok(VarintOfLong(v.i)) else CastFailure(v)
    case INT64 => if v.I64? then Ok(VarintOfLong(v.l)) else CastFailure(v)
    case UINT64 => if v.I64? then Ok(VarintOfLong(v.l)) else CastFailure(v)
    case SINT64 => if v.I64? then Ok(VarintOfLong(v.l)) else CastFailure(v)
    case SFIXED32 => if v.I32? then Ok(Fixed32(FixedOrder(ver), v.i)) else CastFailure(v)
    case FIXED32 => if v.I32? then Ok(Fixed32(FixedOrder(ver), v.i)) else CastFailure(v)
    case SFIXED64 => if v.I64? then Ok(Fixed64(FixedOrder(ver), v.l)) else CastFailure(v)
    case FIXED64 => if v.I64? then Ok(Fixed64(FixedOrder(ver), v.l)) else CastFailure(v)
    case BOOL => if v.Bool? then Ok(Varint(if v.b then 1 else 0)) else CastFailure(v)
    case STRING =>
      if v.Str? then Ok(LengthDelimitedString(ver, Some(v.s)))
      else if v.Null? then Ok(LengthDelimitedString(ver, None))
      else Err(ClassCast)
    case BYTES => if v.Bytes? then Ok(LengthDelimited(v.data)) else CastFailure(v)
    case MESSAGE => Ok([])
  }

  /** A failed unboxing cast: `null` dereferenced, or an object of the wrong class. */
  function CastFailure(v: Value): (r: Result<seq<byte>>)
    ensures r.Err? && (r.error == NullPointer <==> v.Null?)
  {
    if v.Null? then Err(NullPointer) else Err(ClassCast)
  }

  /** What one element of a repeated scalar field adds to the packed bytes: nothing for `null`. */
  function PackedElement(ver: Version, t: ProtobufType, e: Value): (r: Result<seq<byte>>)
    ensures e.Null? ==> r == Ok([])
  {
    if e.Null? then Ok([]) else Payload(ver, t, e)
  }

  /** The payloads of the non-null elements of a repeated scalar field, in order; the first failing cast wins. */
  function Packed(ver: Version, t: ProtobufType, elems: seq<Value>): (r: Result<seq<byte>>)
  {
    if elems == [] then Ok([])
    else
      match PackedElement(ver, t, elems[0])
      case Err(err) => Err(err)
      case Ok(head) =>
        match Packed(ver, t, elems[1..])
        case Err(err) => Err(err)
        case Ok(tail) => Ok(head + tail)
  }

  /**
    One length-delimited record under a field number: nothing when the
    content is empty, otherwise a `BYTES` key and the content with its
    length. Packed lists and nested messages are both written this way.
   */
  function Embedded(ver: Version, fieldNumber: int32, content: seq<byte>): (r: Result<seq<byte>>)
    ensures content == [] ==> r == Ok([])
    ensures r.Ok? ==> |r.value| >= |content|
  {
    if content == [] then Ok([])
    else
      var tag :- Tag(ver, BYTES, fieldNumber);
      Ok(tag + LengthDelimited(content))
  }

  /** Non-empty content is the `BYTES` key then the length-delimited content, or the key's error. */
  lemma EmbeddedNonEmpty(ver: Version, fieldNumber: int32, content: seq<byte>)
    requires content != []
    ensures Tag(ver, BYTES, fieldNumber).Err? ==> Embedded(ver, fieldNumber, content) == Err(Tag(ver, BYTES, fieldNumber).error)
    ensures Tag(ver, BYTES, fieldNumber).Ok? ==>
      Embedded(ver, fieldNumber, content) == Ok(Tag(ver, BYTES, fieldNumber).value + LengthDelimited(content))
  {
  }

  /** What a non-null field whose type is not `MESSAGE` contributes: packed if it is a list, else key then payload. */
  function ScalarField(ver: Version, f: Field): (r: Result<seq<byte>>)
  {
    if f.value.List? then
      var content :- Packed(ver, f.protobufType, f.value.elems);
      Embedded(ver, f.fieldNumber, content)
    else
      var tag :- Tag(ver, f.protobufType, f.fieldNumber);
      var payload :- Payload(ver, f.protobufType, f.value);
      Ok(tag + payload)
  }

  /** A field holding one value is its key, then its payload; the first of the two to fail is the failure. */
  lemma KeyThenPayload(ver: Version, f: Field)
    requires !f.value.List?
    ensures Tag(ver, f.protobufType, f.fieldNumber).Err? ==> ScalarField(ver, f) == Err(Tag(ver, f.protobufType, f.fieldNumber).error)
    ensures Tag(ver, f.protobufType, f.fieldNumber).Ok? && Payload(ver, f.protobufType, f.value).Err? ==>
      ScalarField(ver, f) == Err(Payload(ver, f.protobufType, f.value).error)
    ensures Tag(ver, f.protobufType, f.fieldNumber).Ok? && Payload(ver, f.protobufType, f.value).Ok? ==>
      ScalarField(ver, f) == Ok(Tag(ver, f.protobufType, f.fieldNumber).value + Payload(ver, f.protobufType, f.value).value)
  {
  }

  /**
    Below 2^28 the key needs no wrap-around: it is `8 * fieldNumber + id`, so
    adding the id is the same as or-ing it into the three free low bits,
    and a reader gets both parts back.
   */
  lemma KeyOfSmallFieldNumber(fieldNumber: int32, w: WireType)
    requires 0 <= fieldNumber < 0x1000_0000
    ensures Key(fieldNumber, w) == fieldNumber * 8 + WireTypeId(w)
    ensures Key(fieldNumber, w) / 8 == fieldNumber && Key(fieldNumber, w) % 8 == WireTypeId(w)
  {
    DivModUnique(fieldNumber * 8 + WireTypeId(w), 8, fieldNumber, WireTypeId(w));
  }

  /** A valid field number below 2^28 gives a key a reader splits back into the number and the wire type. */
  lemma TagRoundTrip(ver: Version, t: ProtobufType, fieldNumber: int32)
    requires MinFieldNumber <= fieldNumber <= MaxFieldNumber(ver) && fieldNumber < 0x1000_0000
    requires t != MESSAGE
    ensures Tag(ver, t, fieldNumber).Ok?
    ensures var tag := Tag(ver, t, fieldNumber).value;
      var w := GetWireType(t).value;
      DecodeVarint(tag) == Some((fieldNumber * 8 + WireTypeId(w), |tag|))
      && (fieldNumber * 8 + WireTypeId(w)) / 8 == fieldNumber
      && (fieldNumber * 8 + WireTypeId(w)) % 8 == WireTypeId(w)
  {
    var w := GetWireType(t).value;
    KeyOfSmallFieldNumber(fieldNumber, w);
    var tag := Tag(ver, t, fieldNumber).value;
    VarintRoundTrip(Key(fieldNumber, w), []);
    assert tag + [] == tag;
  }

  /**
    From 2^28 to 2^29 - 1 the current encoder accepts the number, but
    `fieldNumber << 3` overflows into the sign bit: the key is a negative
    `int`, sign-extended to ten varint bytes that read back as a 64-bit
    pattern, not as the intended key.
   */
  lemma LargeFieldNumberTag(t: ProtobufType, fieldNumber: int32)
    requires 0x1000_0000 <= fieldNumber <= 0x1FFF_FFFF
    requires t != MESSAGE
    ensures Tag(Current, t, fieldNumber).Ok?
    ensures var w := GetWireType(t).value;
      var tag := Tag(Current, t, fieldNumber).value;
      Key(fieldNumber, w) == fieldNumber * 8 + WireTypeId(w) - 0x1_0000_0000
      && |tag| == 10
      && DecodeVarint(tag) == Some((Unsigned64(Key(fieldNumber, w)), 10))
  {
    var w := GetWireType(t).value;
    assert ToInt32(fieldNumber * 8) == fieldNumber * 8 - 0x1_0000_0000 by {
      DivModUnique(fieldNumber * 8 + 0x8000_0000, 0x1_0000_0000, 1, fieldNumber * 8 - 0x8000_0000);
    }
    assert Key(fieldNumber, w) == fieldNumber * 8 + WireTypeId(w) - 0x1_0000_0000;
    NegativeLongTakesTenBytes(Key(fieldNumber, w));
  }

  /** Field numbers 1 to 15 take a one-byte key in both revisions. */
  lemma OneByteTag(ver: Version, t: ProtobufType, fieldNumber: int32)
    requires 1 <= fieldNumber <= 15 && t != MESSAGE
    ensures Tag(ver, t, fieldNumber) == Ok([fieldNumber * 8 + WireTypeId(GetWireType(t).value)])
  {
    KeyOfSmallFieldNumber(fieldNumber, GetWireType(t).value);
  }

  /** The keys the encoder's tests expect. */
  lemma TagExamples(ver: Version)
    ensures Tag(ver, INT32, 1) == Ok([0x08])
    ensures Tag(ver, FIXED64, 2) == Ok([0x11])
    ensures Tag(ver, STRING, 5) == Ok([0x2A])
    ensures Tag(ver, FLOAT, 15) == Ok([0x7D])
  {
    IntKeyExample(ver);
    Fixed64KeyExample(ver);
    StringKeyExample(ver);
    FloatKeyExample(ver);
  }

  lemma IntKeyExample(ver: Version)
    ensures Tag(ver, INT32, 1) == Ok([0x08])
  {
    OneByteTagIs(ver, INT32, 1, VARINT, 0x08);
  }

  lemma Fixed64KeyExample(ver: Version)
    ensures Tag(ver, FIXED64, 2) == Ok([0x11])
  {
    OneByteTagIs(ver, FIXED64, 2, FIXED_64, 0x11);
  }

  lemma StringKeyExample(ver: Version)
    ensures Tag(ver, STRING, 5) == Ok([0x2A])
  {
    OneByteTagIs(ver, STRING, 5, LENGTH_DELIMITED, 0x2A);
  }

  lemma FloatKeyExample(ver: Version)
    ensures Tag(ver, FLOAT, 15) == Ok([0x7D])
  {
    OneByteTagIs(ver, FLOAT, 15, FIXED_32, 0x7D);
  }

  lemma OneByteTagIs(ver: Version, t: ProtobufType, fieldNumber: int32, w: WireType, key: byte)
    requires 1 <= fieldNumber <= 15 && GetWireType(t) == Some(w)
    requires key == fieldNumber * 8 + WireTypeId(w)
    ensures Tag(ver, t, fieldNumber) == Ok([key])
  {
    OneByteTag(ver, t, fieldNumber);
  }

  /** A reader takes the length, and exactly the data follows it. */
  lemma LengthDelimitedRoundTrip(data: seq<byte>, rest: seq<byte>)
    ensures DecodeVarint(LengthDelimited(data) + rest) == Some((|data|, |LengthDelimited(data)| - |data|))
    ensures (LengthDelimited(data) + rest)[|LengthDelimited(data)| - |data|..][..|data|] == data
  {
    VarintRoundTrip(|data|, data + rest);
    assert LengthDelimited(data) + rest == Varint(|data|) + (data + rest);
  }

  /** With nothing after it: the length reads back and ends where the data starts. */
  lemma LengthDelimitedDecodes(data: seq<byte>)
    ensures DecodeVarint(LengthDelimited(data)) == Some((|data|, |LengthDelimited(data)| - |data|))
  {
    VarintRoundTrip(|data|, data);
  }

  /**
    The current encoder writes a non-empty string as exactly its UTF-8
    bytes; the earlier one writes the encoder's whole backing array, so a
    reader gets the bytes followed by `spare` zeros.
   */
  lemma StringRoundTrip(ver: Version, s: JavaString)
    requires s.utf8 != []
    ensures var r := LengthDelimitedString(ver, Some(s));
      var content := if ver.Current? then s.utf8 else s.utf8 + Repeat(0, s.spare);
      DecodeVarint(r) == Some((|content|, |r| - |content|)) && r[|r| - |content|..] == content
  {
    var r := LengthDelimitedString(ver, Some(s));
    if ver.Current? {
      LengthDelimitedReads(r, s.utf8);
    } else {
      LengthDelimitedReads(r, s.utf8 + Repeat(0, s.spare));
    }
  }

  /** Bytes that are `data` length-delimited read back as the length, then the data. */
  lemma LengthDelimitedReads(r: seq<byte>, data: seq<byte>)
    requires r == LengthDelimited(data)
    ensures DecodeVarint(r) == Some((|data|, |r| - |data|)) && r[|r| - |data|..] == data
  {
    LengthDelimitedDecodes(data);
  }

  lemma LengthDelimitedExamples(ver: Version)
    ensures LengthDelimited([]) == [0x00]
    ensures LengthDelimitedString(ver, Some(JavaString([0x74, 0x65, 0x73, 0x74, 0x69, 0x6E, 0x67], 0)))
      == [0x07, 0x74, 0x65, 0x73, 0x74, 0x69, 0x6E, 0x67]
    ensures LengthDelimitedString(ver, Some(JavaString([], 0))) == []
    ensures LengthDelimitedString(ver, None) == []
  {
    assert Repeat(0, 0) == [];
  }

  /**
    Every non-empty payload has the shape its wire type announces: a
    varint a reader consumes entirely, four or eight bytes, or a length
    followed by exactly that many bytes.
   */
  lemma PayloadMatchesWireType(ver: Version, t: ProtobufType, v: Value)
    requires Payload(ver, t, v).Ok? && t != MESSAGE
    ensures var p := Payload(ver, t, v).value;
      match GetWireType(t).value
      case VARINT => DecodeVarint(p).Some? && DecodeVarint(p).value.1 == |p|
      case FIXED_32 => |p| == 4
      case FIXED_64 => |p| == 8
      case LENGTH_DELIMITED =>
        p == [] || (DecodeVarint(p).Some? && DecodeVarint(p).value.0 + DecodeVarint(p).value.1 == |p|)
  {
    var p := Payload(ver, t, v).value;
    match GetWireType(t).value
    case VARINT =>
      var u: nat := if v.I32? then Unsigned64(v.i) else if v.I64? then Unsigned64(v.l) else if v.b then 1 else 0;
      assert p == Varint(u);
      VarintRoundTrip(u, []);
      assert p + [] == p;
    case FIXED_32 =>
    case FIXED_64 =>
    case LENGTH_DELIMITED =>
      if p != [] {
        var content :| p == LengthDelimited(content);
        LengthDelimitedDecodes(content);
      }
  }

  /**
    What a reader recovers from each payload: an `int` sign-extended to 64
    bits (no zig-zag step, even for `SINT32`), a `long`'s pattern, 1 or 0
    for a boolean, the two's-complement pattern of a fixed-width value in
    the revision's byte order, and a byte array unchanged.
   */
  lemma PayloadRoundTrip(ver: Version, t: ProtobufType, v: Value)
    requires Payload(ver, t, v).Ok? && !v.Null?
    ensures var p := Payload(ver, t, v).value;
      && (t in {INT32, UINT32, SINT32} ==> DecodeVarint(p) == Some((Unsigned64(v.i), |p|)))
      && (t in {INT64, UINT64, SINT64} ==> DecodeVarint(p) == Some((Unsigned64(v.l), |p|)))
      && (t == BOOL ==> p == [if v.b then 1 else 0])
      && (t in {FIXED32, SFIXED32} && ver.Current? ==> FromLittleEndian(p) == Unsigned32(v.i))
      && (t in {FIXED32, SFIXED32} && ver.Earlier? ==> FromBigEndian(p) == Unsigned32(v.i))
      && (t in {FIXED64, SFIXED64} && ver.Current? ==> FromLittleEndian(p) == Unsigned64(v.l))
      && (t in {FIXED64, SFIXED64} && ver.Earlier? ==> FromBigEndian(p) == Unsigned64(v.l))
      && (t == FLOAT && ver.Current? ==> FromLittleEndian(p) == Unsigned32(v.bits32))
      && (t == DOUBLE && ver.Current? ==> FromLittleEndian(p) == Unsigned64(v.bits64))
      && (t == FLOAT && ver.Earlier? ==> FromBigEndian(p) == Unsigned32(v.bits32))
      && (t == DOUBLE && ver.Earlier? ==> FromBigEndian(p) == Unsigned64(v.bits64))
      && (t == BYTES ==> DecodeVarint(p) == Some((|v.data|, |p| - |v.data|)) && p[|p| - |v.data|..] == v.data)
  {
    var p := Payload(ver, t, v).value;
    if t in {INT32, UINT32, SINT32} {
      VarintRoundTrip(Unsigned64(v.i), []);
      assert p + [] == p;
    } else if t in {INT64, UINT64, SINT64} {
      VarintRoundTrip(Unsigned64(v.l), []);
      assert p + [] == p;
    } else if t in {FIXED32, SFIXED32} {
      Fixed32RoundTrip(FixedOrder(ver), v.i);
    } else if t in {FIXED64, SFIXED64} {
      Fixed64RoundTrip(FixedOrder(ver), v.l);
    } else if t == FLOAT {
      Fixed32RoundTrip(FixedOrder(ver), v.bits32);
    } else if t == DOUBLE {
      Fixed64RoundTrip(FixedOrder(ver), v.bits64);
    } else if t == BYTES {
      LengthDelimitedDecodes(v.data);
    }
  }

  /** The values of the non-null elements of a list. */
  function NonNull(elems: seq<Value>): (r: seq<Value>)
    ensures |r| <= |elems|
    ensures forall k :: 0 <= k < |r| ==> !r[k].Null?
  {
    if elems == [] then []
    else if elems[0].Null? then NonNull(elems[1..])
    else [elems[0]] + NonNull(elems[1..])
  }

  /** A packed list is the concatenation of its non-null elements' payloads: nulls leave no trace. */
  lemma {:induction false} PackedSkipsNulls(ver: Version, t: ProtobufType, elems: seq<Value>)
    ensures Packed(ver, t, elems) == Packed(ver, t, NonNull(elems))
  {
    if elems != [] {
      PackedSkipsNulls(ver, t, elems[1..]);
      if !elems[0].Null? {
        var n := NonNull(elems);
        assert n != [] && n[0] == elems[0] && n[1..] == NonNull(elems[1..]);
      } else if Packed(ver, t, elems[1..]).Ok? {
        assert [] + Packed(ver, t, elems[1..]).value == Packed(ver, t, elems[1..]).value;
      }
    }
  }

  /** The packed bytes of a list that fits `t` are the concatenated payloads of its elements, in order. */
  lemma PackedAppend(ver: Version, t: ProtobufType, elems: seq<Value>, e: Value)
    requires Packed(ver, t, elems).Ok?
    ensures Packed(ver, t, elems + [e])
      == match PackedElement(ver, t, e)
         case Err(err) => Err(err)
         case Ok(p) => Ok(Packed(ver, t, elems).value + p)
  {
    PackedIsJoined(ver, t, elems);
    PackedIsJoined(ver, t, elems + [e]);
    assert ElementBytes(ver, t, elems + [e]) == ElementBytes(ver, t, elems) + [PackedElement(ver, t, e)];
    JoinedSnoc(ElementBytes(ver, t, elems), PackedElement(ver, t, e));
  }

  /** What each element of a list adds to the packed bytes, one result per element. */
  function ElementBytes(ver: Version, t: ProtobufType, elems: seq<Value>): (r: seq<Result<seq<byte>>>)
    ensures |r| == |elems|
    ensures forall k :: 0 <= k < |elems| ==> r[k] == PackedElement(ver, t, elems[k])
  {
    if elems == [] then [] else [PackedElement(ver, t, elems[0])] + ElementBytes(ver, t, elems[1..])
  }

  /** Results joined in order: the bytes one after the other, or the first error. */
  function Joined(rs: seq<Result<seq<byte>>>): Result<seq<byte>>
  {
    if rs == [] then Ok([])
    else
      match rs[0]
      case Err(err) => Err(err)
      case Ok(head) =>
        match Joined(rs[1..])
        case Err(err) => Err(err)
        case Ok(tail) => Ok(head + tail)
  }

  lemma {:induction false} PackedIsJoined(ver: Version, t: ProtobufType, elems: seq<Value>)
    ensures Packed(ver, t, elems) == Joined(ElementBytes(ver, t, elems))
  {
    if elems != [] {
      PackedIsJoined(ver, t, elems[1..]);
      var rs := ElementBytes(ver, t, elems);
      assert rs[1..] == ElementBytes(ver, t, elems[1..]);
    }
  }

  lemma {:induction false} JoinedSnoc(rs: seq<Result<seq<byte>>>, r: Result<seq<byte>>)
    requires Joined(rs).Ok?
    ensures Joined(rs + [r])
      == match r
         case Err(err) => Err(err)
         case Ok(p) => Ok(Joined(rs).value + p)
  {
    if rs == [] {
      assert rs + [r] == [r];
      assert [r][1..] == [];
      if r.Ok? {
        assert r.value + [] == r.value && [] + r.value == r.value;
      }
    } else {
      assert (rs + [r])[1..] == rs[1..] + [r];
      JoinedSnoc(rs[1..], r);
      if r.Ok? {
        var head, tail := rs[0].value, Joined(rs[1..]).value;
        assert head + (tail + r.value) == (head + tail) + r.value;
      }
    }
  }

  /** The first failing element decides: nothing after it is looked at. */
  lemma {:induction false} PackedFailsEarly(ver: Version, t: ProtobufType, elems: seq<Value>, more: seq<Value>)
    requires Packed(ver, t, elems).Err?
    ensures Packed(ver, t, elems + more) == Packed(ver, t, elems)
  {
    assert elems != [];
    assert (elems + more)[1..] == elems[1..] + more;
    if PackedElement(ver, t, elems[0]).Ok? {
      PackedFailsEarly(ver, t, elems[1..], more);
    }
  }

  /** The packed bytes of the first `j + 1` values extend those of the first `j` by value `j`'s, or fail with it. */
  lemma PackedPrefixStep(ver: Version, t: ProtobufType, values: seq<Value>, j: nat)
    requires j < |values| && Packed(ver, t, values[..j]).Ok?
    ensures Packed(ver, t, values[..j + 1])
      == match PackedElement(ver, t, values[j])
         case Err(err) => Err(err)
         case Ok(p) => Ok(Packed(ver, t, values[..j]).value + p)
  {
    assert values[..j + 1] == values[..j] + [values[j]];
    PackedAppend(ver, t, values[..j], values[j]);
  }

  /** Packing a list is packing its two halves one after the other, and both pack if the list does. */
  lemma {:induction false} PackedConcat(ver: Version, t: ProtobufType, a: seq<Value>, b: seq<Value>)
    requires Packed(ver, t, a + b).Ok?
    ensures Packed(ver, t, a).Ok? && Packed(ver, t, b).Ok?
    ensures Packed(ver, t, a + b).value == Packed(ver, t, a).value + Packed(ver, t, b).value
  {
    if a == [] {
      assert a + b == b;
    } else {
      assert (a + b)[0] == a[0] && (a + b)[1..] == a[1..] + b;
      PackedConcat(ver, t, a[1..], b);
      var head := PackedElement(ver, t, a[0]).value;
      assert head + (Packed(ver, t, a[1..]).value + Packed(ver, t, b).value)
        == (head + Packed(ver, t, a[1..]).value) + Packed(ver, t, b).value;
    }
  }

  /** The packed bytes of the first `j` values of a list that packs are no longer than those of the whole list. */
  lemma PackedPrefixFits(ver: Version, t: ProtobufType, values: seq<Value>, j: nat)
    requires j <= |values| && Packed(ver, t, values).Ok?
    ensures Packed(ver, t, values[..j]).Ok?
    ensures |Packed(ver, t, values[..j]).value| <= |Packed(ver, t, values).value|
  {
    assert values[..j] + values[j..] == values;
    PackedConcat(ver, t, values[..j], values[j..]);
  }

  /**
    In a list that packs, the payload of element `j` packs after the bytes
    of the elements before it, and the two together are no longer than the
    packed bytes of the whole list.
   */
  lemma PackedElementFits(ver: Version, t: ProtobufType, values: seq<Value>, j: nat, written: seq<byte>)
    requires j < |values| && Packed(ver, t, values).Ok?
    requires Packed(ver, t, values[..j]) == Ok(written)
    ensures PackedElement(ver, t, values[j]).Ok?
    ensures |written| + |PackedElement(ver, t, values[j]).value| <= |Packed(ver, t, values).value|
  {
    PackedPrefixStep(ver, t, values, j);
    PackedPrefixFits(ver, t, values, j + 1);
  }

  /** A prefix of the values that fails to pack makes the whole list fail the same way. */
  lemma PackedPrefixFails(ver: Version, t: ProtobufType, values: seq<Value>, j: nat)
    requires j < |values| && Packed(ver, t, values[..j + 1]).Err?
    ensures Packed(ver, t, values) == Packed(ver, t, values[..j + 1])
  {
    PackedFailsEarly(ver, t, values[..j + 1], values[j + 1..]);
    assert values[..j + 1] + values[j + 1..] == values;
  }

  lemma PackedOneTwoFour(ver: Version)
    ensures Packed(ver, INT32, [I32(1), I32(2), I32(4)]) == Ok([0x01, 0x02, 0x04])
  {
    assert PackedElement(ver, INT32, I32(1)) == Ok([0x01]);
    assert PackedElement(ver, INT32, I32(2)) == Ok([0x02]);
    assert PackedElement(ver, INT32, I32(4)) == Ok([0x04]);
    PackedAppend(ver, INT32, [], I32(1));
    assert [] + [I32(1)] == [I32(1)] && [] + [0x01] == [0x01];
    PackedAppend(ver, INT32, [I32(1)], I32(2));
    assert [I32(1)] + [I32(2)] == [I32(1), I32(2)] && [0x01] + [0x02] == [0x01, 0x02];
    PackedAppend(ver, INT32, [I32(1), I32(2)], I32(4));
    assert [I32(1), I32(2)] + [I32(4)] == [I32(1), I32(2), I32(4)] && [0x01, 0x02] + [0x04] == [0x01, 0x02, 0x04];
  }

  /** The repeated field of the tests: `{1, 2, 4}` as field 1 is packed into one record. */
  lemma PackedExample(ver: Version, f: Field, listClass: string)
    requires f == Field(1, INT32, List(listClass, [I32(1), I32(2), I32(4)]))
    ensures ScalarField(ver, f) == Ok([0x0A, 0x03, 0x01, 0x02, 0x04])
  {
    var content: seq<byte> := [0x01, 0x02, 0x04];
    PackedOneTwoFour(ver);
    PackedField(ver, f, content);
    ShortEmbedded(ver, 1, content);
    PackedBytes([0x0A, 0x03], content);
  }

  lemma PackedBytes(head: seq<byte>, content: seq<byte>)
    requires head == [0x0A, 0x03] && content == [0x01, 0x02, 0x04]
    ensures head + content == [0x0A, 0x03, 0x01, 0x02, 0x04]
  {
  }

  /** Content shorter than 128 bytes under a field number below 16: a one-byte key, a one-byte length, the content. */
  lemma ShortEmbedded(ver: Version, fieldNumber: int32, content: seq<byte>)
    requires 1 <= fieldNumber <= 15 && 0 < |content| < 0x80
    ensures Embedded(ver, fieldNumber, content) == Ok([fieldNumber * 8 + 2, |content|] + content)
  {
    var key: byte := fieldNumber * 8 + 2;
    OneByteTagIs(ver, BYTES, fieldNumber, LENGTH_DELIMITED, key);
    EmbeddedNonEmpty(ver, fieldNumber, content);
    ShortLengthDelimited(content);
    assert [key] + ([|content|] + content) == [key, |content|] + content;
  }

  /** Fewer than 128 bytes take a one-byte length. */
  lemma ShortLengthDelimited(data: seq<byte>)
    requires |data| < 0x80
    ensures LengthDelimited(data) == [|data|] + data
  {
  }

  /** The `List` field `f` is its packed elements, embedded under its number. */
  lemma PackedField(ver: Version, f: Field, content: seq<byte>)
    requires f.value.List? && Packed(ver, f.protobufType, f.value.elems) == Ok(content)
    ensures ScalarField(ver, f) == Embedded(ver, f.fieldNumber, content)
  {
  }

  /** Lists that leave no record, and a list whose element does not fit the declared type. */
  lemma EmptyPackedExamples(ver: Version, listClass: string)
    ensures ScalarField(ver, Field(10, INT32, List(listClass, []))) == Ok([])
    ensures ScalarField(ver, Field(10, INT32, List(listClass, [Null, Null]))) == Ok([])
    ensures ScalarField(ver, Field(1, INT32, List(listClass, [F32Bits(0x3F99_999A)]))) == Err(ClassCast)
  {
    PackedAppend(ver, INT32, [], Null);
    assert [] + [Null] == [Null];
    PackedAppend(ver, INT32, [Null], Null);
    assert [Null] + [Null] == [Null, Null];
  }

  /** Field numbers outside [1, max] are refused before anything is written. */
  lemma InvalidTagExamples(ver: Version, t: ProtobufType)
    ensures Tag(ver, t, 0) == Err(InvalidFieldNumber(0))
    ensures Tag(ver, t, -1) == Err(InvalidFieldNumber(-1))
    ensures Tag(ver, t, 0x7FFF_FFFF) == Err(InvalidFieldNumber(0x7FFF_FFFF))
  {
  }
}
