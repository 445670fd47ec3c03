/**
  The earlier encoder (serialize/main) as the imperative code it is. It
  shares the shape of the current one but writes fixed-width values
  big-endian, writes a string's whole UTF-8 backing array, accepts field
  numbers up to 30 only, gives repeated messages the current level, adds a
  field number to the frame's set after the field, and builds varints bit
  by bit in a `BitSet`. Each method is proved to do what the message-walk
  and wire-encoding functions say the earlier revision does, except that
  a write may find the stream full (`OutOfMemory`), which happens only
  when the bytes specified do not fit.
 */
module EarlierProtobufSerializer {
  import opened ProtoTypes
  import opened Bits
  import opened VarintCodec
  import opened FixedWidth
  import opened WireTypes
  import opened TypeMapper
  import opened WireEncoding
  import opened Visits
  import opened MessageWalk
  import opened Streams
  import opened JavaBits

  /** `serialize(message)`: level 0, an empty visit map, a new stream. */
  method Serialize(message: Value) returns (r: Result<ByteArray>)
    ensures r.Ok? ==> SerializeMessage(Earlier, message).Ok? && SerializeMessage(Earlier, message).value == r.value
    ensures r.Err? ==> r.error == OutOfMemory || SerializeMessage(Earlier, message) == Err(r.error)
    ensures SerializeMessage(Earlier, message).Ok? && |SerializeMessage(Earlier, message).value| <= MaxArrayLength ==> r.Ok?
  {
    var byteStream := new ByteStream();
    var visitedMessages := new VisitedMessages();
    r := SerializeInto(byteStream, message, 0, visitedMessages, {});
    if r.Ok? {
      assert r.value[0..] == r.value;
    }
  }

  /**
    `serialize(byteStream, message, numLevel, visitedMessages, visitedFieldNumbers)`:
    the fields of `message` appended to `out`, whose whole content is the
    result. A field's number joins the frame's set once the field is done.
   */
  method SerializeInto(out: ByteStream, message: Value, numLevel: int,
                       visitedMessages: VisitedMessages, visitedFieldNumbers: set<int>)
    returns (r: Result<ByteArray>)
    requires out.Valid()
    modifies out, visitedMessages
    ensures out.Valid()
    ensures r.Ok? ==> r.value == out.bytes
    ensures Performed(if r.Ok? then Pass else Fail(r.error),
      SerializeObject(Earlier, message, numLevel, old(visitedMessages.levels), visitedFieldNumbers),
      old(out.bytes), out.bytes, visitedMessages.levels)
    decreases message, 5
  {
    if message.Null? {
      return Err(NullPointer);
    }
    var className := RuntimeClass(message);
    visitedMessages.MarkClassAsVisited(className, numLevel);
    var circular := visitedMessages.IsCircularReference(className, numLevel);
    if circular {
      return Err(CircularReference(className));
    }
    var o := SerializeFieldsInto(out, message, numLevel, visitedMessages, visitedFieldNumbers);
    if o.Fail? {
      return Err(o.error);
    }
    r := Ok(out.ToByteArray());
  }

  /** The field loop of `serialize`: each annotated field of `message` in turn, from level `numLevel`. */
  method SerializeFieldsInto(out: ByteStream, message: Value, numLevel: int,
                             visitedMessages: VisitedMessages, visitedFieldNumbers: set<int>)
    returns (o: Outcome)
    requires out.Valid()
    modifies out, visitedMessages
    ensures out.Valid()
    ensures Performed(o, SerializeFields(Earlier, message, 0, numLevel, old(visitedMessages.levels), visitedFieldNumbers),
      old(out.bytes), out.bytes, visitedMessages.levels)
    decreases message, 4
  {
    ghost var before := out.bytes;
    ghost var spec := SerializeFields(Earlier, message, 0, numLevel, visitedMessages.levels, visitedFieldNumbers);
    var fields := FieldsOf(message);
    var level := numLevel;
    var seen := visitedFieldNumbers;
    var i := 0;
    assert out.bytes[|before|..] == [];
    while i < |fields|
      invariant 0 <= i <= |fields|
      invariant out.Valid() && before <= out.bytes
      invariant spec == Prepend(out.bytes[|before|..], SerializeFields(Earlier, message, i, level, visitedMessages.levels, seen))
      decreases |fields| - i
    {
      var field := fields[i];
      if field.fieldNumber in seen {
        return Fail(DuplicateFieldNumber(field.fieldNumber));
      }
      ghost var mid := out.bytes;
      o, level := SerializeFieldAt(out, message, i, level, visitedMessages, seen, out.bytes[|before|..]);
      if o.Fail? {
        return;
      }
      PrefixPrefix(before, mid, out.bytes);
      seen := seen + {field.fieldNumber};
      i := i + 1;
    }
    PrependNothing(out.bytes[|before|..], visitedMessages.levels);
    o := Pass;
  }

  /**
    One field of the loop once its number is known to be new: a `null`
    value is skipped, any other is written. `done` is what the loop wrote
    before it.
   */
  method SerializeFieldAt(out: ByteStream, message: Value, i: nat, level: int, visitedMessages: VisitedMessages,
                          ghost seen: set<int>, ghost done: seq<byte>)
    returns (o: Outcome, nextLevel: int)
    requires i < |FieldsOf(message)| && FieldsOf(message)[i].fieldNumber !in seen
    requires out.Valid()
    modifies out, visitedMessages
    ensures out.Valid()
    ensures o.Pass? ==> (
      && old(out.bytes) <= out.bytes
      && Prepend(done, SerializeFields(Earlier, message, i, level, old(visitedMessages.levels), seen))
         == Prepend(done + out.bytes[|old(out.bytes)|..],
              SerializeFields(Earlier, message, i + 1, nextLevel, visitedMessages.levels, seen + {FieldsOf(message)[i].fieldNumber})))
    ensures o.Fail? ==> (
      || o.error == OutOfMemory
      || SerializeFields(Earlier, message, i, level, old(visitedMessages.levels), seen) == Err(o.error))
    ensures var spec := SerializeFields(Earlier, message, i, level, old(visitedMessages.levels), seen);
      spec.Ok? && |old(out.bytes)| + |spec.value.bytes| <= MaxArrayLength ==> o.Pass?
    decreases message, 3
  {
    var field := FieldsOf(message)[i];
    if field.value.Null? {
      nextLevel := level;
      FieldsSkip(Earlier, message, i, level, visitedMessages.levels, seen, done);
      assert out.bytes[|out.bytes|..] == [];
      AppendNothing(done);
      o := Pass;
      return;
    }
    o, nextLevel := SerializePresentField(out, message, i, level, visitedMessages);
    if o.Fail? {
      if o.error != OutOfMemory {
        FieldsFail(Earlier, message, i, level, old(visitedMessages.levels), seen, o.error);
      }
      return;
    }
    FieldsAdvance(Earlier, message, i, level, old(visitedMessages.levels), seen, done,
      Step(out.bytes[|old(out.bytes)|..], nextLevel, visitedMessages.levels));
  }

  /**
    One annotated field whose value is not `null`: a list is a repeated
    `MESSAGE` field, walked at the current level, or a packed scalar list;
    a single `MESSAGE` is walked one level deeper, and the loop goes on at
    that level; any other value is key and payload.
   */
  method SerializePresentField(out: ByteStream, message: Value, i: nat, numLevel: int, visitedMessages: VisitedMessages)
    returns (o: Outcome, nextLevel: int)
    requires i < |FieldsOf(message)| && !FieldsOf(message)[i].value.Null?
    requires out.Valid()
    modifies out, visitedMessages
    ensures out.Valid()
    ensures o.Pass? ==> (
      && old(out.bytes) <= out.bytes
      && SerializeField(Earlier, message, i, numLevel, old(visitedMessages.levels))
         == Ok(Step(out.bytes[|old(out.bytes)|..], nextLevel, visitedMessages.levels)))
    ensures o.Fail? ==> (
      || o.error == OutOfMemory
      || SerializeField(Earlier, message, i, numLevel, old(visitedMessages.levels)) == Err(o.error))
    ensures var spec := SerializeField(Earlier, message, i, numLevel, old(visitedMessages.levels));
      spec.Ok? && |old(out.bytes)| + |spec.value.bytes| <= MaxArrayLength ==> o.Pass?
    decreases message, 2
  {
    var field := FieldsOf(message)[i];
    var value := field.value;
    ghost var before := out.bytes;
    if value.List? {
      nextLevel := numLevel;
      if field.protobufType == MESSAGE {
        o := SerializeNestedMessages(out, message, i, numLevel, visitedMessages);
      } else {
        o := AppendPacked(out, field.protobufType, field.fieldNumber, value);
        assert field == Field(field.fieldNumber, field.protobufType, value);
        if o.Pass? {
          Appended(before, ScalarField(Earlier, field).value, out.bytes);
        }
      }
    } else if field.protobufType == MESSAGE {
      nextLevel := numLevel + 1;
      ghost var levels := visitedMessages.levels;
      o := SerializeNestedMessage(out, message, i, 0, nextLevel, visitedMessages);
      if o.Pass? {
        assert SerializeElements(Earlier, message, i, 1, nextLevel, visitedMessages.levels)
          == Ok(Walk([], visitedMessages.levels));
        PrependNothing(out.bytes[|before|..], visitedMessages.levels);
      }
    } else {
      nextLevel := numLevel;
      o := AppendKeyAndValue(out, field);
      if o.Pass? {
        Appended(before, ScalarField(Earlier, field).value, out.bytes);
      }
    }
  }

  /** The elements of a repeated `MESSAGE` field, each walked at `level` and written as its own record. */
  method SerializeNestedMessages(out: ByteStream, message: Value, i: nat, level: int, visitedMessages: VisitedMessages)
    returns (o: Outcome)
    requires i < |FieldsOf(message)|
    requires out.Valid()
    modifies out, visitedMessages
    ensures out.Valid()
    ensures Performed(o, SerializeElements(Earlier, message, i, 0, level, old(visitedMessages.levels)),
      old(out.bytes), out.bytes, visitedMessages.levels)
    decreases message, 1
  {
    var field := FieldsOf(message)[i];
    var elements := ElementsOf(field.value);
    ghost var before := out.bytes;
    ghost var spec := SerializeElements(Earlier, message, i, 0, level, visitedMessages.levels);
    var j := 0;
    assert out.bytes[|before|..] == [];
    while j < |elements|
      invariant 0 <= j <= |elements|
      invariant out.Valid() && before <= out.bytes
      invariant spec == Prepend(out.bytes[|before|..], SerializeElements(Earlier, message, i, j, level, visitedMessages.levels))
      decreases |elements| - j
    {
      ghost var mid := out.bytes;
      o := SerializeNestedMessage(out, message, i, j, level, visitedMessages);
      if o.Fail? {
        return;
      }
      PrefixPrefix(before, mid, out.bytes);
      PrependPrepend(mid[|before|..], out.bytes[|mid|..],
        SerializeElements(Earlier, message, i, j + 1, level, visitedMessages.levels));
      j := j + 1;
    }
    PrependNothing(out.bytes[|before|..], visitedMessages.levels);
    o := Pass;
  }

  /**
    A field holding one value that is not a message: `appendPrefix`, then
    `append`. A payload that fails leaves the key written before it.
   */
  method AppendKeyAndValue(out: ByteStream, field: Field) returns (o: Outcome)
    requires !field.value.List?
    requires out.Valid()
    modifies out
    ensures out.Valid()
    ensures o.Pass? ==> ScalarField(Earlier, field).Ok? && out.bytes == old(out.bytes) + ScalarField(Earlier, field).value
    ensures o.Fail? ==> o.error == OutOfMemory || ScalarField(Earlier, field) == Err(o.error)
    ensures ScalarField(Earlier, field).Ok? && |old(out.bytes)| + |ScalarField(Earlier, field).value| <= MaxArrayLength ==> o.Pass?
  {
    KeyThenPayload(Earlier, field);
    o := AppendPrefix(out, field.protobufType, field.fieldNumber);
    if o.Fail? {
      return;
    }
    o := Append(out, field.protobufType, field.value);
    if o.Pass? {
      AppendAssoc(old(out.bytes), Tag(Earlier, field.protobufType, field.fieldNumber).value,
        Payload(Earlier, field.protobufType, field.value).value);
    }
  }

  /**
    Object `j` of the `MESSAGE` field `i` (the value itself for a single
    message): serialised into a new stream at `level` with a new
    field-number set, then, if it wrote anything, appended as a
    length-delimited `BYTES` record.
   */
  method SerializeNestedMessage(out: ByteStream, message: Value, i: nat, j: nat, level: int,
                                visitedMessages: VisitedMessages)
    returns (o: Outcome)
    requires i < |FieldsOf(message)| && j < |ElementsOf(FieldsOf(message)[i].value)|
    requires out.Valid()
    modifies out, visitedMessages
    ensures out.Valid()
    ensures o.Pass? ==> (
      && old(out.bytes) <= out.bytes
      && SerializeElements(Earlier, message, i, j, level, old(visitedMessages.levels))
         == Prepend(out.bytes[|old(out.bytes)|..], SerializeElements(Earlier, message, i, j + 1, level, visitedMessages.levels)))
    ensures o.Fail? ==> (
      || o.error == OutOfMemory
      || SerializeElements(Earlier, message, i, j, level, old(visitedMessages.levels)) == Err(o.error))
    ensures var spec := SerializeElements(Earlier, message, i, j, level, old(visitedMessages.levels));
      spec.Ok? && |old(out.bytes)| + |spec.value.bytes| <= MaxArrayLength ==> o.Pass?
    decreases message, 0
  {
    var field := FieldsOf(message)[i];
    var iteratedValue := ElementsOf(field.value)[j];
    assert iteratedValue < message by {
      assert field in message.fields;
      if field.value.List? {
        assert iteratedValue in field.value.elems;
      }
    }
    ghost var levels := visitedMessages.levels;
    var nestedStream := new ByteStream();
    var nestedMessage := SerializeInto(nestedStream, iteratedValue, level, visitedMessages, {});
    if nestedMessage.Err? {
      return Fail(nestedMessage.error);
    }
    assert nestedMessage.value == nestedStream.bytes[0..];
    var content := nestedMessage.value;
    assert SerializeObject(Earlier, iteratedValue, level, levels, {}) == Ok(Walk(content, visitedMessages.levels));
    o := AppendEmbedded(out, field.fieldNumber, content);
  }

  /** A nested message's bytes, if there are any, as a length-delimited `BYTES` record under `fieldNumber`. */
  method AppendEmbedded(out: ByteStream, fieldNumber: int32, content: ByteArray) returns (o: Outcome)
    requires out.Valid()
    modifies out
    ensures out.Valid()
    ensures Wrote(o, Embedded(Earlier, fieldNumber, content), old(out.bytes), out.bytes)
  {
    if |content| == 0 {
      return Pass;
    }
    EmbeddedNonEmpty(Earlier, fieldNumber, content);
    o := AppendPrefix(out, BYTES, fieldNumber);
    if o.Fail? {
      return;
    }
    o := AppendLengthDelimited(out, content);
    if o.Pass? {
      AppendAssoc(old(out.bytes), Tag(Earlier, BYTES, fieldNumber).value, LengthDelimited(content));
    }
  }

  /**
    A list in a field that is not `MESSAGE`: its non-null elements are
    appended without keys to a new stream, which, if not empty, becomes one
    length-delimited `BYTES` record.
   */
  method AppendPacked(out: ByteStream, protobufType: ProtobufType, fieldNumber: int32, value: Value)
    returns (o: Outcome)
    requires out.Valid() && value.List?
    modifies out
    ensures out.Valid()
    ensures Wrote(o, ScalarField(Earlier, Field(fieldNumber, protobufType, value)), old(out.bytes), out.bytes)
  {
    var iterableBytes;
    o, iterableBytes := PackValues(protobufType, value.elems);
    if o.Fail? {
      return;
    }
    if iterableBytes.Size() > 0 {
      o := AppendEmbedded(out, fieldNumber, iterableBytes.ToByteArray());
    } else {
      AppendNothing(out.bytes);
    }
  }

  /**
    The loop of `appendPacked`: the non-null elements of `values` appended
    without keys to a new stream, which is the result. Runs out of array
    space only if the packed bytes are longer than one array.
   */
  method PackValues(protobufType: ProtobufType, values: seq<Value>) returns (o: Outcome, iterableBytes: ByteStream)
    ensures fresh(iterableBytes) && iterableBytes.Valid()
    ensures o.Pass? ==> Packed(Earlier, protobufType, values) == Ok(iterableBytes.bytes)
    ensures o.Fail? ==> o.error == OutOfMemory || Packed(Earlier, protobufType, values) == Err(o.error)
    ensures Packed(Earlier, protobufType, values).Ok? && |Packed(Earlier, protobufType, values).value| <= MaxArrayLength ==> o.Pass?
  {
    iterableBytes := new ByteStream();
    var j := 0;
    while j < |values|
      invariant 0 <= j <= |values|
      invariant iterableBytes.Valid() && fresh(iterableBytes)
      invariant Packed(Earlier, protobufType, values[..j]) == Ok(iterableBytes.bytes)
      decreases |values| - j
    {
      PackedPrefixStep(Earlier, protobufType, values, j);
      if Packed(Earlier, protobufType, values).Ok? {
        PackedElementFits(Earlier, protobufType, values, j, iterableBytes.bytes);
      }
      var iteratedValue := values[j];
      if iteratedValue.Null? {
        AppendNothing(iterableBytes.bytes);
      } else {
        o := Append(iterableBytes, protobufType, iteratedValue);
        if o.Fail? {
          if o.error != OutOfMemory {
            PackedPrefixFails(Earlier, protobufType, values, j);
          }
          return;
        }
      }
      j := j + 1;
    }
    assert values[..j] == values;
    o := Pass;
  }

  /**
    `append`: the payload of `value` for a field of type `protobufType`,
    after the cast the type calls for; `MESSAGE` has no case.
   */
  method Append(out: ByteStream, protobufType: ProtobufType, value: Value) returns (o: Outcome)
    requires out.Valid()
    modifies out
    ensures out.Valid()
    ensures Wrote(o, Payload(Earlier, protobufType, value), old(out.bytes), out.bytes)
  {
    match protobufType
    case DOUBLE =>
      if value.F64Bits? { o := AppendFixed64(out, value.bits64); } else { o := Fail(CastFailure(value).error); }
    case FLOAT =>
      if value.F32Bits? { o := AppendFixed32(out, value.bits32); } else { o := Fail(CastFailure(value).error); }
    case INT32 =>
      if value.I32? { o := AppendVarint(out, value.i); } else { o := Fail(CastFailure(value).error); }
    case UINT32 =>
      if value.I32? { o := AppendVarint(out, value.i); } else { o := Fail(CastFailure(value).error); }
    case SINT32 =>
      if value.I32? { o := AppendVarint(out, value.i); } else { o := Fail(CastFailure(value).error); }
    case INT64 =>
      if value.I64? { o := AppendVarint(out, value.l); } else { o := Fail(CastFailure(value).error); }
    case UINT64 =>
      if value.I64? { o := AppendVarint(out, value.l); } else { o := Fail(CastFailure(value).error); }
    case SINT64 =>
      if value.I64? { o := AppendVarint(out, value.l); } else { o := Fail(CastFailure(value).error); }
    case SFIXED32 =>
      if value.I32? { o := AppendFixed32(out, value.i); } else { o := Fail(CastFailure(value).error); }
    case FIXED32 =>
      if value.I32? { o := AppendFixed32(out, value.i); } else { o := Fail(CastFailure(value).error); }
    case SFIXED64 =>
      if value.I64? { o := AppendFixed64(out, value.l); } else { o := Fail(CastFailure(value).error); }
    case FIXED64 =>
      if value.I64? { o := AppendFixed64(out, value.l); } else { o := Fail(CastFailure(value).error); }
    case BOOL =>
      if value.Bool? { o := AppendVarint(out, if value.b then 1 else 0); } else { o := Fail(CastFailure(value).error); }
    case STRING =>
      if value.Str? {
        o := AppendLengthDelimitedString(out, Some(value.s));
      } else if value.Null? {
        o := AppendLengthDelimitedString(out, None);
      } else {
        o := Fail(ClassCast);
      }
    case BYTES =>
      if value.Bytes? { o := AppendLengthDelimited(out, value.data); } else { o := Fail(CastFailure(value).error); }
    case MESSAGE =>
      o := Pass;
  }

  /**
    `appendLengthDelimited(byteStream, String)`: nothing for `null` or
    `""`; otherwise the UTF-8 encoder's whole backing array, the unused
    zero bytes at its end included.
   */
  method AppendLengthDelimitedString(out: ByteStream, s: Option<EncodedString>) returns (o: Outcome)
    requires out.Valid()
    modifies out
    ensures out.Valid()
    ensures Wrote(o, Ok(LengthDelimitedString(Earlier, if s.Some? then Some(s.value) else None)),
      old(out.bytes), out.bytes)
  {
    if s.None? || |s.value.utf8| == 0 {
      return Pass;
    }
    var backing: ByteArray := s.value.utf8 + Repeat(0, s.value.spare);
    o := AppendLengthDelimited(out, backing);
  }

  /** `appendLengthDelimited(byteStream, byte[])`: the array's length as a varint, then the array. */
  method AppendLengthDelimited(out: ByteStream, data: ByteArray) returns (o: Outcome)
    requires out.Valid()
    modifies out
    ensures out.Valid()
    ensures Wrote(o, Ok(LengthDelimited(data)), old(out.bytes), out.bytes)
  {
    o := AppendVarint(out, |data|);
    if o.Fail? {
      return;
    }
    o := out.Write(data);
  }

  /** `appendFixed32`, for an `int` or a `float`'s bits: four bytes in `ByteBuffer`'s big-endian order. */
  method AppendFixed32(out: ByteStream, x: int32) returns (o: Outcome)
    requires out.Valid()
    modifies out
    ensures out.Valid()
    ensures Wrote(o, Ok(Fixed32(FixedOrder(Earlier), x)), old(out.bytes), out.bytes)
  {
    o := out.Write(Fixed32(Big, x));
  }

  /** `appendFixed64`, for a `long` or a `double`'s bits: eight bytes in `ByteBuffer`'s big-endian order. */
  method AppendFixed64(out: ByteStream, x: int64) returns (o: Outcome)
    requires out.Valid()
    modifies out
    ensures out.Valid()
    ensures Wrote(o, Ok(Fixed64(FixedOrder(Earlier), x)), old(out.bytes), out.bytes)
  {
    o := out.Write(Fixed64(Big, x));
  }

  /**
    `appendPrefix`: a field number outside [1, 30] is refused before
    anything is written; `MESSAGE` has no wire type and the `null` is
    dereferenced; otherwise `(fieldNumber << 3) + wireTypeId` as a varint.
   */
  method AppendPrefix(out: ByteStream, protobufType: ProtobufType, fieldNumber: int32) returns (o: Outcome)
    requires out.Valid()
    modifies out
    ensures out.Valid()
    ensures Wrote(o, Tag(Earlier, protobufType, fieldNumber), old(out.bytes), out.bytes)
  {
    if fieldNumber > MaxFieldNumber(Earlier) || fieldNumber < MinFieldNumber {
      return Fail(InvalidFieldNumber(fieldNumber));
    }
    var wireType := GetWireType(protobufType);
    if wireType.None? {
      return Fail(NullPointer);
    }
    var valueToEncode := Key(fieldNumber, wireType.value);
    o := AppendVarint(out, valueToEncode);
  }

  /** `getEmptyBitSet`: `BitSet.valueOf(new byte[]{0x80})`, the byte with only its continuation bit. */
  function GetEmptyBitSet(): (bs: seq<bool>)
    ensures |bs| == 8 && bs[7] && forall k :: 0 <= k < 7 ==> !bs[k]
    ensures ToByteArray(bs) == [0x80]
  {
    var bs := Zeros(7) + [true];
    assert BitsValue(bs) == 0x80 by {
      BitsValueAppend(Zeros(7), [true]);
      BitsValueAllClear(Zeros(7));
      Pow2Values();
      assert BitsValue([true]) == 1 + 2 * BitsValue([true][1..]);
      assert [true][1..] == [];
    }
    bs
  }

  /**
    `getLeadingZeros`: scans the pattern of `value` from bit 63 down with a
    one-bit mask, counting clear bits until the first set one; 64 for zero.
   */
  method GetLeadingZeros(value: int64) returns (count: nat)
    ensures count == NumberOfLeadingZeros(value)
    ensures count <= 64
  {
    var u := Unsigned64(value);
    var bitMask: nat := 0x8000_0000_0000_0000;
    count := 0;
    var i := 0;
    assert u < Pow2(64 - i) && bitMask == Pow2(63 - i) by {
      Pow2Long();
    }
    while i < 64
      invariant 0 <= i <= 64 && count == i
      invariant u < Pow2(64 - i)
      invariant i < 64 ==> bitMask == Pow2(63 - i)
      decreases 64 - i
    {
      var isZero := And(u, bitMask) == 0;
      assert isZero == (u < Pow2(63 - i)) && (i < 63 ==> bitMask / 2 == Pow2(62 - i)) by {
        MaskTopBit(u, i, bitMask);
      }
      if isZero {
        count := count + 1;
        bitMask := bitMask / 2;
      } else {
        break;
      }
      i := i + 1;
    }
    assert count == NumberOfLeadingZeros(value) by {
      BitLengthUnique(u, 64 - count);
    }
  }

  /**
    `appendVarint`, the earlier way: zero is the single byte 0; otherwise
    the bits of the `long` up to its highest one bit are copied one at a
    time into a `BitSet` that starts as 0x80, which is written and renewed
    after every seventh bit, and written with bit 7 cleared after the last.
   */
  method AppendVarint(out: ByteStream, x: int64) returns (o: Outcome)
    requires out.Valid()
    modifies out
    ensures out.Valid()
    ensures Wrote(o, Ok(VarintOfLong(x)), old(out.bytes), out.bytes)
  {
    var inputBitMask: nat := 1;
    if x == 0 {
      o := out.Write([0]);
      return;
    }
    var u := Unsigned64(x);
    ghost var varint := Varint(u);
    var numLeadingZeros := GetLeadingZeros(x);
    var lastIdx := 64 - numLeadingZeros;
    assert lastIdx == BitLength(u) && lastIdx > 0;
    var curByte := GetEmptyBitSet();
    var i := 0;
    ghost var k := 0;
    o := Pass;
    AppendNothing(out.bytes);
    while i < lastIdx
      invariant 0 <= i <= lastIdx && 7 * k <= i && k <= |varint|
      invariant out.Valid()
      invariant i < lastIdx ==> (
        && i < 7 * k + 7 && 7 * k < lastIdx
        && out.bytes == old(out.bytes) + varint[..k]
        && inputBitMask == Pow2(i)
        && curByte == CopiedBits(BitsOf(u, 64), 7 * k, i - 7 * k))
      invariant i == lastIdx ==> out.bytes == old(out.bytes) + varint
      decreases lastIdx - i
    {
      o, curByte, inputBitMask, k := CopyStep(out, curByte, u, inputBitMask, i, lastIdx, k, old(out.bytes));
      if o.Fail? {
        return;
      }
      i := i + 1;
    }
    o := Pass;
  }

  /**
    The body of the copy loop for bit `i`: copy it into `curByte`; after
    the last bit write the top group with bit 7 cleared; after a seventh
    bit write the full group and start a new empty `BitSet`. `k` groups,
    the first `k` bytes of the varint, were written before.
   */
  method CopyStep(out: ByteStream, curByte: seq<bool>, u: nat, inputBitMask: nat, i: nat, lastIdx: nat,
                  ghost k: nat, ghost start: seq<byte>)
    returns (o: Outcome, nextByte: seq<bool>, nextMask: nat, ghost nextK: nat)
    requires out.Valid()
    requires lastIdx == BitLength(u) <= 64 && 7 * k <= i < lastIdx && i < 7 * k + 7
    requires k <= |Varint(u)| && out.bytes == start + Varint(u)[..k]
    requires inputBitMask == Pow2(i) && curByte == CopiedBits(BitsOf(u, 64), 7 * k, i - 7 * k)
    modifies out
    ensures out.Valid()
    ensures o.Fail? ==> o.error == OutOfMemory
    ensures |start| + |Varint(u)| <= MaxArrayLength ==> o.Pass?
    ensures o.Pass? ==> 7 * nextK <= i + 1 && nextK <= |Varint(u)|
    ensures o.Pass? && i + 1 == lastIdx ==> out.bytes == start + Varint(u)
    ensures o.Pass? && i + 1 < lastIdx ==> (
      && i + 1 < 7 * nextK + 7 && 7 * nextK < lastIdx
      && out.bytes == start + Varint(u)[..nextK]
      && nextMask == Pow2(i + 1)
      && nextByte == CopiedBits(BitsOf(u, 64), 7 * nextK, i + 1 - 7 * nextK))
  {
    var curByteOffset := i % 7;
    assert curByteOffset == i - 7 * k by {
      DivModUnique(i, 7, k, i - 7 * k);
    }
    var isLastBit := i == lastIdx - 1;
    nextByte, nextMask := CopyBit(curByte, curByteOffset, u, inputBitMask, i, 7 * k);
    nextK := k;
    o := Pass;
    if isLastBit {
      nextByte := SetBit(nextByte, 7, false);
      o := EmitLastByte(out, nextByte, u, k, start);
    } else if curByteOffset == 6 {
      o := EmitFullByte(out, nextByte, u, k, start);
      nextByte := GetEmptyBitSet();
      nextK := k + 1;
      assert i + 1 - 7 * nextK == 0;
    } else {
      assert i + 1 - 7 * nextK == curByteOffset + 1;
    }
  }

  /** A full group written after the first `k` bytes of the varint gives its first `k + 1`. */
  method EmitFullByte(out: ByteStream, curByte: seq<bool>, ghost u: nat, ghost k: nat, ghost start: seq<byte>)
    returns (o: Outcome)
    requires out.Valid()
    requires BitLength(u) <= 64 && 7 * k + 7 < BitLength(u)
    requires curByte == CopiedBits(BitsOf(u, 64), 7 * k, 7)
    requires k <= |Varint(u)| && out.bytes == start + Varint(u)[..k]
    modifies out
    ensures out.Valid() && k < |Varint(u)|
    ensures o.Pass? ==> out.bytes == start + Varint(u)[..k + 1]
    ensures o.Fail? ==> o.error == OutOfMemory
    ensures |start| + |Varint(u)| <= MaxArrayLength ==> o.Pass?
  {
    o := WriteFullByte(out, curByte, u, k);
    if o.Pass? {
      TakeOneMore(start, Varint(u), k);
    }
  }

  /** The top group written after the first `k` bytes of the varint completes it. */
  method EmitLastByte(out: ByteStream, curByte: seq<bool>, ghost u: nat, ghost k: nat, ghost start: seq<byte>)
    returns (o: Outcome)
    requires out.Valid()
    requires BitLength(u) <= 64 && 7 * k < BitLength(u) <= 7 * k + 7
    requires curByte == SetBit(CopiedBits(BitsOf(u, 64), 7 * k, BitLength(u) - 7 * k), 7, false)
    requires k <= |Varint(u)| && out.bytes == start + Varint(u)[..k]
    modifies out
    ensures out.Valid()
    ensures o.Pass? ==> out.bytes == start + Varint(u)
    ensures o.Fail? ==> o.error == OutOfMemory
    ensures |start| + |Varint(u)| <= MaxArrayLength ==> o.Pass?
  {
    o := WriteLastByte(out, curByte, u, k);
    if o.Pass? {
      TakeLast(start, Varint(u), k);
    }
  }

  /**
    One step of the copy: `curByte.set(curByteOffset, (in & inputBitMask) != 0)`
    followed by `inputBitMask <<= 1`; bit `i` of the `long` is bit
    `curByteOffset` of the group starting at bit `g`.
   */
  method CopyBit(curByte: seq<bool>, curByteOffset: nat, u: nat, inputBitMask: nat, i: nat, ghost g: nat)
    returns (next: seq<bool>, nextMask: nat)
    requires i < 64 && curByteOffset == i - g && curByteOffset < 7
    requires inputBitMask == Pow2(i) && curByte == CopiedBits(BitsOf(u, 64), g, curByteOffset)
    ensures next == CopiedBits(BitsOf(u, 64), g, curByteOffset + 1)
    ensures i + 1 < 64 ==> nextMask == Pow2(i + 1)
  {
    var maskedInput := And(u, inputBitMask);
    AndSingleBit(u, i);
    BitsOfAt(u, 64, i);
    next := SetBit(curByte, curByteOffset, maskedInput != 0);
    nextMask := ShiftLeftOne(inputBitMask);
    ShiftMask(i, inputBitMask);
  }

  /** `byteStream.write(curByte.toByteArray())` for a full group: byte `k` of the varint, not its last. */
  method WriteFullByte(out: ByteStream, curByte: seq<bool>, ghost u: nat, ghost k: nat) returns (o: Outcome)
    requires out.Valid()
    requires BitLength(u) <= 64 && 7 * k + 7 < BitLength(u)
    requires curByte == CopiedBits(BitsOf(u, 64), 7 * k, 7)
    modifies out
    ensures out.Valid() && k < |Varint(u)|
    ensures Wrote(o, Ok([Varint(u)[k]]), old(out.bytes), out.bytes)
  {
    FullGroupByte(u, k, curByte);
    o := out.Write(ToByteArray(curByte));
  }

  /** `byteStream.write(curByte.toByteArray())` for the top group, bit 7 cleared: the varint's last byte. */
  method WriteLastByte(out: ByteStream, curByte: seq<bool>, ghost u: nat, ghost k: nat) returns (o: Outcome)
    requires out.Valid()
    requires BitLength(u) <= 64 && 7 * k < BitLength(u) <= 7 * k + 7
    requires curByte == SetBit(CopiedBits(BitsOf(u, 64), 7 * k, BitLength(u) - 7 * k), 7, false)
    modifies out
    ensures out.Valid() && k == |Varint(u)| - 1
    ensures Wrote(o, Ok([Varint(u)[k]]), old(out.bytes), out.bytes)
  {
    TopGroupByte(u, k, curByte);
    o := out.Write(ToByteArray(curByte));
  }

  /** Seven copied bits with bit 7 still set are byte `k` of the varint. */
  lemma FullGroupByte(u: nat, k: nat, curByte: seq<bool>)
    requires BitLength(u) <= 64 && 7 * k + 7 < BitLength(u)
    requires curByte == CopiedBits(BitsOf(u, 64), 7 * k, 7)
    ensures k < |Varint(u)| && ToByteArray(curByte) == [Varint(u)[k]]
  {
    CopiedBitsHold(BitsOf(u, 64), 7 * k, 7);
    MiddleByteBits(u, k, curByte);
  }

  /** The copied top group with bit 7 cleared is the varint's last byte. */
  lemma TopGroupByte(u: nat, k: nat, curByte: seq<bool>)
    requires BitLength(u) <= 64 && 7 * k < BitLength(u) <= 7 * k + 7
    requires curByte == SetBit(CopiedBits(BitsOf(u, 64), 7 * k, BitLength(u) - 7 * k), 7, false)
    ensures k == |Varint(u)| - 1 && ToByteArray(curByte) == [Varint(u)[k]]
  {
    CopiedBitsHold(BitsOf(u, 64), 7 * k, BitLength(u) - 7 * k);
    LastByteBits(u, k, curByte);
  }

  /**
    The `BitSet` holds the first `n` bits of the group of `bits` starting at
    position `g` in its low positions, and its other positions below 7 are clear.
   */
  predicate GroupSoFar(bs: seq<bool>, bits: seq<bool>, g: nat, n: nat)
  {
    && |bs| == 8 && n <= 7 && g + n <= |bits|
    && (forall m :: 0 <= m < n ==> bs[m] == bits[g + m])
    && (forall m :: n <= m < 7 ==> !bs[m])
  }

  /**
    The `BitSet` after the first `n` bits of the group of `bits` starting at
    position `g` were copied, one `set` at a time, into an empty one.
   */
  function CopiedBits(bits: seq<bool>, g: nat, n: nat): (bs: seq<bool>)
    requires n <= 7 && g + n <= |bits|
  {
    if n == 0 then GetEmptyBitSet() else SetBit(CopiedBits(bits, g, n - 1), n - 1, bits[g + n - 1])
  }

  /** The copied bits are the group's, the positions not yet copied are clear, and bit 7 is still set. */
  lemma {:induction false} CopiedBitsHold(bits: seq<bool>, g: nat, n: nat)
    requires n <= 7 && g + n <= |bits|
    ensures GroupSoFar(CopiedBits(bits, g, n), bits, g, n) && CopiedBits(bits, g, n)[7]
  {
    if n > 0 {
      CopiedBitsHold(bits, g, n - 1);
    }
  }

  /** `inputBitMask <<= 1` on the one-bit mask `2^i` of a `long`: `2^(i+1)`, or 0 once shifted out. */
  lemma ShiftMask(i: nat, mask: nat)
    requires i < 64 && mask == Pow2(i)
    ensures i + 1 < 64 ==> ShiftLeftOne(mask) == Pow2(i + 1)
  {
    if i + 1 < 64 {
      Pow2Wide();
      Pow2Monotone(i + 2, 64);
      assert mask * 2 == Pow2(i + 1) < Pow2(i + 2);
      DivModUnique(Pow2(i + 1), 0x1_0000_0000_0000_0000, 0, Pow2(i + 1));
    }
  }

  /** A `BitSet` holding the first `n` bits of a group and `top` at position 7 is those bits with `top` set at 7. */
  lemma GroupIsTopped(bs: seq<bool>, bits: seq<bool>, g: nat, n: nat, top: bool)
    requires GroupSoFar(bs, bits, g, n) && bs[7] == top
    ensures bs == SetBit(bits[g..g + n], 7, top)
  {
    var topped := SetBit(bits[g..g + n], 7, top);
    forall m | 0 <= m < 8
      ensures topped[m] == bs[m]
    {
    }
  }

  /** A full group in the `BitSet`, bit 7 still set, is byte `k` of the varint, which is not its last. */
  lemma MiddleByteBits(u: nat, k: nat, bs: seq<bool>)
    requires BitLength(u) <= 64 && 7 * k + 7 < BitLength(u)
    requires GroupSoFar(bs, BitsOf(u, 64), 7 * k, 7) && bs[7]
    ensures k < |Varint(u)| && ToByteArray(bs) == [Varint(u)[k]]
  {
    var g := 7 * k;
    assert g / 7 == k && g % 7 == 0 by { DivModUnique(g, 7, k, 0); }
    GroupIsTopped(bs, BitsOf(u, 64), g, 7, true);
    MiddleGroupByte(u, g);
  }

  /** The top group in the `BitSet`, bit 7 cleared, is the varint's last byte. */
  lemma LastByteBits(u: nat, k: nat, bs: seq<bool>)
    requires BitLength(u) <= 64 && 7 * k < BitLength(u) <= 7 * k + 7
    requires GroupSoFar(bs, BitsOf(u, 64), 7 * k, BitLength(u) - 7 * k) && !bs[7]
    ensures k == |Varint(u)| - 1 && ToByteArray(bs) == [Varint(u)[k]]
  {
    var g := 7 * k;
    assert g / 7 == k && g % 7 == 0 by { DivModUnique(g, 7, k, 0); }
    GroupIsTopped(bs, BitsOf(u, 64), g, BitLength(u) - g, false);
    LastGroupByte(u, g);
  }
}
