/**
  The current encoder (serialize/src) as the imperative code it is: one
  `ByteStream` per message, a `VisitedMessages` shared by the whole call,
  and static `append*` methods that write into a stream. Each method is
  proved to do what the message-walk and wire-encoding functions say the
  current revision does, except that a write may find the stream full
  (`OutOfMemory`), which happens only when the bytes specified do not fit.
 */
module ProtobufSerializer {
  import opened ProtoTypes
  import opened Bits
  import opened VarintCodec
  import opened FixedWidth
  import opened WireTypes
  import opened TypeMapper
  import opened WireEncoding
  import opened Visits
  import opened MessageWalk
  import opened Streams
  import opened JavaBits

  /** `serialize(message)`: level 0, an empty visit map, a new stream. */
  method Serialize(message: Value) returns (r: Result<ByteArray>)
    ensures r.Ok? ==> SerializeMessage(Current, message).Ok? && SerializeMessage(Current, message).value == r.value
    ensures r.Err? ==> r.error == OutOfMemory || SerializeMessage(Current, message) == Err(r.error)
    ensures SerializeMessage(Current, message).Ok? && |SerializeMessage(Current, message).value| <= MaxArrayLength ==> r.Ok?
  {
    var byteStream := new ByteStream();
    var visitedMessages := new VisitedMessages();
    r := SerializeInto(byteStream, message, 0, visitedMessages, {});
    if r.Ok? {
      assert r.value[0..] == r.value;
    }
  }

  /**
    `serialize(byteStream, message, numLevel, visitedMessages, visitedFieldNumbers)`:
    the fields of `message` appended to `out`, whose whole content is the result.
   */
  method SerializeInto(out: ByteStream, message: Value, numLevel: int,
                       visitedMessages: VisitedMessages, visitedFieldNumbers: set<int>)
    returns (r: Result<ByteArray>)
    requires out.Valid()
    modifies out, visitedMessages
    ensures out.Valid()
    ensures r.Ok? ==> r.value == out.bytes
    ensures Performed(if r.Ok? then Pass else Fail(r.error),
      SerializeObject(Current, message, numLevel, old(visitedMessages.levels), visitedFieldNumbers),
      old(out.bytes), out.bytes, visitedMessages.levels)
    decreases message, 5
  {
    if message.Null? {
      return Err(NullPointer);
    }
    var className := RuntimeClass(message);
    visitedMessages.MarkClassAsVisited(className, numLevel);
    var circular := visitedMessages.IsCircularReference(className, numLevel);
    if circular {
      return Err(CircularReference(className));
    }
    var o := SerializeFieldsInto(out, message, numLevel, visitedMessages, visitedFieldNumbers);
    if o.Fail? {
      return Err(o.error);
    }
    r := Ok(out.ToByteArray());
  }

  /** The field loop of `serialize`: each annotated field of `message` in turn, from level `numLevel`. */
  method SerializeFieldsInto(out: ByteStream, message: Value, numLevel: int,
                             visitedMessages: VisitedMessages, visitedFieldNumbers: set<int>)
    returns (o: Outcome)
    requires out.Valid()
    modifies out, visitedMessages
    ensures out.Valid()
    ensures Performed(o, SerializeFields(Current, message, 0, numLevel, old(visitedMessages.levels), visitedFieldNumbers),
      old(out.bytes), out.bytes, visitedMessages.levels)
    decreases message, 4
  {
    ghost var before := out.bytes;
    ghost var spec := SerializeFields(Current, message, 0, numLevel, visitedMessages.levels, visitedFieldNumbers);
    var fields := FieldsOf(message);
    var level := numLevel;
    var seen := visitedFieldNumbers;
    var i := 0;
    assert out.bytes[|before|..] == [];
    while i < |fields|
      invariant 0 <= i <= |fields|
      invariant out.Valid() && before <= out.bytes
      invariant spec == Prepend(out.bytes[|before|..], SerializeFields(Current, message, i, level, visitedMessages.levels, seen))
      decreases |fields| - i
    {
      var field := fields[i];
      if field.fieldNumber in seen {
        return Fail(DuplicateFieldNumber(field.fieldNumber));
      }
      ghost var seenBefore := seen;
      seen := seen + {field.fieldNumber};
      ghost var mid := out.bytes;
      o, level := SerializeFieldAt(out, message, i, level, visitedMessages, seenBefore, out.bytes[|before|..]);
      if o.Fail? {
        return;
      }
      PrefixPrefix(before, mid, out.bytes);
      i := i + 1;
    }
    PrependNothing(out.bytes[|before|..], visitedMessages.levels);
    o := Pass;
  }

  /**
    One field of the loop once its number is known to be new: a `null`
    value is skipped, any other is written. `done` is what the loop wrote
    before it.
   */
  method SerializeFieldAt(out: ByteStream, message: Value, i: nat, level: int, visitedMessages: VisitedMessages,
                          ghost seen: set<int>, ghost done: seq<byte>)
    returns (o: Outcome, nextLevel: int)
    requires i < |FieldsOf(message)| && FieldsOf(message)[i].fieldNumber !in seen
    requires out.Valid()
    modifies out, visitedMessages
    ensures out.Valid()
    ensures o.Pass? ==> (
      && old(out.bytes) <= out.bytes
      && Prepend(done, SerializeFields(Current, message, i, level, old(visitedMessages.levels), seen))
         == Prepend(done + out.bytes[|old(out.bytes)|..],
              SerializeFields(Current, message, i + 1, nextLevel, visitedMessages.levels, seen + {FieldsOf(message)[i].fieldNumber})))
    ensures o.Fail? ==> (
      || o.error == OutOfMemory
      || SerializeFields(Current, message, i, level, old(visitedMessages.levels), seen) == Err(o.error))
    ensures var spec := SerializeFields(Current, message, i, level, old(visitedMessages.levels), seen);
      spec.Ok? && |old(out.bytes)| + |spec.value.bytes| <= MaxArrayLength ==> o.Pass?
    decreases message, 3
  {
    var field := FieldsOf(message)[i];
    if field.value.Null? {
      nextLevel := level;
      FieldsSkip(Current, message, i, level, visitedMessages.levels, seen, done);
      assert out.bytes[|out.bytes|..] == [];
      AppendNothing(done);
      o := Pass;
      return;
    }
    o, nextLevel := SerializePresentField(out, message, i, level, visitedMessages);
    if o.Fail? {
      if o.error != OutOfMemory {
        FieldsFail(Current, message, i, level, old(visitedMessages.levels), seen, o.error);
      }
      return;
    }
    FieldsAdvance(Current, message, i, level, old(visitedMessages.levels), seen, done,
      Step(out.bytes[|old(out.bytes)|..], nextLevel, visitedMessages.levels));
  }

  /**
    One annotated field whose value is not `null`: the body of the field
    loop after the duplicate check. Returns the level the loop goes on at.
   */
  method SerializePresentField(out: ByteStream, message: Value, i: nat, numLevel: int, visitedMessages: VisitedMessages)
    returns (o: Outcome, nextLevel: int)
    requires i < |FieldsOf(message)| && !FieldsOf(message)[i].value.Null?
    requires out.Valid()
    modifies out, visitedMessages
    ensures out.Valid()
    ensures o.Pass? ==> (
      && old(out.bytes) <= out.bytes
      && SerializeField(Current, message, i, numLevel, old(visitedMessages.levels))
         == Ok(Step(out.bytes[|old(out.bytes)|..], nextLevel, visitedMessages.levels)))
    ensures o.Fail? ==> (
      || o.error == OutOfMemory
      || SerializeField(Current, message, i, numLevel, old(visitedMessages.levels)) == Err(o.error))
    ensures var spec := SerializeField(Current, message, i, numLevel, old(visitedMessages.levels));
      spec.Ok? && |old(out.bytes)| + |spec.value.bytes| <= MaxArrayLength ==> o.Pass?
    decreases message, 2
  {
    var field := FieldsOf(message)[i];
    var value := field.value;
    ghost var before := out.bytes;
    if field.protobufType == MESSAGE {
      nextLevel := numLevel + 1;
      o := SerializeNestedMessages(out, message, i, nextLevel, visitedMessages);
      assert NestedLevel(Current, value, numLevel) == nextLevel;
    } else if value.List? {
      nextLevel := numLevel;
      o := AppendPacked(out, field.protobufType, field.fieldNumber, value);
      assert field == Field(field.fieldNumber, field.protobufType, value);
      if o.Pass? {
        Appended(before, ScalarField(Current, field).value, out.bytes);
      }
    } else {
      nextLevel := numLevel;
      o := AppendKeyAndValue(out, field);
      if o.Pass? {
        Appended(before, ScalarField(Current, field).value, out.bytes);
      }
    }
  }

  /**
    A field holding one value that is not a message: `appendPrefix`, then
    `append`. A payload that fails leaves the key written before it.
   */
  method AppendKeyAndValue(out: ByteStream, field: Field) returns (o: Outcome)
    requires !field.value.List?
    requires out.Valid()
    modifies out
    ensures out.Valid()
    ensures o.Pass? ==> ScalarField(Current, field).Ok? && out.bytes == old(out.bytes) + ScalarField(Current, field).value
    ensures o.Fail? ==> o.error == OutOfMemory || ScalarField(Current, field) == Err(o.error)
    ensures ScalarField(Current, field).Ok? && |old(out.bytes)| + |ScalarField(Current, field).value| <= MaxArrayLength ==> o.Pass?
  {
    KeyThenPayload(Current, field);
    o := AppendPrefix(out, field.protobufType, field.fieldNumber);
    if o.Fail? {
      return;
    }
    o := Append(out, field.protobufType, field.value);
    if o.Pass? {
      AppendAssoc(old(out.bytes), Tag(Current, field.protobufType, field.fieldNumber).value,
        Payload(Current, field.protobufType, field.value).value);
    }
  }

  /**
    The objects of a `MESSAGE` field (the list's elements, or the value as
    a singleton list), each serialised into a new stream at `level` with a
    new field-number set and, if it wrote anything, appended as a
    length-delimited `BYTES` record.
   */
  method SerializeNestedMessages(out: ByteStream, message: Value, i: nat, level: int, visitedMessages: VisitedMessages)
    returns (o: Outcome)
    requires i < |FieldsOf(message)|
    requires out.Valid()
    modifies out, visitedMessages
    ensures out.Valid()
    ensures Performed(o, SerializeElements(Current, message, i, 0, level, old(visitedMessages.levels)),
      old(out.bytes), out.bytes, visitedMessages.levels)
    decreases message, 1
  {
    var field := FieldsOf(message)[i];
    var elements := ElementsOf(field.value);
    ghost var before := out.bytes;
    ghost var spec := SerializeElements(Current, message, i, 0, level, visitedMessages.levels);
    var j := 0;
    assert out.bytes[|before|..] == [];
    while j < |elements|
      invariant 0 <= j <= |elements|
      invariant out.Valid() && before <= out.bytes
      invariant spec == Prepend(out.bytes[|before|..], SerializeElements(Current, message, i, j, level, visitedMessages.levels))
      decreases |elements| - j
    {
      ghost var mid := out.bytes;
      o := SerializeNestedMessage(out, message, i, j, level, visitedMessages);
      if o.Fail? {
        return;
      }
      PrefixPrefix(before, mid, out.bytes);
      PrependPrepend(mid[|before|..], out.bytes[|mid|..],
        SerializeElements(Current, message, i, j + 1, level, visitedMessages.levels));
      j := j + 1;
    }
    PrependNothing(out.bytes[|before|..], visitedMessages.levels);
    o := Pass;
  }

  /**
    Object `j` of the `MESSAGE` field `i`: serialised into a new stream at
    `level` with a new field-number set, then, if it wrote anything,
    appended as a length-delimited `BYTES` record.
   */
  method SerializeNestedMessage(out: ByteStream, message: Value, i: nat, j: nat, level: int,
                                visitedMessages: VisitedMessages)
    returns (o: Outcome)
    requires i < |FieldsOf(message)| && j < |ElementsOf(FieldsOf(message)[i].value)|
    requires out.Valid()
    modifies out, visitedMessages
    ensures out.Valid()
    ensures o.Pass? ==> (
      && old(out.bytes) <= out.bytes
      && SerializeElements(Current, message, i, j, level, old(visitedMessages.levels))
         == Prepend(out.bytes[|old(out.bytes)|..], SerializeElements(Current, message, i, j + 1, level, visitedMessages.levels)))
    ensures o.Fail? ==> (
      || o.error == OutOfMemory
      || SerializeElements(Current, message, i, j, level, old(visitedMessages.levels)) == Err(o.error))
    ensures var spec := SerializeElements(Current, message, i, j, level, old(visitedMessages.levels));
      spec.Ok? && |old(out.bytes)| + |spec.value.bytes| <= MaxArrayLength ==> o.Pass?
    decreases message, 0
  {
    var field := FieldsOf(message)[i];
    var iteratedValue := ElementsOf(field.value)[j];
    assert iteratedValue < message by {
      assert field in message.fields;
      if field.value.List? {
        assert iteratedValue in field.value.elems;
      }
    }
    ghost var levels := visitedMessages.levels;
    var nestedStream := new ByteStream();
    var nestedMessage := SerializeInto(nestedStream, iteratedValue, level, visitedMessages, {});
    if nestedMessage.Err? {
      return Fail(nestedMessage.error);
    }
    assert nestedMessage.value == nestedStream.bytes[0..];
    var content := nestedMessage.value;
    assert SerializeObject(Current, iteratedValue, level, levels, {}) == Ok(Walk(content, visitedMessages.levels));
    o := AppendEmbedded(out, field.fieldNumber, content);
  }

  /** A nested message's bytes, if there are any, as a length-delimited `BYTES` record under `fieldNumber`. */
  method AppendEmbedded(out: ByteStream, fieldNumber: int32, content: ByteArray) returns (o: Outcome)
    requires out.Valid()
    modifies out
    ensures out.Valid()
    ensures Wrote(o, Embedded(Current, fieldNumber, content), old(out.bytes), out.bytes)
  {
    if |content| == 0 {
      return Pass;
    }
    EmbeddedNonEmpty(Current, fieldNumber, content);
    o := AppendPrefix(out, BYTES, fieldNumber);
    if o.Fail? {
      return;
    }
    o := AppendLengthDelimited(out, content);
    if o.Pass? {
      AppendAssoc(old(out.bytes), Tag(Current, BYTES, fieldNumber).value, LengthDelimited(content));
    }
  }

  /**
    A list in a field that is not `MESSAGE`: its non-null elements are
    appended without keys to a new stream, which, if not empty, becomes one
    length-delimited `BYTES` record.
   */
  method AppendPacked(out: ByteStream, protobufType: ProtobufType, fieldNumber: int32, value: Value)
    returns (o: Outcome)
    requires out.Valid() && value.List?
    modifies out
    ensures out.Valid()
    ensures Wrote(o, ScalarField(Current, Field(fieldNumber, protobufType, value)), old(out.bytes), out.bytes)
  {
    var iterableBytes;
    o, iterableBytes := PackValues(protobufType, value.elems);
    if o.Fail? {
      return;
    }
    if iterableBytes.Size() > 0 {
      o := AppendEmbedded(out, fieldNumber, iterableBytes.ToByteArray());
    } else {
      AppendNothing(out.bytes);
    }
  }

  /**
    The loop of `appendPacked`: the non-null elements of `values` appended
    without keys to a new stream, which is the result. Runs out of array
    space only if the packed bytes are longer than one array.
   */
  method PackValues(protobufType: ProtobufType, values: seq<Value>) returns (o: Outcome, iterableBytes: ByteStream)
    ensures fresh(iterableBytes) && iterableBytes.Valid()
    ensures o.Pass? ==> Packed(Current, protobufType, values) == Ok(iterableBytes.bytes)
    ensures o.Fail? ==> o.error == OutOfMemory || Packed(Current, protobufType, values) == Err(o.error)
    ensures Packed(Current, protobufType, values).Ok? && |Packed(Current, protobufType, values).value| <= MaxArrayLength ==> o.Pass?
  {
    iterableBytes := new ByteStream();
    var j := 0;
    while j < |values|
      invariant 0 <= j <= |values|
      invariant iterableBytes.Valid() && fresh(iterableBytes)
      invariant Packed(Current, protobufType, values[..j]) == Ok(iterableBytes.bytes)
      decreases |values| - j
    {
      PackedPrefixStep(Current, protobufType, values, j);
      if Packed(Current, protobufType, values).Ok? {
        PackedElementFits(Current, protobufType, values, j, iterableBytes.bytes);
      }
      o := AppendPackedElement(iterableBytes, protobufType, values[j]);
      if o.Fail? {
        if o.error != OutOfMemory {
          PackedPrefixFails(Current, protobufType, values, j);
        }
        return;
      }
      j := j + 1;
    }
    assert values[..j] == values;
    o := Pass;
  }

  /** One element of a packed list: nothing for `null`, else its payload without a key. */
  method AppendPackedElement(out: ByteStream, protobufType: ProtobufType, value: Value) returns (o: Outcome)
    requires out.Valid()
    modifies out
    ensures out.Valid()
    ensures Wrote(o, PackedElement(Current, protobufType, value), old(out.bytes), out.bytes)
  {
    if value.Null? {
      AppendNothing(out.bytes);
      return Pass;
    }
    o := Append(out, protobufType, value);
  }

  /**
    `append`: the payload of `value` for a field of type `protobufType`,
    after the cast the type calls for; `MESSAGE` has no case.
   */
  method Append(out: ByteStream, protobufType: ProtobufType, value: Value) returns (o: Outcome)
    requires out.Valid()
    modifies out
    ensures out.Valid()
    ensures Wrote(o, Payload(Current, protobufType, value), old(out.bytes), out.bytes)
  {
    match protobufType
    case DOUBLE =>
      if value.F64Bits? { o := AppendFixed64(out, value.bits64); } else { o := Fail(CastFailure(value).error); }
    case FLOAT =>
      if value.F32Bits? { o := AppendFixed32(out, value.bits32); } else { o := Fail(CastFailure(value).error); }
    case INT32 =>
      if value.I32? { o := AppendVarint(out, value.i); } else { o := Fail(CastFailure(value).error); }
    case UINT32 =>
      if value.I32? { o := AppendVarint(out, value.i); } else { o := Fail(CastFailure(value).error); }
    case SINT32 =>
      if value.I32? { o := AppendVarint(out, value.i); } else { o := Fail(CastFailure(value).error); }
    case INT64 =>
      if value.I64? { o := AppendVarint(out, value.l); } else { o := Fail(CastFailure(value).error); }
    case UINT64 =>
      if value.I64? { o := AppendVarint(out, value.l); } else { o := Fail(CastFailure(value).error); }
    case SINT64 =>
      if value.I64? { o := AppendVarint(out, value.l); } else { o := Fail(CastFailure(value).error); }
    case SFIXED32 =>
      if value.I32? { o := AppendFixed32(out, value.i); } else { o := Fail(CastFailure(value).error); }
    case FIXED32 =>
      if value.I32? { o := AppendFixed32(out, value.i); } else { o := Fail(CastFailure(value).error); }
    case SFIXED64 =>
      if value.I64? { o := AppendFixed64(out, value.l); } else { o := Fail(CastFailure(value).error); }
    case FIXED64 =>
      if value.I64? { o := AppendFixed64(out, value.l); } else { o := Fail(CastFailure(value).error); }
    case BOOL =>
      if value.Bool? { o := AppendVarint(out, if value.b then 1 else 0); } else { o := Fail(CastFailure(value).error); }
    case STRING =>
      if value.Str? {
        o := AppendLengthDelimitedString(out, Some(value.s));
      } else if value.Null? {
        o := AppendLengthDelimitedString(out, None);
      } else {
        o := Fail(ClassCast);
      }
    case BYTES =>
      if value.Bytes? { o := AppendLengthDelimited(out, value.data); } else { o := Fail(CastFailure(value).error); }
    case MESSAGE =>
      o := Pass;
  }

  /**
    `appendLengthDelimited(byteStream, String)`: nothing for `null` or
    `""`; otherwise the UTF-8 encoder's bytes, copied out of its backing
    array up to the buffer's limit.
   */
  method AppendLengthDelimitedString(out: ByteStream, s: Option<EncodedString>) returns (o: Outcome)
    requires out.Valid()
    modifies out
    ensures out.Valid()
    ensures Wrote(o, Ok(LengthDelimitedString(Current, if s.Some? then Some(s.value) else None)),
      old(out.bytes), out.bytes)
  {
    if s.None? || |s.value.utf8| == 0 {
      return Pass;
    }
    var stringBuffer := s.value;
    var backing: ByteArray := stringBuffer.utf8 + Repeat(0, stringBuffer.spare);
    var trimmed: ByteArray := backing[..|stringBuffer.utf8|];
    assert trimmed == stringBuffer.utf8;
    o := AppendLengthDelimited(out, trimmed);
  }

  /** `appendLengthDelimited(byteStream, byte[])`: the array's length as a varint, then the array. */
  method AppendLengthDelimited(out: ByteStream, data: ByteArray) returns (o: Outcome)
    requires out.Valid()
    modifies out
    ensures out.Valid()
    ensures Wrote(o, Ok(LengthDelimited(data)), old(out.bytes), out.bytes)
  {
    o := AppendVarint(out, |data|);
    if o.Fail? {
      return;
    }
    o := out.Write(data);
  }

  /** `appendFixed32`, for an `int` or a `float`'s bits: four bytes, little-endian. */
  method AppendFixed32(out: ByteStream, x: int32) returns (o: Outcome)
    requires out.Valid()
    modifies out
    ensures out.Valid()
    ensures Wrote(o, Ok(Fixed32(FixedOrder(Current), x)), old(out.bytes), out.bytes)
  {
    o := out.Write(Fixed32(Little, x));
  }

  /** `appendFixed64`, for a `long` or a `double`'s bits: eight bytes, little-endian. */
  method AppendFixed64(out: ByteStream, x: int64) returns (o: Outcome)
    requires out.Valid()
    modifies out
    ensures out.Valid()
    ensures Wrote(o, Ok(Fixed64(FixedOrder(Current), x)), old(out.bytes), out.bytes)
  {
    o := out.Write(Fixed64(Little, x));
  }

  /**
    `appendPrefix`: a field number outside [1, 2^29 - 1] is refused before
    anything is written; `MESSAGE` has no wire type and the `null` is
    dereferenced; otherwise `(fieldNumber << 3) + wireTypeId` as a varint.
   */
  method AppendPrefix(out: ByteStream, protobufType: ProtobufType, fieldNumber: int32) returns (o: Outcome)
    requires out.Valid()
    modifies out
    ensures out.Valid()
    ensures Wrote(o, Tag(Current, protobufType, fieldNumber), old(out.bytes), out.bytes)
  {
    if fieldNumber > MaxFieldNumber(Current) || fieldNumber < MinFieldNumber {
      return Fail(InvalidFieldNumber(fieldNumber));
    }
    var wireType := GetWireType(protobufType);
    if wireType.None? {
      return Fail(NullPointer);
    }
    var valueToEncode := Key(fieldNumber, wireType.value);
    o := AppendVarint(out, valueToEncode);
  }

  /**
    `appendVarint`: zero is the single byte 0; otherwise the bits of the
    `long` up to its highest one bit, seven at a time from the least
    significant, each group with bit 7 set except the last.
   */
  method AppendVarint(out: ByteStream, x: int64) returns (o: Outcome)
    requires out.Valid()
    modifies out
    ensures out.Valid()
    ensures Wrote(o, Ok(VarintOfLong(x)), old(out.bytes), out.bytes)
  {
    if x == 0 {
      o := out.Write([0]);
      return;
    }
    ghost var u := Unsigned64(x);
    ghost var varint := Varint(u);
    var inAsBitSet := LongBits(x);
    var numLeadingZeros := NumberOfLeadingZeros(x);
    var lastIdx := 64 - numLeadingZeros;
    assert lastIdx == BitLength(u);
    var i := 0;
    ghost var k := 0;
    while i < lastIdx
      invariant i == 7 * k && 0 <= i < lastIdx + 7
      invariant out.Valid()
      invariant k <= |varint| && out.bytes == old(out.bytes) + varint[..k]
      decreases lastIdx - i
    {
      var isLastByte := i + 7 >= lastIdx;
      var lastIdxToCopy := if isLastByte then lastIdx else i + 7;
      var curByte := inAsBitSet[i..lastIdxToCopy];
      curByte := SetBit(curByte, 7, !isLastByte);
      assert ToByteArray(curByte) == [varint[k]] by {
        assert i / 7 == k;
        if isLastByte {
          LastGroupByte(u, i);
        } else {
          MiddleGroupByte(u, i);
        }
      }
      o := out.Write(ToByteArray(curByte));
      if o.Fail? {
        return;
      }
      assert varint[..k + 1] == varint[..k] + [varint[k]];
      i := i + 7;
      k := k + 1;
    }
    assert k == |varint| by {
      VarintLength(u);
      DivModUnique(lastIdx + 6, 7, k, lastIdx + 6 - 7 * k);
    }
    assert varint[..k] == varint;
    o := Pass;
  }
}
