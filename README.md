# protoj serializer, modelled in Dafny

protoj writes Java objects as Protocol Buffers messages without generated
code. A class marks its fields with `@ProtobufField(fieldNumber,
protobufType, getterMethod)`, and `ProtobufSerializer.serialize(message)`
turns an instance into the protobuf wire format:

- every field is written as a key (`fieldNumber << 3 | wireTypeId`, a
  varint) followed by its payload;
- varints carry integers and booleans, fixed-width bytes carry
  `fixed32`/`fixed64`/`float`/`double`, and length-delimited records carry
  strings and byte arrays;
- repeated scalars are packed into one length-delimited record;
- nested messages are serialised on their own and embedded as
  length-delimited records;
- a map from class name to the nesting levels it was entered at is the
  encoder's guard against circular object graphs;
- a field number used twice in one class is refused.

The project models two revisions of the serializer side by side, since
the repository keeps both. `Current` is the serializer under
`serialize/src/main`. `Earlier` is the older copy under `serialize/main`.
The earlier copy differs in these ways:

- it allows field numbers only up to 30, because of `(2 ^ 29) - 1`;
- it writes fixed-width values big-endian;
- it writes the whole backing array of the UTF-8 encoder;
- it builds varints bit by bit with a `BitSet`;
- it nests repeated messages at the current level.

The model also covers `WireType`, the type-to-wire-type table
`TypeMapper`, and `TypeCompatibility`.

Structure:

- `types.dfy` (`ProtoTypes`): the entities.
  - Java `int`/`long` as bounded integers, with explicit two's-complement
    patterns.
  - The sixteen `ProtobufType` constants.
  - Field values as reflection hands them over.
  - The exceptions the encoder throws, as `SerializationError`.
- `wire_type.dfy`, `type_mapper.dfy`, `type_compatibility.dfy`: the three
  lookup classes.
- `varint.dfy`, `fixed_width.dfy`, `encoding.dfy`: the byte-level formats,
  as functions with reference decoders beside them.
  - Each encoding is proved to read back.
  - Keys, payloads, packed lists and embedded records are specified per
    revision.
- `visited_messages.dfy`: the circular-reference map as a class over a
  `map`.
- `byte_stream.dfy`: `ByteArrayOutputStream` as a class whose `bytes` only
  grow.
- `message_walk.dfy`: what `serialize` produces for an object graph, as
  recursive functions of the revision, the value, the level, the visit
  map and the field numbers seen.
- `protobuf_serializer.dfy` and `earlier_protobuf_serializer.dfy`: the two
  serializers as imperative methods over a `ByteStream` and a
  `VisitedMessages`.
  - The field loop, the nested-message loop and the packed loop are each a
    `while` loop.
  - Every method is proved against the functions above.
  - The earlier `appendVarint` copies one bit per iteration through a
    model of `java.util.BitSet` (`java_bits.dfy`, `bits.dfy`).
- `records.dfy`, `record_structure.dfy`: a reader's notion of a
  well-formed sequence of records. The output of `serialize` is proved to
  be one, except when a field holds an empty string.
- `walk_properties.dfy`, `walk_examples.dfy`: properties of the walk and
  its behaviour on the repository's test objects.
- `findings.dfy`: three defects and their corrected counterparts.

The Java methods return `void`, `ByteBuffer` or `BitSet`, or throw. In the
model they return an `Outcome` or a `Result`, and an exception becomes
`Err(...)` with the cause.

`ByteArrayOutputStream` keeps its bytes in one Java array. So a write that
would take it past `Integer.MAX_VALUE` (0x7FFF_FFFF) bytes fails with
`OutOfMemory` and writes nothing. Every encoder method states that it
either did what its function says or ran out of array space, and that it
runs out of array space only when the bytes its function specifies do not
fit in the stream's array after what the stream already holds.

## Model

| member | source | states |
|---|---|---|
| ProtoTypes.ToInt32 | serialize/src/main/java/dev/freemountain/protoj/serialize/ProtobufSerializer.java:264 | Java `int` arithmetic: the result is the exact value modulo 2^32, and is the value itself when that is in range |
| ProtoTypes.Unsigned32 | serialize/src/main/java/dev/freemountain/protoj/serialize/ProtobufSerializer.java:211-220 | the 32-bit two's-complement pattern of an `int`: below 2^32 and congruent to it |
| ProtoTypes.Unsigned64 | serialize/src/main/java/dev/freemountain/protoj/serialize/ProtobufSerializer.java:284 | the 64-bit pattern of a `long`: below 2^64, congruent to it, and at least 2^63 exactly when the `long` is negative |
| WireTypes.WireTypeId | internal/src/main/java/dev/freemountain/protoj/internal/WireType.java:4-17 | every wire type id fits in the three low bits of a key |
| WireTypes.FromWireTypeId | internal/src/main/java/dev/freemountain/protoj/internal/WireType.java:4-7 | only ids below 8 name a wire type |
| WireTypes.WireTypeIdRoundTrip | internal/src/main/java/dev/freemountain/protoj/internal/WireType.java:4-7 | reading a wire type's id back gives that wire type, and an id read back as a wire type is that wire type's id |
| WireTypes.WireTypeIdsDistinct | internal/src/main/java/dev/freemountain/protoj/internal/WireType.java:4-7 | two wire types have the same id exactly when they are the same |
| TypeMapper.GetWireType | internal/src/main/java/dev/freemountain/protoj/internal/TypeMapper.java:12-32 | the table has an entry for every `ProtobufType` except `MESSAGE` |
| TypeMapper.VarintGroup | internal/src/main/java/dev/freemountain/protoj/internal/TypeMapper.java:13-27 | `BOOL`, `INT32`, `INT64`, `UINT32`, `UINT64`, `SINT32` and `SINT64`, and only they, map to `VARINT` |
| TypeMapper.Fixed32Group | internal/src/main/java/dev/freemountain/protoj/internal/TypeMapper.java:16-23 | `FLOAT`, `FIXED32` and `SFIXED32`, and only they, map to `FIXED_32` |
| TypeMapper.Fixed64Group | internal/src/main/java/dev/freemountain/protoj/internal/TypeMapper.java:15-24 | `DOUBLE`, `FIXED64` and `SFIXED64`, and only they, map to `FIXED_64` |
| TypeMapper.LengthDelimitedGroup | internal/src/main/java/dev/freemountain/protoj/internal/TypeMapper.java:14-25 | `STRING` and `BYTES`, and only they, map to `LENGTH_DELIMITED` |
| TypeCompatibility.Check | internal/main/java/dev/freemountain/protoj/internal/TypeCompatibility.java:7-41 | only `BOOL`, `DOUBLE`, `FLOAT`, `INT32`, `INT64` and `STRING` ever accept a class |
| TypeCompatibility.CheckAgreesWithAppend | internal/main/java/dev/freemountain/protoj/internal/TypeCompatibility.java:7-41 | for those six types and any non-null value (a list or message class being none of the names `Check` accepts, as no Java class with that name is an `Iterable` or has annotated fields), the check passes exactly when `append`'s cast succeeds and writes a payload |
| TypeCompatibility.PrimitiveNames | internal/main/java/dev/freemountain/protoj/internal/TypeCompatibility.java:9-20 | each primitive name (`boolean`, `double`, `float`, `int`, `long`) is accepted by its own type and by no other |
| VarintCodec.Varint | serialize/src/main/java/dev/freemountain/protoj/serialize/ProtobufSerializer.java:288-297 | every byte but the last carries the continuation bit; the last does not, and is non-zero for a non-zero value |
| VarintCodec.DecodeVarint | serialize/src/main/java/dev/freemountain/protoj/serialize/ProtobufSerializer.java:268-272 | the reference reader of a varint consumes at least one byte and no more than it was given |
| VarintCodec.VarintRoundTrip | serialize/src/main/java/dev/freemountain/protoj/serialize/ProtobufSerializer.java:273-301 | reading a varint back, whatever follows it, gives the value and the varint's length |
| VarintCodec.VarintInjective | serialize/src/main/java/dev/freemountain/protoj/serialize/ProtobufSerializer.java:273-301 | distinct values have distinct varints |
| VarintCodec.VarintLength | serialize/src/main/java/dev/freemountain/protoj/serialize/ProtobufSerializer.java:284-291 | zero takes one byte; any other value takes one byte per started group of seven significant bits |
| VarintCodec.NegativeLongTakesTenBytes | serialize/src/main/java/dev/freemountain/protoj/serialize/ProtobufSerializer.java:284-286 | a negative `long` is written as ten bytes that read back as its 64-bit pattern |
| VarintCodec.LongTakesAtMostTenBytes | serialize/src/main/java/dev/freemountain/protoj/serialize/ProtobufSerializer.java:273-301 | a `long` never takes more than ten bytes |
| VarintCodec.VarintExamples | serialize/main/test/java/dev/freemountain/protoj/serialize/ProtobufSerializerWireTypesTest.java:32-52 | 0, 1 and 300 are written as `00`, `01` and `AC 02` |
| VarintCodec.VarintOfOnes | serialize/src/main/java/dev/freemountain/protoj/serialize/ProtobufSerializer.java:288-297 | 7n+1 one bits are n bytes `FF` and a final `01` |
| VarintCodec.VarintOfMinusOne | serialize/src/main/java/dev/freemountain/protoj/serialize/ProtobufSerializer.java:284-297 | `-1L` is nine bytes `FF` and a final `01` |
| FixedWidth.ToLittleEndian | serialize/src/main/java/dev/freemountain/protoj/serialize/ProtobufSerializer.java:216 | a little-endian rendering has exactly the requested width |
| FixedWidth.ToBigEndian | serialize/main/java/dev/freemountain/protoj/serialize/ProtobufSerializer.java:210 | a big-endian rendering has exactly the requested width |
| FixedWidth.FromLittleEndian | serialize/src/main/java/dev/freemountain/protoj/serialize/ProtobufSerializer.java:209 | the reference little-endian reader: n bytes read as a value below 2^(8n) |
| FixedWidth.FromBigEndian | serialize/main/java/dev/freemountain/protoj/serialize/ProtobufSerializer.java:210 | the reference big-endian reader: n bytes read as a value below 2^(8n) |
| FixedWidth.Fixed32 | serialize/src/main/java/dev/freemountain/protoj/serialize/ProtobufSerializer.java:211-231 | a 32-bit payload is four bytes |
| FixedWidth.Fixed64 | serialize/src/main/java/dev/freemountain/protoj/serialize/ProtobufSerializer.java:233-253 | a 64-bit payload is eight bytes |
| FixedWidth.LittleEndianRoundTrip | serialize/src/main/java/dev/freemountain/protoj/serialize/ProtobufSerializer.java:211-220 | little-endian bytes read back as the value modulo 2^(8n) |
| FixedWidth.BigEndianRoundTrip | serialize/main/java/dev/freemountain/protoj/serialize/ProtobufSerializer.java:205-214 | big-endian bytes read back as the value modulo 2^(8n) |
| FixedWidth.BigIsReversedLittle | serialize/main/java/dev/freemountain/protoj/serialize/ProtobufSerializer.java:210 | the earlier byte order is the current one reversed |
| FixedWidth.Fixed32RoundTrip | serialize/src/main/java/dev/freemountain/protoj/serialize/ProtobufSerializer.java:211-220 | a `fixed32` payload reads back, in its revision's byte order, as the `int`'s 32-bit pattern |
| FixedWidth.Fixed64RoundTrip | serialize/src/main/java/dev/freemountain/protoj/serialize/ProtobufSerializer.java:233-242 | a `fixed64` payload reads back, in its revision's byte order, as the `long`'s 64-bit pattern |
| FixedWidth.FixedExamples | serialize/main/test/java/dev/freemountain/protoj/serialize/ProtobufSerializerWireTypesTest.java:130-149 | 2020 and 10123982 in both byte orders, as the earlier tests expect them big-endian |
| FixedWidth.DoublePatternExample | serialize/main/test/java/dev/freemountain/protoj/serialize/ProtobufSerializerWireTypesTest.java:137-142 | the bit pattern of `-1284.123` is written `C0 94 10 7D F3 B6 45 A2` big-endian |
| FixedWidth.FloatPatternExample | serialize/main/test/java/dev/freemountain/protoj/serialize/ProtobufSerializerWireTypesTest.java:151-156 | the bit pattern of `47.8721F` is written `42 3F 7D 08` big-endian |
| JavaBits.LongBits | serialize/src/main/java/dev/freemountain/protoj/serialize/ProtobufSerializer.java:284 | `BitSet.valueOf(new long[]{x})` holds 64 bits |
| JavaBits.NumberOfLeadingZeros | serialize/src/main/java/dev/freemountain/protoj/serialize/ProtobufSerializer.java:285-286 | the count of zero bits above the highest one bit, at most 64, bounds the pattern from above and below |
| Visits.MarkVisited | serialize/src/main/java/dev/freemountain/protoj/serialize/ProtobufSerializer.java:119-125 | the class's list becomes its old list (empty on a first visit) with the level at its end, no list shrinks, and every other class keeps its list |
| Visits.CircularIffEnteredElsewhere | serialize/src/main/java/dev/freemountain/protoj/serialize/ProtobufSerializer.java:44-49 | after marking, a circular reference is reported exactly when the class had been entered before at another level; a first visit never is one |
| Visits.VisitedMessages.constructor | serialize/src/main/java/dev/freemountain/protoj/serialize/ProtobufSerializer.java:38 | the walk starts with an empty map |
| Visits.VisitedMessages.MarkClassAsVisited | serialize/src/main/java/dev/freemountain/protoj/serialize/ProtobufSerializer.java:119-125 | the map becomes `MarkVisited` of the old map |
| Visits.VisitedMessages.IsCircularReference | serialize/src/main/java/dev/freemountain/protoj/serialize/ProtobufSerializer.java:127-134 | true exactly when the class's list holds a level other than the current one |
| Streams.ByteStream.constructor | serialize/src/main/java/dev/freemountain/protoj/serialize/ProtobufSerializer.java:37 | a new stream is empty |
| Streams.ByteStream.Size | serialize/src/main/java/dev/freemountain/protoj/serialize/ProtobufSerializer.java:104 | the number of bytes written so far |
| Streams.ByteStream.ToByteArray | serialize/src/main/java/dev/freemountain/protoj/serialize/ProtobufSerializer.java:116 | a copy of everything written so far |
| Streams.ByteStream.Write | serialize/src/main/java/dev/freemountain/protoj/serialize/ProtobufSerializer.java:202 | succeeds exactly when the bytes fit in one Java array, appending them; otherwise fails with `OutOfMemory` and writes nothing |
| WireEncoding.EarlierMaxFieldNumber | serialize/main/java/dev/freemountain/protoj/serialize/ProtobufSerializer.java:27 | `(2 ^ 29) - 1` is 30 |
| WireEncoding.Tag | serialize/src/main/java/dev/freemountain/protoj/serialize/ProtobufSerializer.java:256-266 | a key fails exactly for a field number outside [1, max] (`InvalidFieldNumber`) or for `MESSAGE`; otherwise it is 1 to 10 bytes |
| WireEncoding.LengthDelimited | serialize/src/main/java/dev/freemountain/protoj/serialize/ProtobufSerializer.java:194-206 | the data, whole, after a non-empty length prefix |
| WireEncoding.LengthDelimitedString | serialize/src/main/java/dev/freemountain/protoj/serialize/ProtobufSerializer.java:177-192 | `null` and the empty string write nothing |
| WireEncoding.Payload | serialize/src/main/java/dev/freemountain/protoj/serialize/ProtobufSerializer.java:136-172 | a payload fails only on its cast: `NullPointer` for `null`, `ClassCast` for a value of another class |
| WireEncoding.CastFailure | serialize/src/main/java/dev/freemountain/protoj/serialize/ProtobufSerializer.java:139 | a failed cast is `NullPointer` exactly for `null` |
| WireEncoding.PackedElement | serialize/src/main/java/dev/freemountain/protoj/serialize/ProtobufSerializer.java:99-103 | a `null` element of a packed list adds nothing |
| WireEncoding.Embedded | serialize/src/main/java/dev/freemountain/protoj/serialize/ProtobufSerializer.java:83-86 | empty content writes no record at all, and a record is never shorter than its content |
| WireEncoding.EmbeddedNonEmpty | serialize/src/main/java/dev/freemountain/protoj/serialize/ProtobufSerializer.java:83-86 | non-empty content is a `BYTES` key then the length-delimited content, or the key's exception |
| WireEncoding.KeyThenPayload | serialize/src/main/java/dev/freemountain/protoj/serialize/ProtobufSerializer.java:109-110 | a single-valued field is its key then its payload; the first of the two to fail decides the exception |
| WireEncoding.KeyOfSmallFieldNumber | serialize/src/main/java/dev/freemountain/protoj/serialize/ProtobufSerializer.java:264 | below 2^28 the shift does not overflow: the key is `fieldNumber * 8 + id`, and both parts read back |
| WireEncoding.TagRoundTrip | serialize/src/main/java/dev/freemountain/protoj/serialize/ProtobufSerializer.java:256-266 | a key reads back as a varint whose high part is the field number and whose low three bits are the type's wire type id |
| WireEncoding.LargeFieldNumberTag | serialize/src/main/java/dev/freemountain/protoj/serialize/ProtobufSerializer.java:264-265 | field numbers from 2^28 to 2^29-1 overflow the `int` shift: the key is negative and takes ten bytes |
| WireEncoding.OneByteTag | serialize/src/main/java/dev/freemountain/protoj/serialize/ProtobufSerializer.java:256-266 | field numbers 1 to 15 take one key byte, `fieldNumber * 8 + id` |
| WireEncoding.OneByteTagIs | serialize/src/main/java/dev/freemountain/protoj/serialize/ProtobufSerializer.java:263-265 | the one key byte of fields 1 to 15, given the wire type |
| WireEncoding.TagExamples | serialize/main/test/java/dev/freemountain/protoj/serialize/ProtobufSerializerWireTypesTest.java:57-83 | the keys `08`, `11`, `2A` and `7D` of the prefix tests, in both revisions |
| WireEncoding.IntKeyExample | serialize/main/test/java/dev/freemountain/protoj/serialize/ProtobufSerializerWireTypesTest.java:57-62 | `INT32` field 1 has key `08` |
| WireEncoding.Fixed64KeyExample | serialize/main/test/java/dev/freemountain/protoj/serialize/ProtobufSerializerWireTypesTest.java:64-69 | `FIXED64` field 2 has key `11` |
| WireEncoding.StringKeyExample | serialize/main/test/java/dev/freemountain/protoj/serialize/ProtobufSerializerWireTypesTest.java:71-76 | `STRING` field 5 has key `2A` |
| WireEncoding.FloatKeyExample | serialize/main/test/java/dev/freemountain/protoj/serialize/ProtobufSerializerWireTypesTest.java:78-83 | `FLOAT` field 15 has key `7D` |
| WireEncoding.InvalidTagExamples | serialize/main/test/java/dev/freemountain/protoj/serialize/ProtobufSerializerWireTypesTest.java:85-101 | field numbers 0, -1 and `Integer.MAX_VALUE` are refused for every type |
| WireEncoding.LengthDelimitedRoundTrip | serialize/src/main/java/dev/freemountain/protoj/serialize/ProtobufSerializer.java:194-206 | a reader recovers the length and then exactly the data, whatever follows |
| WireEncoding.LengthDelimitedDecodes | serialize/src/main/java/dev/freemountain/protoj/serialize/ProtobufSerializer.java:196-202 | the length prefix reads back as the data's length |
| WireEncoding.LengthDelimitedReads | serialize/src/main/java/dev/freemountain/protoj/serialize/ProtobufSerializer.java:194-206 | a length-delimited record reads back as its length, then its data |
| WireEncoding.StringRoundTrip | serialize/src/main/java/dev/freemountain/protoj/serialize/ProtobufSerializer.java:177-192 | a non-empty string reads back as its UTF-8 bytes (current) or its UTF-8 bytes and the encoder's unused zero bytes (earlier) |
| WireEncoding.ShortLengthDelimited | serialize/src/main/java/dev/freemountain/protoj/serialize/ProtobufSerializer.java:196-202 | data shorter than 128 bytes has a one-byte length |
| WireEncoding.LengthDelimitedExamples | serialize/main/test/java/dev/freemountain/protoj/serialize/ProtobufSerializerWireTypesTest.java:106-125 | `"testing"` is `07 74 65 73 74 69 6E 67`; the empty string and `null` write nothing; an empty array writes `00` |
| WireEncoding.PayloadMatchesWireType | serialize/src/main/java/dev/freemountain/protoj/serialize/ProtobufSerializer.java:136-172 | every payload has the shape its wire type announces: one whole varint, 4 bytes, 8 bytes, or a length and that many bytes (or nothing for an empty string) |
| WireEncoding.PayloadRoundTrip | serialize/src/main/java/dev/freemountain/protoj/serialize/ProtobufSerializer.java:136-172 | a reader recovers each value: the sign-extended `int`, the `long`'s pattern, 1/0 for a boolean, the fixed-width pattern of an integer or of `float`/`double` bits in the revision's byte order, the bytes of a byte array |
| WireEncoding.NonNull | serialize/src/main/java/dev/freemountain/protoj/serialize/ProtobufSerializer.java:99-100 | dropping the `null` elements leaves only non-null ones, no more than there were |
| WireEncoding.PackedSkipsNulls | serialize/src/main/java/dev/freemountain/protoj/serialize/ProtobufSerializer.java:99-103 | packing a list is packing its non-null elements |
| WireEncoding.PackedAppend | serialize/src/main/java/dev/freemountain/protoj/serialize/ProtobufSerializer.java:99-103 | one more element appends its own payload, or its cast's exception |
| WireEncoding.ElementBytes | serialize/src/main/java/dev/freemountain/protoj/serialize/ProtobufSerializer.java:99-103 | one result per element, each that element's packed bytes |
| WireEncoding.PackedIsJoined | serialize/src/main/java/dev/freemountain/protoj/serialize/ProtobufSerializer.java:98-103 | the packed bytes are the elements' bytes joined in order, failing at the first failing element |
| WireEncoding.PackedFailsEarly | serialize/src/main/java/dev/freemountain/protoj/serialize/ProtobufSerializer.java:99-103 | once an element's cast fails, later elements change nothing |
| WireEncoding.PackedPrefixStep | serialize/src/main/java/dev/freemountain/protoj/serialize/ProtobufSerializer.java:99-103 | the packed bytes of one more element of the list extend those of the elements before it |
| WireEncoding.PackedConcat | serialize/src/main/java/dev/freemountain/protoj/serialize/ProtobufSerializer.java:99-103 | packing a list packs its two halves one after the other, and both halves pack when the list does |
| WireEncoding.PackedPrefixFits | serialize/src/main/java/dev/freemountain/protoj/serialize/ProtobufSerializer.java:99-103 | the packed bytes of a prefix of a list that packs are no longer than those of the whole list |
| WireEncoding.PackedElementFits | serialize/src/main/java/dev/freemountain/protoj/serialize/ProtobufSerializer.java:99-103 | in a list that packs, each element packs, and it and the elements before it take no more bytes than the whole list |
| WireEncoding.PackedPrefixFails | serialize/src/main/java/dev/freemountain/protoj/serialize/ProtobufSerializer.java:99-103 | a failure within the first elements is the failure of the whole list |
| WireEncoding.PackedOneTwoFour | serialize/main/test/java/dev/freemountain/protoj/serialize/RepeatedTypesTests.java:66-86 | `{1, 2, 4}` as `INT32` packs to `01 02 04` |
| WireEncoding.PackedExample | serialize/main/test/java/dev/freemountain/protoj/serialize/RepeatedTypesTests.java:66-86 | the repeated field 1 of `{1, 2, 4}` is written `0A 03 01 02 04` |
| WireEncoding.PackedField | serialize/src/main/java/dev/freemountain/protoj/serialize/ProtobufSerializer.java:104-107 | a repeated scalar field is one embedded record holding the packed bytes |
| WireEncoding.ShortEmbedded | serialize/src/main/java/dev/freemountain/protoj/serialize/ProtobufSerializer.java:83-86 | content shorter than 128 bytes under field 1 to 15 is `[fieldNumber * 8 + 2, length]` then the content |
| WireEncoding.EmptyPackedExamples | serialize/main/test/java/dev/freemountain/protoj/serialize/RepeatedTypesTests.java:23-64 | an empty list and a list of `null`s write nothing; a `Float` in an `INT32` list is a `ClassCastException` |
| MessageWalk.Prepend | serialize/src/main/java/dev/freemountain/protoj/serialize/ProtobufSerializer.java:51-115 | output written before a step comes first in the result; a step's exception discards it |
| MessageWalk.ElementsOf | serialize/src/main/java/dev/freemountain/protoj/serialize/ProtobufSerializer.java:77-80 | a list stands for its elements, any other value for itself alone |
| MessageWalk.NestedLevel | serialize/src/main/java/dev/freemountain/protoj/serialize/ProtobufSerializer.java:76 | nested messages go one level deeper, except (earlier) the elements of a list, which stay at the current level |
| MessageWalk.SerializeField | serialize/src/main/java/dev/freemountain/protoj/serialize/ProtobufSerializer.java:75-111 | a scalar field leaves the level and the visit map as they were; a `MESSAGE` field moves the level to `NestedLevel` |
| MessageWalk.FieldsSkip | serialize/src/main/java/dev/freemountain/protoj/serialize/ProtobufSerializer.java:69 | a `null` field writes nothing and only marks its number seen |
| MessageWalk.FieldsAdvance | serialize/src/main/java/dev/freemountain/protoj/serialize/ProtobufSerializer.java:51-115 | the fields loop writes one field's bytes, then goes on from the level and visits that field left |
| MessageWalk.FieldsFail | serialize/src/main/java/dev/freemountain/protoj/serialize/ProtobufSerializer.java:51-115 | an exception in one field is the exception of the whole message |
| WireRecords.PayloadSize | serialize/src/main/java/dev/freemountain/protoj/serialize/ProtobufSerializer.java:255-272 | the reference reader's payload length for a wire type never runs past the bytes it has |
| WireRecords.DecodeVarintPrefix | serialize/src/main/java/dev/freemountain/protoj/serialize/ProtobufSerializer.java:268-272 | a varint reads the same whatever follows it |
| WireRecords.RecordsAppend | serialize/src/main/java/dev/freemountain/protoj/serialize/ProtobufSerializer.java:51-115 | two well-formed sequences of records, one after the other, are one |
| WireRecords.OneRecord | serialize/src/main/java/dev/freemountain/protoj/serialize/ProtobufSerializer.java:109-110 | a key and a payload of the shape its wire type announces are a well-formed record |
| WireRecords.DanglingKey | serialize/src/main/java/dev/freemountain/protoj/serialize/ProtobufSerializer.java:181-183 | a key byte with nothing after it is not a well-formed record |
| MessageRecords.TagAnnouncesWireType | serialize/src/main/java/dev/freemountain/protoj/serialize/ProtobufSerializer.java:263-265 | every key reads back as one whole varint whose low three bits are the field type's wire type id |
| MessageRecords.EmbeddedIsRecords | serialize/src/main/java/dev/freemountain/protoj/serialize/ProtobufSerializer.java:83-86 | an embedded record is well-formed |
| MessageRecords.PayloadNonEmpty | serialize/src/main/java/dev/freemountain/protoj/serialize/ProtobufSerializer.java:136-172 | every payload except that of an empty string has at least one byte |
| MessageRecords.ScalarFieldIsRecords | serialize/src/main/java/dev/freemountain/protoj/serialize/ProtobufSerializer.java:89-111 | a scalar or packed field without an empty string is a well-formed record |
| MessageRecords.ElementsAreRecords | serialize/src/main/java/dev/freemountain/protoj/serialize/ProtobufSerializer.java:80-87 | the records of a `MESSAGE` field's objects are well-formed |
| MessageRecords.FieldsAreRecords | serialize/src/main/java/dev/freemountain/protoj/serialize/ProtobufSerializer.java:51-115 | the fields loop writes well-formed records when no field holds an empty string |
| MessageRecords.ObjectIsRecords | serialize/src/main/java/dev/freemountain/protoj/serialize/ProtobufSerializer.java:41-117 | a serialised message is a well-formed sequence of records when no field holds an empty string |
| WalkProperties.ObjectVisitsGrow | serialize/src/main/java/dev/freemountain/protoj/serialize/ProtobufSerializer.java:46 | a walk only adds levels to the visit map, the object's own mark included |
| WalkProperties.FieldsVisitsGrow | serialize/src/main/java/dev/freemountain/protoj/serialize/ProtobufSerializer.java:51-115 | the fields loop only adds levels to the visit map |
| WalkProperties.FieldVisitsGrow | serialize/src/main/java/dev/freemountain/protoj/serialize/ProtobufSerializer.java:75-87 | one field only adds levels to the visit map |
| WalkProperties.ElementsVisitsGrow | serialize/src/main/java/dev/freemountain/protoj/serialize/ProtobufSerializer.java:80-87 | the objects of a `MESSAGE` field only add levels to the visit map |
| WalkProperties.RepeatedNumberFails | serialize/src/main/java/dev/freemountain/protoj/serialize/ProtobufSerializer.java:57-59 | a field number met again later in the loop makes the loop fail |
| WalkProperties.DuplicateFieldNumberFails | serialize/src/main/java/dev/freemountain/protoj/serialize/ProtobufSerializer.java:56-60 | a class with two annotated fields of one number never serialises |
| WalkProperties.NullFieldsWriteNothing | serialize/src/main/java/dev/freemountain/protoj/serialize/ProtobufSerializer.java:69 | fields that are all `null`, with fresh numbers, write nothing and leave the visits as they were |
| WalkProperties.NullObjectWritesNothing | serialize/src/main/java/dev/freemountain/protoj/serialize/ProtobufSerializer.java:44-69 | an object whose fields are all `null` writes nothing and only marks its class |
| WalkProperties.EnterObject | serialize/src/main/java/dev/freemountain/protoj/serialize/ProtobufSerializer.java:45-49 | an object of a class not seen before is its fields, after its class is marked at its level |
| WalkProperties.ScalarThenRest | serialize/src/main/java/dev/freemountain/protoj/serialize/ProtobufSerializer.java:108-111 | a scalar field's bytes come before those of the fields after it |
| WalkExamples.FirstEntry | serialize/src/main/java/dev/freemountain/protoj/serialize/ProtobufSerializer.java:127-134 | the first visit of a class is never circular |
| WalkExamples.SingleIntObject | serialize/src/test/java/dev/freemountain/protoj/serialize/CustomGetterTest.java:57-72 | an object whose one `INT32` field 1 holds 2 is `08 02`, and its class is marked |
| WalkExamples.SingleIntFields | serialize/src/test/java/dev/freemountain/protoj/serialize/CustomGetterTest.java:57-72 | the fields loop over that one field writes `08 02` |
| WalkExamples.SingleIntExample | serialize/src/test/java/dev/freemountain/protoj/serialize/CustomGetterTest.java:57-72 | `serialize` of that object is `08 02` |
| WalkExamples.IntTwoField | serialize/src/test/java/dev/freemountain/protoj/serialize/CustomGetterTest.java:57-72 | `INT32` field 1 holding 2 is `08 02` |
| WalkExamples.NestedExample | serialize/src/main/java/dev/freemountain/protoj/serialize/ProtobufSerializer.java:75-87 | an object with field 1 = 2 and a nested message (field 2) holding field 1 = 2 is `08 02 12 02 08 02` |
| WalkExamples.NestedObject | serialize/src/main/java/dev/freemountain/protoj/serialize/ProtobufSerializer.java:75-87 | the same object walked from any visit map that has neither class |
| WalkExamples.NestedFields | serialize/src/main/java/dev/freemountain/protoj/serialize/ProtobufSerializer.java:75-87 | its fields loop writes those bytes and marks the nested class at level 1 |
| WalkExamples.NestedRest | serialize/src/main/java/dev/freemountain/protoj/serialize/ProtobufSerializer.java:75-87 | its second field alone writes `12 02 08 02` |
| WalkExamples.NestedRecord | serialize/src/main/java/dev/freemountain/protoj/serialize/ProtobufSerializer.java:83-86 | a nested message whose bytes are `08 02` is embedded under field 2 as `12 02 08 02` |
| WalkExamples.NestedRecordBytes | serialize/src/main/java/dev/freemountain/protoj/serialize/ProtobufSerializer.java:83-86 | `08 02` embedded under field 2 is `12 02 08 02` |
| WalkExamples.RingOfThreeFails | serialize/src/test/java/dev/freemountain/protoj/serialize/CircularReferenceTest.java:46-50 | three classes referring round in a ring fail with a circular reference to the first |
| WalkExamples.RingClosesAtThird | serialize/src/test/java/dev/freemountain/protoj/serialize/CircularReferenceTest.java:14-44 | the ring is detected when the third class refers back to the first, at level 2 |
| WalkExamples.OnlyFieldFails | serialize/src/main/java/dev/freemountain/protoj/serialize/ProtobufSerializer.java:81-82 | a failing nested message fails the object that holds it |
| WalkExamples.OneObjectField | serialize/src/main/java/dev/freemountain/protoj/serialize/ProtobufSerializer.java:75-87 | a `MESSAGE` field with one object fails with that object's exception, or writes nothing when the object writes nothing |
| WalkExamples.EmptyObject | serialize/src/main/java/dev/freemountain/protoj/serialize/ProtobufSerializer.java:44-51 | an object with no annotated fields (a message, or an `Iterable` walked as an object), not seen elsewhere, writes nothing and marks its own runtime class |
| WalkExamples.EmptyObjectField | serialize/src/main/java/dev/freemountain/protoj/serialize/ProtobufSerializer.java:83 | a `MESSAGE` field holding an empty object writes no record and marks the object's class at the nested level |
| WalkExamples.LastEmptyObjectField | serialize/src/main/java/dev/freemountain/protoj/serialize/ProtobufSerializer.java:51-83 | an object's last field, a `MESSAGE` field holding an empty object, ends the walk with no bytes and the object's class marked at the nested level |
| WalkExamples.IterablesOfTwoClassesPass | serialize/src/main/java/dev/freemountain/protoj/serialize/ProtobufSerializer.java:44-48 | in the current revision, a `LinkedHashSet`-like and an `ArrayList`-like iterable, each walked as an object at levels 1 and 2, are marked under their own class names, so the object is accepted and writes nothing |
| WalkExamples.CircularObjectField | serialize/src/main/java/dev/freemountain/protoj/serialize/ProtobufSerializer.java:47-48 | a `MESSAGE` field whose object's class was seen at another level fails with a circular reference |
| WalkExamples.SiblingsOfOneClassFail | serialize/src/main/java/dev/freemountain/protoj/serialize/ProtobufSerializer.java:76 | two sibling `MESSAGE` fields of one class are taken for a circular reference, because each field goes one level deeper |
| WalkExamples.TwoListsOfOneClassFail | serialize/src/main/java/dev/freemountain/protoj/serialize/ProtobufSerializer.java:76 | two repeated `MESSAGE` fields holding one class are refused in the current revision |
| WalkExamples.TwoListsOfOneClassPassedBefore | serialize/main/java/dev/freemountain/protoj/serialize/ProtobufSerializer.java:69-77 | the earlier revision accepted the same object and wrote nothing |
| WalkExamples.TwoListsAtOneLevel | serialize/main/java/dev/freemountain/protoj/serialize/ProtobufSerializer.java:69-77 | the earlier revision walks both lists at the current level, marking the class twice at it |
| Findings.EarlierRefusesFieldNumber31 | serialize/main/java/dev/freemountain/protoj/serialize/ProtobufSerializer.java:254-256 | field number 31 is refused before and written `F8 01` now |
| Findings.EarlierRefusesValidFieldNumbers | serialize/main/java/dev/freemountain/protoj/serialize/ProtobufSerializer.java:27 | the earlier revision refuses every field number from 31 to 2^29-1 |
| Findings.CurrentAcceptsProtobufFieldNumbers | serialize/src/main/java/dev/freemountain/protoj/serialize/ProtobufSerializer.java:30 | the current revision accepts every protobuf field number below 2^29, and its key reads back with the right wire type |
| Findings.EarlierStringHasTrailingZero | serialize/main/java/dev/freemountain/protoj/serialize/ProtobufSerializer.java:188 | ten letters with one unused byte in the encoder's array are written with length 11 and a trailing zero before, exactly now |
| Findings.EarlierStringDiffersWithSpareRoom | serialize/main/java/dev/freemountain/protoj/serialize/ProtobufSerializer.java:188 | whenever the encoder leaves unused room, the earlier bytes differ from the current ones |
| Findings.CurrentStringIsExact | serialize/src/main/java/dev/freemountain/protoj/serialize/ProtobufSerializer.java:190-191 | the current revision writes exactly the UTF-8 bytes, which read back whole |
| Findings.EmptyStringLeavesDanglingKey | serialize/src/main/java/dev/freemountain/protoj/serialize/ProtobufSerializer.java:109-110 | an empty `STRING` field 1 then `INT32` field 2 = 1 is written `0A 10 01` |
| Findings.EmptyStringObject | serialize/src/main/java/dev/freemountain/protoj/serialize/ProtobufSerializer.java:109-110 | that object from an empty visit map writes `0A 10 01` |
| Findings.EmptyStringThenInt | serialize/src/main/java/dev/freemountain/protoj/serialize/ProtobufSerializer.java:109-110 | its fields loop writes `0A 10 01` |
| Findings.EmptyStringFirst | serialize/src/main/java/dev/freemountain/protoj/serialize/ProtobufSerializer.java:109-110 | the empty string field writes its key `0A` before the rest |
| Findings.EmptyStringKeyOnly | serialize/src/main/java/dev/freemountain/protoj/serialize/ProtobufSerializer.java:181-183 | an empty `STRING` field is its key and nothing else |
| Findings.SecondIntField | serialize/src/main/java/dev/freemountain/protoj/serialize/ProtobufSerializer.java:109-110 | `INT32` field 2 = 1 writes `10 01` |
| Findings.DanglingAfterKey | serialize/src/main/java/dev/freemountain/protoj/serialize/ProtobufSerializer.java:181-183 | `0A 10 01` is not a well-formed sequence of records: the `10` is read as the length of field 1 |
| Findings.CorrectedScalarField | serialize/src/main/java/dev/freemountain/protoj/serialize/ProtobufSerializer.java:109-110 | the corrected field writes nothing for an empty string, keeps every other field as written, and fails exactly when the original does |
| Findings.CorrectedFieldIsRecords | serialize/src/main/java/dev/freemountain/protoj/serialize/ProtobufSerializer.java:89-111 | every corrected scalar or packed field, followed by well-formed records, is well-formed |
| Findings.SelfList | serialize/main/java/dev/freemountain/protoj/serialize/ProtobufSerializer.java:64-71 | the `n`-times unrolling of an object whose only field, a `MESSAGE` list, holds the object itself: its class, its one `MESSAGE` field numbered 1, a list exactly when `n > 0` |
| Findings.EarlierSelfListWalk | serialize/main/java/dev/freemountain/protoj/serialize/ProtobufSerializer.java:42-46 | from any level at which the class was never entered elsewhere, the earlier revision walks every unrolling at that one level, writes nothing and leaves the class still seen only at that level |
| Findings.EarlierMissesSelfList | serialize/main/java/dev/freemountain/protoj/serialize/ProtobufSerializer.java:64-71 | the earlier revision accepts every unrolling of the self-containing list and writes nothing, so the cycle itself is never reported |
| Findings.CurrentRefusesSelfList | serialize/src/main/java/dev/freemountain/protoj/serialize/ProtobufSerializer.java:75-82 | the current revision refuses every unrolling with at least one level of nesting as a circular reference of the object's class |
| ProtobufSerializer.Serialize | serialize/src/main/java/dev/freemountain/protoj/serialize/ProtobufSerializer.java:36-39 | returns exactly the bytes `SerializeMessage` specifies whenever they fit in one Java array, and `OutOfMemory` when they do not; where it specifies an exception, that exception or `OutOfMemory` |
| ProtobufSerializer.SerializeInto | serialize/src/main/java/dev/freemountain/protoj/serialize/ProtobufSerializer.java:41-117 | the stream gains exactly the walk's bytes and the visit map becomes the walk's; an exception is the walk's; `OutOfMemory` only when those bytes do not fit after the stream's content |
| ProtobufSerializer.SerializeFieldsInto | serialize/src/main/java/dev/freemountain/protoj/serialize/ProtobufSerializer.java:51-115 | the field loop performs the fields walk from field 0; `OutOfMemory` only when those bytes do not fit after the stream's content |
| ProtobufSerializer.SerializeFieldAt | serialize/src/main/java/dev/freemountain/protoj/serialize/ProtobufSerializer.java:52-113 | one iteration of the field loop advances the fields walk by one field; `OutOfMemory` only when those bytes do not fit after the stream's content |
| ProtobufSerializer.SerializePresentField | serialize/src/main/java/dev/freemountain/protoj/serialize/ProtobufSerializer.java:69-112 | a non-null field writes its `SerializeField` bytes and leaves its level and visits; `OutOfMemory` only when those bytes do not fit after the stream's content |
| ProtobufSerializer.AppendKeyAndValue | serialize/src/main/java/dev/freemountain/protoj/serialize/ProtobufSerializer.java:109-110 | a single-valued field appends its key and payload, or throws their exception; `OutOfMemory` only when those bytes do not fit after the stream's content |
| ProtobufSerializer.SerializeNestedMessages | serialize/src/main/java/dev/freemountain/protoj/serialize/ProtobufSerializer.java:76-87 | the loop over a `MESSAGE` field's objects performs `SerializeElements`; `OutOfMemory` only when those bytes do not fit after the stream's content |
| ProtobufSerializer.SerializeNestedMessage | serialize/src/main/java/dev/freemountain/protoj/serialize/ProtobufSerializer.java:81-86 | one object of a `MESSAGE` field appends its embedded record; `OutOfMemory` only when those bytes do not fit after the stream's content |
| ProtobufSerializer.AppendEmbedded | serialize/src/main/java/dev/freemountain/protoj/serialize/ProtobufSerializer.java:83-86 | appends the `Embedded` record of the content; `OutOfMemory` only when those bytes do not fit after the stream's content |
| ProtobufSerializer.AppendPacked | serialize/src/main/java/dev/freemountain/protoj/serialize/ProtobufSerializer.java:98-107 | a repeated scalar field (an `Iterable` of any class) appends the record `ScalarField` specifies, testing the packed stream's `size()` before the prefix; `OutOfMemory` only when those bytes do not fit after the stream's content |
| ProtobufSerializer.PackValues | serialize/src/main/java/dev/freemountain/protoj/serialize/ProtobufSerializer.java:98-103 | the packing loop's new stream holds exactly `Packed` of the list, or the first element's exception; `OutOfMemory` only when the packed bytes are longer than one Java array |
| ProtobufSerializer.AppendPackedElement | serialize/src/main/java/dev/freemountain/protoj/serialize/ProtobufSerializer.java:100-102 | a packed element appends its payload, nothing for `null`; `OutOfMemory` only when those bytes do not fit after the stream's content |
| ProtobufSerializer.Append | serialize/src/main/java/dev/freemountain/protoj/serialize/ProtobufSerializer.java:136-172 | appends `Payload`, or throws its cast's exception before writing; `OutOfMemory` only when those bytes do not fit after the stream's content |
| ProtobufSerializer.AppendLengthDelimitedString | serialize/src/main/java/dev/freemountain/protoj/serialize/ProtobufSerializer.java:177-192 | appends the current `LengthDelimitedString`; `OutOfMemory` only when those bytes do not fit after the stream's content |
| ProtobufSerializer.AppendLengthDelimited | serialize/src/main/java/dev/freemountain/protoj/serialize/ProtobufSerializer.java:194-206 | appends the length and then the data; `OutOfMemory` only when those bytes do not fit after the stream's content |
| ProtobufSerializer.AppendFixed32 | serialize/src/main/java/dev/freemountain/protoj/serialize/ProtobufSerializer.java:211-231 | appends the four little-endian bytes; `OutOfMemory` only when those bytes do not fit after the stream's content |
| ProtobufSerializer.AppendFixed64 | serialize/src/main/java/dev/freemountain/protoj/serialize/ProtobufSerializer.java:233-253 | appends the eight little-endian bytes; `OutOfMemory` only when those bytes do not fit after the stream's content |
| ProtobufSerializer.AppendPrefix | serialize/src/main/java/dev/freemountain/protoj/serialize/ProtobufSerializer.java:256-266 | appends the key `Tag` specifies, or throws its exception having written nothing; `OutOfMemory` only when those bytes do not fit after the stream's content |
| ProtobufSerializer.AppendVarint | serialize/src/main/java/dev/freemountain/protoj/serialize/ProtobufSerializer.java:273-301 | the group loop appends exactly `Varint` of the `long`'s 64-bit pattern; `OutOfMemory` only when those bytes do not fit after the stream's content |
| EarlierProtobufSerializer.Serialize | serialize/main/java/dev/freemountain/protoj/serialize/ProtobufSerializer.java:33-36 | returns exactly the bytes the earlier `SerializeMessage` specifies whenever they fit in one Java array, and `OutOfMemory` when they do not; where it specifies an exception, that exception or `OutOfMemory` |
| EarlierProtobufSerializer.SerializeInto | serialize/main/java/dev/freemountain/protoj/serialize/ProtobufSerializer.java:38-120 | the stream gains exactly the earlier walk's bytes and the visit map becomes its; `OutOfMemory` only when those bytes do not fit after the stream's content |
| EarlierProtobufSerializer.SerializeFieldsInto | serialize/main/java/dev/freemountain/protoj/serialize/ProtobufSerializer.java:48-118 | the field loop performs the earlier fields walk; `OutOfMemory` only when those bytes do not fit after the stream's content |
| EarlierProtobufSerializer.SerializeFieldAt | serialize/main/java/dev/freemountain/protoj/serialize/ProtobufSerializer.java:49-117 | one iteration of the field loop advances the earlier fields walk by one field; `OutOfMemory` only when those bytes do not fit after the stream's content |
| EarlierProtobufSerializer.SerializePresentField | serialize/main/java/dev/freemountain/protoj/serialize/ProtobufSerializer.java:64-113 | a non-null field writes its earlier `SerializeField` bytes; `OutOfMemory` only when those bytes do not fit after the stream's content |
| EarlierProtobufSerializer.AppendKeyAndValue | serialize/main/java/dev/freemountain/protoj/serialize/ProtobufSerializer.java:110-111 | a single-valued field appends its key and payload, or throws their exception; `OutOfMemory` only when those bytes do not fit after the stream's content |
| EarlierProtobufSerializer.SerializeNestedMessages | serialize/main/java/dev/freemountain/protoj/serialize/ProtobufSerializer.java:65-108 | the objects of a `MESSAGE` field (a list at the current level, one object one level deeper) perform `SerializeElements`; `OutOfMemory` only when those bytes do not fit after the stream's content |
| EarlierProtobufSerializer.SerializeNestedMessage | serialize/main/java/dev/freemountain/protoj/serialize/ProtobufSerializer.java:70-76 | one object appends its embedded record; `OutOfMemory` only when those bytes do not fit after the stream's content |
| EarlierProtobufSerializer.AppendEmbedded | serialize/main/java/dev/freemountain/protoj/serialize/ProtobufSerializer.java:73-76 | appends the `Embedded` record of the content; `OutOfMemory` only when those bytes do not fit after the stream's content |
| EarlierProtobufSerializer.AppendPacked | serialize/main/java/dev/freemountain/protoj/serialize/ProtobufSerializer.java:87-96 | a repeated scalar field (an `Iterable` of any class) appends the record `ScalarField` specifies, testing the packed stream's `size()` before the prefix; `OutOfMemory` only when those bytes do not fit after the stream's content |
| EarlierProtobufSerializer.PackValues | serialize/main/java/dev/freemountain/protoj/serialize/ProtobufSerializer.java:87-92 | the packing loop's new stream holds exactly `Packed` of the list (earlier revision), or the first element's exception; `OutOfMemory` only when the packed bytes are longer than one Java array |
| EarlierProtobufSerializer.Append | serialize/main/java/dev/freemountain/protoj/serialize/ProtobufSerializer.java:139-176 | appends the earlier `Payload`, or throws its cast's exception; `OutOfMemory` only when those bytes do not fit after the stream's content |
| EarlierProtobufSerializer.AppendLengthDelimitedString | serialize/main/java/dev/freemountain/protoj/serialize/ProtobufSerializer.java:181-189 | appends the earlier `LengthDelimitedString`, unused zero bytes included; `OutOfMemory` only when those bytes do not fit after the stream's content |
| EarlierProtobufSerializer.AppendLengthDelimited | serialize/main/java/dev/freemountain/protoj/serialize/ProtobufSerializer.java:191-203 | appends the length and then the data; `OutOfMemory` only when those bytes do not fit after the stream's content |
| EarlierProtobufSerializer.AppendFixed32 | serialize/main/java/dev/freemountain/protoj/serialize/ProtobufSerializer.java:205-225 | appends the four big-endian bytes; `OutOfMemory` only when those bytes do not fit after the stream's content |
| EarlierProtobufSerializer.AppendFixed64 | serialize/main/java/dev/freemountain/protoj/serialize/ProtobufSerializer.java:227-247 | appends the eight big-endian bytes; `OutOfMemory` only when those bytes do not fit after the stream's content |
| EarlierProtobufSerializer.AppendPrefix | serialize/main/java/dev/freemountain/protoj/serialize/ProtobufSerializer.java:250-260 | appends the earlier `Tag`, refusing field numbers above 30; `OutOfMemory` only when those bytes do not fit after the stream's content |
| EarlierProtobufSerializer.GetEmptyBitSet | serialize/main/java/dev/freemountain/protoj/serialize/ProtobufSerializer.java:324-326 | a `BitSet` with only bit 7 set, whose byte array is `80` |
| EarlierProtobufSerializer.GetLeadingZeros | serialize/main/java/dev/freemountain/protoj/serialize/ProtobufSerializer.java:307-322 | the mask loop counts exactly `Long.numberOfLeadingZeros` |
| EarlierProtobufSerializer.AppendVarint | serialize/main/java/dev/freemountain/protoj/serialize/ProtobufSerializer.java:267-305 | the bit-by-bit loop appends exactly the same varint as the current revision; `OutOfMemory` only when those bytes do not fit after the stream's content |
| EarlierProtobufSerializer.CopyStep | serialize/main/java/dev/freemountain/protoj/serialize/ProtobufSerializer.java:284-300 | one iteration copies bit i, and after a seventh or the last bit the stream holds one more byte of the varint; `OutOfMemory` only when the whole varint does not fit after the bytes before it |
| EarlierProtobufSerializer.CopyBit | serialize/main/java/dev/freemountain/protoj/serialize/ProtobufSerializer.java:287-290 | copying bit i extends the group copied so far, and the mask moves to bit i+1 |
| EarlierProtobufSerializer.EmitFullByte | serialize/main/java/dev/freemountain/protoj/serialize/ProtobufSerializer.java:297-300 | a full group written extends the written prefix of the varint by one byte; `OutOfMemory` only when the whole varint does not fit after the bytes before it |
| EarlierProtobufSerializer.EmitLastByte | serialize/main/java/dev/freemountain/protoj/serialize/ProtobufSerializer.java:292-295 | the top group written completes the varint; `OutOfMemory` only when the whole varint does not fit after the bytes before it |
| EarlierProtobufSerializer.WriteFullByte | serialize/main/java/dev/freemountain/protoj/serialize/ProtobufSerializer.java:297-298 | a full group with bit 7 set is the varint's next, not last, byte; `OutOfMemory` only when those bytes do not fit after the stream's content |
| EarlierProtobufSerializer.WriteLastByte | serialize/main/java/dev/freemountain/protoj/serialize/ProtobufSerializer.java:292-294 | the top group with bit 7 cleared is the varint's last byte; `OutOfMemory` only when those bytes do not fit after the stream's content |
| EarlierProtobufSerializer.CopiedBitsHold | serialize/main/java/dev/freemountain/protoj/serialize/ProtobufSerializer.java:284-289 | after n copies the `BitSet` holds the group's first n bits, clear above them and bit 7 still set |
| EarlierProtobufSerializer.ShiftMask | serialize/main/java/dev/freemountain/protoj/serialize/ProtobufSerializer.java:290 | shifting the one-bit mask left moves it to the next bit |
| EarlierProtobufSerializer.GroupIsTopped | serialize/main/java/dev/freemountain/protoj/serialize/ProtobufSerializer.java:289-293 | a `BitSet` holding a group's bits is that group with bit 7 set as given |
| EarlierProtobufSerializer.MiddleByteBits | serialize/main/java/dev/freemountain/protoj/serialize/ProtobufSerializer.java:297-298 | a full group's byte is the corresponding byte of the varint |
| EarlierProtobufSerializer.LastByteBits | serialize/main/java/dev/freemountain/protoj/serialize/ProtobufSerializer.java:292-294 | the top group's byte is the varint's last byte |

## Left out

- Reflection: `getDeclaredFields`, `getAnnotation` and custom getters are not modelled. A message is given as its class name and its annotated fields in declaration order, each with the value the field or its getter returned. So the exceptions of an inaccessible field or a missing getter are not modelled.
- Object graphs are finite trees: a value cannot refer to itself, so a shared or cyclic Java object graph is given unrolled to some depth. The recursion that a real cycle causes, which the earlier revision never stops (see "## Findings"), is seen only through its finite unrollings, and `StackOverflowError` is not modelled.
- A `Map` or another non-`Iterable` object in a scalar field is a `ClassCast` in the model, as its cast is in Java. Whether an object is `Iterable` is the `List` constructor, which carries the object's runtime class name.
- IEEE-754 conversion of `float` and `double`: values are given as their raw bit patterns (`Float.floatToRawIntBits`, `Double.doubleToRawLongBits`).
- UTF-8 encoding by `StandardCharsets.UTF_8`: a string is given as the encoder's output bytes and the number of unused bytes left in its backing array.
- The `IOException` catch blocks: `ByteArrayOutputStream` never throws one. The `OutOfMemoryError` it can throw instead is modelled as `OutOfMemory`, when a write would exceed the largest Java array. The model assumes an unbounded heap and an array limit of exactly `Integer.MAX_VALUE` bytes; a real JVM fails earlier, at `ArraysSupport.newLength`'s soft maximum a few bytes below that, at the VM's own array limit, or when the heap is exhausted.
- Which of `OutOfMemory` and the walk's exception comes first: where the walk specifies an exception, the methods may report `OutOfMemory` instead, since the bytes written before the exception can fill the array first.
- The lazy `byteStream == null` allocation at the top of each `append*` method: every caller passes a stream, and a fresh stream would be thrown away.
- `ByteBuffer.wrap`, `hasArray` and `array()`: `serialize` returns the byte array itself, which always has an array.
- Logging (slf4j) and the test helpers in `TestUtil`.
- The expectations in `ProtobufSerializerTest` that unannotated classes and type mismatches throw: neither serializer checks these, and `TypeCompatibility` is not called by either.
- TypeCompatibility.Check: the reference comparisons `fieldType == Boolean.class` and `getName() == "boolean"` are modelled as equality of class names. The model does not capture that `==` on two `String`s with equal contents can be false.
- Visits.VisitedMessages.MarkClassAsVisited: its contract relates the new map to the old one.
- ProtobufSerializer.AppendKeyAndValue: when the payload's cast fails after the key was written, the contract gives the exception but not the stream contents.
- EarlierProtobufSerializer.AppendKeyAndValue: when the payload's cast fails after the key was written, the contract gives the exception but not the stream contents.
- Integers beyond Java's widths: every `int` and `long` is bounded by a subtype. The wrap-around of the key shift is written out (`ToInt32`), and so are the 32-bit and 64-bit patterns.
- An empty `byte[]` field writes a zero length (`00` after its key), following the code.

## Findings

| source | as written | input that shows it | evidently intended | confidence | as-written member | corrected member |
|---|---|---|---|---|---|---|
| serialize/main/java/dev/freemountain/protoj/serialize/ProtobufSerializer.java:27 | `MAX_FIELD_NUMBER = (2 ^ 29) - 1` uses `^`, exclusive or, so the limit is 30 | field number 31 (or any up to 2^29-1) is refused with "Invalid field number" | the protobuf limit 2^29 - 1, as the current revision computes with `Math.pow` | not executed | Findings.EarlierRefusesFieldNumber31 | Findings.CurrentAcceptsProtobufFieldNumbers |
| serialize/main/java/dev/freemountain/protoj/serialize/ProtobufSerializer.java:188 | `StandardCharsets.UTF_8.encode(in).array()` writes the encoder's whole backing array, unused zero bytes included, under a length that counts them | a string whose encoding leaves one unused byte, such as ten ASCII letters in an 11-byte array, is written `0B` + letters + `00` | only the encoded bytes, trimmed to the buffer's limit, as the current revision does | not executed | Findings.EarlierStringHasTrailingZero | Findings.CurrentStringIsExact |
| serialize/src/main/java/dev/freemountain/protoj/serialize/ProtobufSerializer.java:109-110 | the key of a scalar field is written before `append`, but an empty string writes no payload, so the key is left without a length | `STRING` field 1 = `""` then `INT32` field 2 = 1 gives `0A 10 01`, which a reader takes as field 1 with length 16 | no record for the empty string (or a zero length after its key) | not executed | Findings.EmptyStringLeavesDanglingKey | Findings.CorrectedScalarField |
| serialize/main/java/dev/freemountain/protoj/serialize/ProtobufSerializer.java:64-71 | a `MESSAGE` list's elements are serialised at the parent's own level, so an object reached again through a list is marked at the same level and never taken for a circular reference | an object whose `MESSAGE` list field holds the object itself: every finite unrolling is accepted with no bytes, so the real cycle recurses until `StackOverflowError` | a `CircularReference` for the object's class, as the current revision reports by going one level deeper for every `MESSAGE` field | not executed | Findings.EarlierMissesSelfList | Findings.CurrentRefusesSelfList |

The encoder models above follow each revision's code as written, findings
included, because they model what the repository does.
`Findings.CorrectedFieldIsRecords` proves that the corrected field keeps
every output a well-formed sequence of records, which the as-written one
does not (`Findings.DanglingAfterKey`).
