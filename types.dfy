/**
  The values the encoder works on: Java's fixed-width integers, the
  `ProtobufType` enum, the already-resolved field values of an annotated
  object, and the outcomes of an encoding step.
 */
module ProtoTypes {

  type byte = b: int | 0 <= b < 0x100
  type int32 = x: int | -0x8000_0000 <= x < 0x8000_0000
  type int64 = x: int | -0x8000_0000_0000_0000 <= x < 0x8000_0000_0000_0000

  /** The most elements a Java array can have: an array length is an `int`. */
  const MaxArrayLength: nat := 0x7FFF_FFFF

  /** A Java `byte[]`. */
  type ByteArray = s: seq<byte> | |s| <= MaxArrayLength

  /** Java `int` arithmetic: the low 32 bits of `x`, read as a signed value. */
  function ToInt32(x: int): (r: int32)
    ensures (r - x) % 0x1_0000_0000 == 0
    ensures -0x8000_0000 <= x < 0x8000_0000 ==> r == x
  {
    (x + 0x8000_0000) % 0x1_0000_0000 - 0x8000_0000
  }

  /** The 32-bit two's-complement pattern of an `int`. */
  function Unsigned32(x: int32): (u: nat)
    ensures u < 0x1_0000_0000
    ensures (u - x) % 0x1_0000_0000 == 0
  {
    if x < 0 then x + 0x1_0000_0000 else x
  }

  /** The 64-bit two's-complement pattern of a `long`. */
  function Unsigned64(x: int64): (u: nat)
    ensures u < 0x1_0000_0000_0000_0000
    ensures (u - x) % 0x1_0000_0000_0000_0000 == 0
    ensures x < 0 <==> u >= 0x8000_0000_0000_0000
  {
    if x < 0 then x + 0x1_0000_0000_0000_0000 else x
  }

  /** The sixteen constants of `ProtobufType`. */
  datatype ProtobufType =
    | DOUBLE | FLOAT | INT32 | INT64 | UINT32 | UINT64 | SINT32 | SINT64
    | SFIXED32 | SFIXED64 | FIXED32 | FIXED64 | BOOL | STRING | BYTES | MESSAGE

  /**
    A Java `String` as the UTF-8 encoder hands it over: its encoded bytes
    (the buffer up to its limit) and the number of unused bytes the encoder
    left at the end of the backing array, which are zero.
   */
  datatype JavaString = JavaString(utf8: seq<byte>, spare: nat)

  /** The encoder's output for a string lives in one Java array, unused bytes included. */
  type EncodedString = s: JavaString | |s.utf8| + s.spare <= MaxArrayLength
    witness JavaString([], 0)

  /**
    A field value as reflection returns it. `F32Bits` and `F64Bits` hold
    the raw IEEE-754 bit patterns of a `Float` and a `Double`; `List` is any
    `Iterable`, given by its class name and its elements in iteration order;
    `Msg` is an instance of a class with annotated fields, given
    by its class name and its annotated fields in declaration order.
   */
  datatype Value =
    | Null
    | I32(i: int32)
    | I64(l: int64)
    | Bool(b: bool)
    | Str(s: EncodedString)
    | Bytes(data: ByteArray)
    | F32Bits(bits32: int32)
    | F64Bits(bits64: int64)
    | List(className: string, elems: seq<Value>)
    | Msg(className: string, fields: seq<Field>)

  /** One `@ProtobufField` annotation together with the value it resolved to. */
  datatype Field = Field(fieldNumber: int32, protobufType: ProtobufType, value: Value)

  /** The name `getClass().getName()` gives for a non-null value. */
  function RuntimeClass(v: Value): string
  {
    match v
    case Null => ""
    case I32(_) => "java.lang.Integer"
    case I64(_) => "java.lang.Long"
    case Bool(_) => "java.lang.Boolean"
    case Str(_) => "java.lang.String"
    case Bytes(_) => "[B"
    case F32Bits(_) => "java.lang.Float"
    case F64Bits(_) => "java.lang.Double"
    case List(className, _) => className
    case Msg(className, _) => className
  }

  /** The annotated fields `getDeclaredFields` yields for a value; only a `Msg` has any. */
  function FieldsOf(v: Value): seq<Field>
  {
    if v.Msg? then v.fields else []
  }

  /** The exceptions the encoder throws, named by their cause. */
  datatype SerializationError =
    | InvalidFieldNumber(fieldNumber: int)
    | DuplicateFieldNumber(fieldNumber: int)
    | CircularReference(className: string)
    | ClassCast
    | NullPointer
    | OutOfMemory

  datatype Option<T> = None | Some(value: T)

  datatype Result<T> = Ok(value: T) | Err(error: SerializationError) {
    predicate IsFailure() { Err? }
    function PropagateFailure<U>(): Result<U>
      requires Err?
    {
      Err(error)
    }
    function Extract(): T
      requires Ok?
    {
      value
    }
  }

  /** The result of a `void` method that may throw. */
  datatype Outcome = Pass | Fail(error: SerializationError)
}
