/**
  The table from `ProtobufType` to the wire type of its payload. `MESSAGE`
  has no entry: looking it up gives nothing.
 */
module TypeMapper {
  import opened ProtoTypes
  import opened WireTypes

  function GetWireType(t: ProtobufType): (r: Option<WireType>)
    ensures r.None? <==> t == MESSAGE
  {
    match t
    case BOOL => Some(VARINT)
    case BYTES => Some(LENGTH_DELIMITED)
    case DOUBLE => Some(FIXED_64)
    case FIXED32 => Some(FIXED_32)
    case FIXED64 => Some(FIXED_64)
    case FLOAT => Some(FIXED_32)
    case INT32 => Some(VARINT)
    case INT64 => Some(VARINT)
    case SINT32 => Some(VARINT)
    case SINT64 => Some(VARINT)
    case SFIXED32 => Some(FIXED_32)
    case SFIXED64 => Some(FIXED_64)
    case STRING => Some(LENGTH_DELIMITED)
    case UINT32 => Some(VARINT)
    case UINT64 => Some(VARINT)
    case MESSAGE => None
  }

  /** The integer and boolean types travel as varints, and only they. */
  lemma VarintGroup(t: ProtobufType)
    ensures GetWireType(t) == Some(VARINT)
      <==> t in {INT32, INT64, UINT32, UINT64, SINT32, SINT64, BOOL}
  {
  }

  /** `float` and the 32-bit fixed integers take four bytes, and only they. */
  lemma Fixed32Group(t: ProtobufType)
    ensures GetWireType(t) == Some(FIXED_32) <==> t in {FLOAT, FIXED32, SFIXED32}
  {
  }

  /** `double` and the 64-bit fixed integers take eight bytes, and only they. */
  lemma Fixed64Group(t: ProtobufType)
    ensures GetWireType(t) == Some(FIXED_64) <==> t in {DOUBLE, FIXED64, SFIXED64}
  {
  }

  /** Strings and byte arrays are length-delimited; a nested message has no entry of its own. */
  lemma LengthDelimitedGroup(t: ProtobufType)
    ensures GetWireType(t) == Some(LENGTH_DELIMITED) <==> t in {STRING, BYTES}
  {
  }
}
