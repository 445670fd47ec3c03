/**
  The four protobuf wire types the encoder emits, and the three-bit id each
  contributes to a field key.
 */
module WireTypes {
  import opened ProtoTypes

  datatype WireType = VARINT | FIXED_32 | FIXED_64 | LENGTH_DELIMITED

  /** The id a key carries in its low three bits. */
  function WireTypeId(w: WireType): (id: nat)
    ensures id < 8
  {
    match w
    case VARINT => 0
    case FIXED_32 => 5
    case FIXED_64 => 1
    case LENGTH_DELIMITED => 2
  }

  /** The wire type a reader recognises from a key's low three bits, if it is one of the four. */
  function FromWireTypeId(id: nat): (r: Option<WireType>)
    ensures r.Some? ==> id < 8
  {
    if id == 0 then Some(VARINT)
    else if id == 5 then Some(FIXED_32)
    else if id == 1 then Some(FIXED_64)
    else if id == 2 then Some(LENGTH_DELIMITED)
    else None
  }

  /** Ids and wire types are in one-to-one correspondence, so distinct wire types have distinct ids. */
  lemma WireTypeIdRoundTrip(w: WireType, id: nat)
    ensures FromWireTypeId(WireTypeId(w)) == Some(w)
    ensures FromWireTypeId(id) == Some(w) ==> WireTypeId(w) == id
  {
  }

  lemma WireTypeIdsDistinct(w: WireType, w': WireType)
    ensures WireTypeId(w) == WireTypeId(w') <==> w == w'
  {
    WireTypeIdRoundTrip(w, 0);
    WireTypeIdRoundTrip(w', 0);
  }
}
