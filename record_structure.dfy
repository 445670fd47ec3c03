/**
  When the encoder's output is a well-formed protobuf message: every key it
  writes announces the wire type of the payload after it, a nested message
  or packed list is one length-delimited record whatever its content, and
  so an object's bytes split into whole records unless one of its own
  fields is a scalar empty string, whose key is written with no payload.
 */
module MessageRecords {
  import opened ProtoTypes
  import opened Bits
  import opened VarintCodec
  import opened WireTypes
  import opened TypeMapper
  import opened WireEncoding
  import opened Visits
  import opened MessageWalk
  import opened WireRecords

  /** Every key `appendPrefix` writes reads back as a varint whose low three bits are the wire type's id. */
  lemma TagAnnouncesWireType(ver: Version, t: ProtobufType, fieldNumber: int32)
    requires Tag(ver, t, fieldNumber).Ok?
    ensures var tag := Tag(ver, t, fieldNumber).value;
      var key := Unsigned64(Key(fieldNumber, GetWireType(t).value));
      DecodeVarint(tag) == Some((key, |tag|)) && key % 8 == WireTypeId(GetWireType(t).value)
  {
    var w := GetWireType(t).value;
    var tag := Tag(ver, t, fieldNumber).value;
    VarintRoundTrip(Unsigned64(Key(fieldNumber, w)), []);
    assert tag + [] == tag;
    if fieldNumber < 0x1000_0000 {
      KeyOfSmallFieldNumber(fieldNumber, w);
    } else {
      LargeFieldNumberTag(t, fieldNumber);
      DivModUnique(Unsigned64(Key(fieldNumber, w)), 8, fieldNumber + 0x2000_0000_0000_0000 - 0x2000_0000, WireTypeId(w));
    }
  }

  /** A length-delimited record under a field number: `Embedded` writes whole records or nothing. */
  lemma EmbeddedIsRecords(ver: Version, fieldNumber: int32, content: seq<byte>)
    requires Embedded(ver, fieldNumber, content).Ok?
    ensures Records(Embedded(ver, fieldNumber, content).value)
  {
    if content != [] {
      var tag := Tag(ver, BYTES, fieldNumber).value;
      TagAnnouncesWireType(ver, BYTES, fieldNumber);
      LengthDelimitedDecodes(content);
      OneRecord(Unsigned64(Key(fieldNumber, LENGTH_DELIMITED)), tag, LengthDelimited(content));
    }
  }

  /** A scalar `STRING` field holding the empty string: its key is written, its payload is not. */
  predicate EmptyStringField(f: Field)
  {
    f.protobufType == STRING && f.value.Str? && f.value.s.utf8 == []
  }

  /** Every payload `append` writes is non-empty, except that of the empty string. */
  lemma PayloadNonEmpty(ver: Version, t: ProtobufType, v: Value)
    requires Payload(ver, t, v).Ok? && t != MESSAGE && !v.Null?
    requires !(t == STRING && v.Str? && v.s.utf8 == [])
    ensures Payload(ver, t, v).value != []
  {
  }

  /** A field that is not a `MESSAGE` and not an empty string is written as whole records. */
  lemma ScalarFieldIsRecords(ver: Version, f: Field)
    requires ScalarField(ver, f).Ok? && f.protobufType != MESSAGE && !f.value.Null?
    requires !EmptyStringField(f)
    ensures Records(ScalarField(ver, f).value)
  {
    if f.value.List? {
      var content := Packed(ver, f.protobufType, f.value.elems).value;
      EmbeddedIsRecords(ver, f.fieldNumber, content);
    } else {
      var tag := Tag(ver, f.protobufType, f.fieldNumber).value;
      var payload := Payload(ver, f.protobufType, f.value).value;
      TagAnnouncesWireType(ver, f.protobufType, f.fieldNumber);
      PayloadMatchesWireType(ver, f.protobufType, f.value);
      PayloadNonEmpty(ver, f.protobufType, f.value);
      OneRecord(Unsigned64(Key(f.fieldNumber, GetWireType(f.protobufType).value)), tag, payload);
    }
  }

  /** The nested records of a `MESSAGE` field are whole records, whatever the nested messages hold. */
  lemma {:induction false} ElementsAreRecords(ver: Version, v: Value, i: nat, j: nat, level: int, visited: VisitMap)
    requires i < |FieldsOf(v)| && j <= |ElementsOf(FieldsOf(v)[i].value)|
    requires SerializeElements(ver, v, i, j, level, visited).Ok?
    ensures Records(SerializeElements(ver, v, i, j, level, visited).value.bytes)
    decreases |ElementsOf(FieldsOf(v)[i].value)| - j
  {
    var f := FieldsOf(v)[i];
    var elems := ElementsOf(f.value);
    if j < |elems| {
      var w := SerializeObject(ver, elems[j], level, visited, {}).value;
      var record := Embedded(ver, f.fieldNumber, w.bytes).value;
      EmbeddedIsRecords(ver, f.fieldNumber, w.bytes);
      ElementsAreRecords(ver, v, i, j + 1, level, w.visited);
      RecordsAppend(record, SerializeElements(ver, v, i, j + 1, level, w.visited).value.bytes);
    }
  }

  /** No field of `v` from `i` on is a scalar empty string. */
  predicate NoEmptyStringFrom(v: Value, i: nat)
  {
    forall k :: i <= k < |FieldsOf(v)| ==> !EmptyStringField(FieldsOf(v)[k])
  }

  lemma {:induction false} FieldsAreRecords(ver: Version, v: Value, i: nat, level: int, visited: VisitMap, seen: set<int>)
    requires i <= |FieldsOf(v)| && NoEmptyStringFrom(v, i)
    requires SerializeFields(ver, v, i, level, visited, seen).Ok?
    ensures Records(SerializeFields(ver, v, i, level, visited, seen).value.bytes)
    decreases |FieldsOf(v)| - i
  {
    if i < |FieldsOf(v)| {
      var f := FieldsOf(v)[i];
      var seen' := seen + {f.fieldNumber};
      if f.value.Null? {
        FieldsAreRecords(ver, v, i + 1, level, visited, seen');
      } else {
        var step := SerializeField(ver, v, i, level, visited).value;
        if f.protobufType == MESSAGE {
          ElementsAreRecords(ver, v, i, 0, step.level, visited);
        } else {
          ScalarFieldIsRecords(ver, f);
        }
        FieldsAreRecords(ver, v, i + 1, step.level, step.visited, seen');
        RecordsAppend(step.bytes, SerializeFields(ver, v, i + 1, step.level, step.visited, seen').value.bytes);
      }
    }
  }

  /**
    A serialised object splits into whole records as long as none of its
    own fields is a scalar empty string; empty strings inside nested
    messages do not matter here, for those are wrapped in a length.
   */
  lemma ObjectIsRecords(ver: Version, v: Value, level: int, visited: VisitMap)
    requires NoEmptyStringFrom(v, 0)
    requires SerializeObject(ver, v, level, visited, {}).Ok?
    ensures Records(SerializeObject(ver, v, level, visited, {}).value.bytes)
  {
    FieldsAreRecords(ver, v, 0, level, MarkVisited(visited, RuntimeClass(v), level), {});
  }
}
