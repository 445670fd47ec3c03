/**
  Three places where the encoder does not do what its comments and the
  protobuf encoding promise, each shown on an input, next to the behaviour
  that was evidently intended with its property proved.
 */
module Findings {
  import opened ProtoTypes
  import opened Bits
  import opened VarintCodec
  import opened WireTypes
  import opened TypeMapper
  import opened WireEncoding
  import opened Visits
  import opened MessageWalk
  import opened WireRecords
  import opened MessageRecords
  import opened WalkProperties
  import opened WalkExamples

  /**
    The earlier encoder's largest field number is 30 (`2 ^ 29` is an
    exclusive or), so it refuses field number 31, which the current
    encoder writes as the two-byte key `F8 01`.
   */
  lemma EarlierRefusesFieldNumber31()
    ensures Tag(Earlier, INT32, 31) == Err(InvalidFieldNumber(31))
    ensures Tag(Current, INT32, 31) == Ok([0xF8, 0x01])
  {
    KeyOfSmallFieldNumber(31, VARINT);
    assert 248 / 0x80 == 1 && 248 % 0x80 == 0x78;
    assert Varint(248) == [0xF8, 0x01];
  }

  /** Every field number from 31 to protobuf's limit is refused by the earlier encoder. */
  lemma EarlierRefusesValidFieldNumbers(t: ProtobufType, fieldNumber: int32)
    requires 31 <= fieldNumber <= 0x1FFF_FFFF
    ensures Tag(Earlier, t, fieldNumber) == Err(InvalidFieldNumber(fieldNumber))
  {
  }

  /**
    The corrected limit, as the current encoder has it: every field number
    protobuf allows, 1 to 2^29 - 1, is accepted, and its key announces the
    field's wire type.
   */
  lemma CurrentAcceptsProtobufFieldNumbers(t: ProtobufType, fieldNumber: int32)
    requires 1 <= fieldNumber < Pow2(29) && t != MESSAGE
    ensures Tag(Current, t, fieldNumber).Ok?
    ensures var tag := Tag(Current, t, fieldNumber).value;
      DecodeVarint(tag).Some? && DecodeVarint(tag).value.1 == |tag|
      && DecodeVarint(tag).value.0 % 8 == WireTypeId(GetWireType(t).value)
  {
    Pow2Wide();
    TagAnnouncesWireType(Current, t, fieldNumber);
  }

  /**
    Ten ASCII characters: the JDK's UTF-8 encoder sizes its buffer at 1.1
    bytes a character, so the backing array has one unused byte.
   */
  function TenLetters(): (s: JavaString)
    ensures |s.utf8| == 10 && s.spare == 1
  {
    JavaString([0x61, 0x62, 0x63, 0x64, 0x65, 0x66, 0x67, 0x68, 0x69, 0x6A], 1)
  }

  /**
    The earlier encoder writes the whole backing array: the length says 11
    and a reader gets the ten letters followed by a zero byte.
   */
  lemma EarlierStringHasTrailingZero(s: JavaString)
    requires s == TenLetters()
    ensures LengthDelimitedString(Earlier, Some(s))
      == [0x0B, 0x61, 0x62, 0x63, 0x64, 0x65, 0x66, 0x67, 0x68, 0x69, 0x6A, 0x00]
    ensures LengthDelimitedString(Current, Some(s))
      == [0x0A, 0x61, 0x62, 0x63, 0x64, 0x65, 0x66, 0x67, 0x68, 0x69, 0x6A]
  {
    var padded := s.utf8 + Repeat(0, s.spare);
    assert Repeat(0, 1) == [0x00];
    ShortLengthDelimited(padded);
    ShortLengthDelimited(s.utf8);
    LetterBytes(s.utf8, padded);
  }

  lemma LetterBytes(letters: seq<byte>, padded: seq<byte>)
    requires letters == [0x61, 0x62, 0x63, 0x64, 0x65, 0x66, 0x67, 0x68, 0x69, 0x6A] && padded == letters + [0x00]
    ensures [0x0B] + padded == [0x0B, 0x61, 0x62, 0x63, 0x64, 0x65, 0x66, 0x67, 0x68, 0x69, 0x6A, 0x00]
    ensures [0x0A] + letters == [0x0A, 0x61, 0x62, 0x63, 0x64, 0x65, 0x66, 0x67, 0x68, 0x69, 0x6A]
  {
  }

  /** Whenever the encoder's array has unused room, the earlier encoder's string is not the string. */
  lemma EarlierStringDiffersWithSpareRoom(s: JavaString)
    requires s.utf8 != [] && s.spare > 0
    ensures LengthDelimitedString(Earlier, Some(s)) != LengthDelimitedString(Current, Some(s))
  {
    var e := s.utf8 + Repeat(0, s.spare);
    assert |e| > |s.utf8|;
  }

  /** The corrected string: exactly the UTF-8 bytes, whatever room the encoder's array had. */
  lemma CurrentStringIsExact(s: JavaString)
    requires s.utf8 != []
    ensures LengthDelimitedString(Current, Some(s)) == LengthDelimited(s.utf8)
    ensures var r := LengthDelimitedString(Current, Some(s));
      DecodeVarint(r) == Some((|s.utf8|, |r| - |s.utf8|)) && r[|r| - |s.utf8|..] == s.utf8
  {
    StringRoundTrip(Current, s);
  }

  /**
    A scalar empty string writes its key (`0A`, field 1, length-delimited)
    and then nothing, in both revisions; `DanglingAfterKey` shows that
    these bytes no longer split into records.
   */
  lemma EmptyStringLeavesDanglingKey(ver: Version, className: string)
    ensures SerializeMessage(ver,
      Msg(className, [Field(1, STRING, Str(JavaString([], 0))), Field(2, INT32, I32(1))]))
      == Ok([0x0A, 0x10, 0x01])
  {
    EmptyStringObject(ver, Msg(className, [Field(1, STRING, Str(JavaString([], 0))), Field(2, INT32, I32(1))]));
  }

  /** The message object of that example, entered at level 0 with nothing visited yet. */
  lemma EmptyStringObject(ver: Version, m: Value)
    requires m.Msg? && m.fields == [Field(1, STRING, Str(JavaString([], 0))), Field(2, INT32, I32(1))]
    ensures SerializeObject(ver, m, 0, map[], {}).Ok?
    ensures SerializeObject(ver, m, 0, map[], {}).value.bytes == [0x0A, 0x10, 0x01]
  {
    EnterObject(ver, m, 0, map[]);
    EmptyStringThenInt(ver, m, MarkVisited(map[], RuntimeClass(m), 0));
  }

  /** The two fields: the string's key `0A`, then the `int` field's `10 01`. */
  lemma EmptyStringThenInt(ver: Version, v: Value, visited: VisitMap)
    requires FieldsOf(v) == [Field(1, STRING, Str(JavaString([], 0))), Field(2, INT32, I32(1))]
    ensures SerializeFields(ver, v, 0, 0, visited, {}) == Ok(Walk([0x0A, 0x10, 0x01], visited))
  {
    EmptyStringFirst(ver, v, visited);
    SecondIntField(ver, v, visited);
    KeyThenInt([0x0A], [0x10, 0x01]);
  }

  /** The first of the two fields writes `0A` and the walk goes on with field number 1 seen. */
  lemma EmptyStringFirst(ver: Version, v: Value, visited: VisitMap)
    requires FieldsOf(v) == [Field(1, STRING, Str(JavaString([], 0))), Field(2, INT32, I32(1))]
    ensures SerializeFields(ver, v, 0, 0, visited, {}) == Prepend([0x0A], SerializeFields(ver, v, 1, 0, visited, {1}))
  {
    EmptyStringKeyOnly(ver, FieldsOf(v)[0]);
    assert {} + {1} == {1};
  }

  lemma KeyThenInt(key: seq<byte>, rest: seq<byte>)
    requires key == [0x0A] && rest == [0x10, 0x01]
    ensures key + rest == [0x0A, 0x10, 0x01]
  {
  }

  /** The empty string under field 1: the key `0A` alone. */
  lemma EmptyStringKeyOnly(ver: Version, f: Field)
    requires f == Field(1, STRING, Str(JavaString([], 0)))
    ensures ScalarField(ver, f) == Ok([0x0A])
  {
    OneByteTagIs(ver, STRING, 1, LENGTH_DELIMITED, 0x0A);
    assert Payload(ver, STRING, f.value) == Ok([]);
    assert [0x0A] + [] == [0x0A];
  }

  lemma SecondIntField(ver: Version, v: Value, visited: VisitMap)
    requires |FieldsOf(v)| == 2 && FieldsOf(v)[1] == Field(2, INT32, I32(1))
    ensures SerializeFields(ver, v, 1, 0, visited, {1}) == Ok(Walk([0x10, 0x01], visited))
  {
    OneByteTag(ver, INT32, 2);
    assert ScalarField(ver, Field(2, INT32, I32(1))) == Ok([0x10, 0x01]) by {
      assert [0x10] + [0x01] == [0x10, 0x01];
    }
    assert {1} + {2} == {1, 2};
    assert SerializeFields(ver, v, 2, 0, visited, {1, 2}) == Ok(Walk([], visited));
    assert [0x10, 0x01] + [] == [0x10, 0x01];
  }

  /** `0A` announces a length-delimited payload; `10` is then read as a length of 16 with one byte left. */
  lemma DanglingAfterKey()
    ensures !Records([0x0A, 0x10, 0x01])
  {
    assert DecodeVarint([0x0A, 0x10, 0x01]) == Some((0x0A, 1));
    assert [0x0A, 0x10, 0x01][1..] == [0x10, 0x01];
    assert DecodeVarint([0x10, 0x01]) == Some((0x10, 1));
  }

  /**
    What the encoder evidently meant for a non-`MESSAGE` field: as before,
    but a field whose payload is empty is left out with its key, as
    protobuf leaves out an empty string.
   */
  function CorrectedScalarField(ver: Version, f: Field): (r: Result<seq<byte>>)
    ensures r.Err? <==> ScalarField(ver, f).Err?
    ensures !EmptyStringField(f) ==> r == ScalarField(ver, f)
    ensures EmptyStringField(f) && r.Ok? ==> r.value == []
  {
    if EmptyStringField(f) then
      match ScalarField(ver, f)
      case Err(e) => Err(e)
      case Ok(_) => Ok([])
    else ScalarField(ver, f)
  }

  /** With the correction every non-null, non-`MESSAGE` field is written as whole records. */
  lemma CorrectedFieldIsRecords(ver: Version, f: Field, rest: seq<byte>)
    requires CorrectedScalarField(ver, f).Ok? && f.protobufType != MESSAGE && !f.value.Null?
    requires Records(rest)
    ensures Records(CorrectedScalarField(ver, f).value + rest)
  {
    var r := CorrectedScalarField(ver, f).value;
    if EmptyStringField(f) {
      assert r + rest == rest;
    } else {
      ScalarFieldIsRecords(ver, f);
      RecordsAppend(r, rest);
    }
  }

  /**
    An object of class `c` whose only field, a `MESSAGE` list of class `lc`,
    holds the object itself, unrolled `n` times: the innermost copy's field
    is `null`. In Java the list holds the very object, a cycle.
   */
  function SelfList(c: string, lc: string, n: nat): (v: Value)
    ensures RuntimeClass(v) == c && |FieldsOf(v)| == 1
    ensures FieldsOf(v)[0].fieldNumber == 1 && FieldsOf(v)[0].protobufType == MESSAGE
    ensures n > 0 <==> FieldsOf(v)[0].value.List?
  {
    if n == 0 then Msg(c, [Field(1, MESSAGE, Null)])
    else Msg(c, [Field(1, MESSAGE, List(lc, [SelfList(c, lc, n - 1)]))])
  }

  /**
    The earlier encoder walks every unrolling of the self-containing list at
    one level: each copy marks `c` at that same level, so none is taken for
    a circular reference, and each writes nothing.
   */
  lemma {:induction false} EarlierSelfListWalk(c: string, lc: string, n: nat, level: int, visited: VisitMap)
    requires !SeenAtOtherLevel(visited, c, level)
    ensures var r := SerializeObject(Earlier, SelfList(c, lc, n), level, visited, {});
      r.Ok? && r.value.bytes == [] && !SeenAtOtherLevel(r.value.visited, c, level)
    decreases n
  {
    var v := SelfList(c, lc, n);
    var marked := MarkVisited(visited, c, level);
    CircularIffEnteredElsewhere(visited, c, level);
    assert SerializeObject(Earlier, v, level, visited, {}) == SerializeFields(Earlier, v, 0, level, marked, {});
    if n == 0 {
      assert SerializeFields(Earlier, v, 0, level, marked, {}) == SerializeFields(Earlier, v, 1, level, marked, {1});
    } else {
      var e := SelfList(c, lc, n - 1);
      assert ElementsOf(FieldsOf(v)[0].value) == [e];
      assert NestedLevel(Earlier, FieldsOf(v)[0].value, level) == level;
      EarlierSelfListWalk(c, lc, n - 1, level, marked);
      OneObjectField(Earlier, v, 0, level, marked, {});
      var o := SerializeObject(Earlier, e, level, marked, {});
      assert SerializeFields(Earlier, v, 0, level, marked, {}) == SerializeFields(Earlier, v, 1, level, o.value.visited, {1});
    }
  }

  /**
    The earlier encoder never reports the self-containing list: every
    unrolling is accepted and writes nothing, so on the real cycle the
    recursion only ends when the stack overflows.
   */
  lemma EarlierMissesSelfList(c: string, lc: string, n: nat)
    ensures SerializeMessage(Earlier, SelfList(c, lc, n)) == Ok([])
  {
    EarlierSelfListWalk(c, lc, n, 0, map[]);
  }

  /**
    The current encoder refuses the same object as soon as it is unrolled
    once: the copy inside the list is entered at level 1 after the outer
    one at level 0.
   */
  lemma CurrentRefusesSelfList(c: string, lc: string, n: nat)
    requires n >= 1
    ensures SerializeMessage(Current, SelfList(c, lc, n)) == Err(CircularReference(c))
  {
    var v := SelfList(c, lc, n);
    var e := SelfList(c, lc, n - 1);
    var v0 := MarkVisited(map[], c, 0);
    EnterObject(Current, v, 0, map[]);
    assert ElementsOf(FieldsOf(v)[0].value) == [e];
    assert v0[c] == [0];
    CircularIffEnteredElsewhere(v0, c, 1);
    assert SeenAtOtherLevel(v0, c, 1);
    assert SerializeObject(Current, e, 1, v0, {}) == Err(CircularReference(c));
    OneObjectField(Current, v, 0, 0, v0, {});
  }
}
