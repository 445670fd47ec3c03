/**
  The message walk on the object graphs of the encoder's tests, and on
  graphs where the circular-reference heuristic and the two revisions'
  nesting levels give different answers.
 */
module WalkExamples {
  import opened ProtoTypes
  import opened Visits
  import opened WireEncoding
  import opened MessageWalk
  import opened WalkProperties

  /** A class of message seen once, at `level`, is not a circular reference. */
  lemma FirstEntry(className: string, level: int)
    ensures !SeenAtOtherLevel(MarkVisited(map[], className, level), className, level)
  {
    CircularIffEnteredElsewhere(map[], className, level);
  }

  /** An object of a class not yet visited, with one `INT32` field number 1 holding 2, writes `08 02`. */
  lemma SingleIntObject(ver: Version, className: string, level: int, visited: VisitMap)
    requires className !in visited
    ensures SerializeObject(ver, Msg(className, [Field(1, INT32, I32(2))]), level, visited, {})
      == Ok(Walk([0x08, 0x02], MarkVisited(visited, className, level)))
  {
    var m := Msg(className, [Field(1, INT32, I32(2))]);
    assert RuntimeClass(m) == className;
    EnterObject(ver, m, level, visited);
    SingleIntFields(ver, m, level, MarkVisited(visited, className, level));
  }

  /** The one field of that object: key `08`, payload `02`, and no more fields. */
  lemma SingleIntFields(ver: Version, m: Value, level: int, visited: VisitMap)
    requires FieldsOf(m) == [Field(1, INT32, I32(2))]
    ensures SerializeFields(ver, m, 0, level, visited, {}) == Ok(Walk([0x08, 0x02], visited))
  {
    IntTwoField(ver);
    assert SerializeFields(ver, m, 1, level, visited, {1}) == Ok(Walk([], visited));
    assert {} + {1} == {1};
    ScalarThenRest(ver, m, 0, level, visited, {}, [0x08, 0x02], Walk([], visited));
    assert [0x08, 0x02] + [] == [0x08, 0x02];
  }

  /** The test message with one `INT32` field, number 1, value 2. */
  lemma SingleIntExample(ver: Version)
    ensures SerializeMessage(ver, Msg("TestMessage", [Field(1, INT32, I32(2))])) == Ok([0x08, 0x02])
  {
    SingleIntObject(ver, "TestMessage", 0, map[]);
  }

  /**
    An outer `INT32` field, then a nested message holding the same field,
    under number 2: the nested bytes follow as one length-delimited record.
   */
  lemma NestedExample(ver: Version, outerClass: string, innerClass: string)
    requires outerClass != innerClass
    ensures SerializeMessage(ver,
      Msg(outerClass, [Field(1, INT32, I32(2)), Field(2, MESSAGE, Msg(innerClass, [Field(1, INT32, I32(2))]))]))
      == Ok([0x08, 0x02, 0x12, 0x02, 0x08, 0x02])
  {
    NestedObject(ver, outerClass, innerClass, map[]);
  }

  lemma NestedObject(ver: Version, outerClass: string, innerClass: string, visited: VisitMap)
    requires outerClass != innerClass && outerClass !in visited && innerClass !in visited
    ensures SerializeObject(ver,
      Msg(outerClass, [Field(1, INT32, I32(2)), Field(2, MESSAGE, Msg(innerClass, [Field(1, INT32, I32(2))]))]), 0, visited, {}).Ok?
    ensures SerializeObject(ver,
      Msg(outerClass, [Field(1, INT32, I32(2)), Field(2, MESSAGE, Msg(innerClass, [Field(1, INT32, I32(2))]))]), 0, visited, {}).value.bytes
      == [0x08, 0x02, 0x12, 0x02, 0x08, 0x02]
  {
    var outer := Msg(outerClass, [Field(1, INT32, I32(2)), Field(2, MESSAGE, Msg(innerClass, [Field(1, INT32, I32(2))]))]);
    assert RuntimeClass(outer) == outerClass;
    EnterObject(ver, outer, 0, visited);
    NestedFields(ver, outer, innerClass, MarkVisited(visited, outerClass, 0));
  }

  lemma NestedFields(ver: Version, outer: Value, innerClass: string, v0: VisitMap)
    requires innerClass !in v0
    requires FieldsOf(outer) == [Field(1, INT32, I32(2)), Field(2, MESSAGE, Msg(innerClass, [Field(1, INT32, I32(2))]))]
    ensures SerializeFields(ver, outer, 0, 0, v0, {})
      == Ok(Walk([0x08, 0x02, 0x12, 0x02, 0x08, 0x02], MarkVisited(v0, innerClass, 1)))
  {
    var v1 := MarkVisited(v0, innerClass, 1);
    NestedRest(ver, outer, innerClass, v0);
    IntTwoField(ver);
    ScalarThenRest(ver, outer, 0, 0, v0, {}, [0x08, 0x02], Walk([0x12, 0x02, 0x08, 0x02], v1));
    NestedBytes([0x08, 0x02], [0x12, 0x02, 0x08, 0x02]);
  }

  /** The second field of the nested example, after the first was written. */
  lemma NestedRest(ver: Version, outer: Value, innerClass: string, v0: VisitMap)
    requires innerClass !in v0
    requires |FieldsOf(outer)| == 2 && FieldsOf(outer)[1] == Field(2, MESSAGE, Msg(innerClass, [Field(1, INT32, I32(2))]))
    ensures SerializeFields(ver, outer, 1, 0, v0, {} + {1})
      == Ok(Walk([0x12, 0x02, 0x08, 0x02], MarkVisited(v0, innerClass, 1)))
  {
    SingleIntObject(ver, innerClass, 1, v0);
    NestedRecord(ver, outer, v0, MarkVisited(v0, innerClass, 1));
    assert {} + {1} == {1};
  }

  lemma NestedBytes(field: seq<byte>, record: seq<byte>)
    requires field == [0x08, 0x02] && record == [0x12, 0x02, 0x08, 0x02]
    ensures field + record == [0x08, 0x02, 0x12, 0x02, 0x08, 0x02]
  {
  }

  /** An `INT32` field number 1 holding 2 is key `08` and payload `02`. */
  lemma IntTwoField(ver: Version)
    ensures ScalarField(ver, Field(1, INT32, I32(2))) == Ok([0x08, 0x02])
  {
    OneByteTag(ver, INT32, 1);
    assert [0x08] + [0x02] == [0x08, 0x02];
  }

  lemma NestedRecord(ver: Version, outer: Value, v0: VisitMap, v1: VisitMap)
    requires |FieldsOf(outer)| == 2 && FieldsOf(outer)[1].fieldNumber == 2 && FieldsOf(outer)[1].protobufType == MESSAGE
    requires !FieldsOf(outer)[1].value.List? && !FieldsOf(outer)[1].value.Null?
    requires SerializeObject(ver, FieldsOf(outer)[1].value, 1, v0, {}) == Ok(Walk([0x08, 0x02], v1))
    ensures SerializeFields(ver, outer, 1, 0, v0, {1}) == Ok(Walk([0x12, 0x02, 0x08, 0x02], v1))
  {
    NestedRecordBytes(ver);
    assert SerializeElements(ver, outer, 1, 1, 1, v1) == Ok(Walk([], v1));
    assert [0x12, 0x02, 0x08, 0x02] + [] == [0x12, 0x02, 0x08, 0x02];
    assert SerializeElements(ver, outer, 1, 0, 1, v0) == Ok(Walk([0x12, 0x02, 0x08, 0x02], v1));
    assert SerializeFields(ver, outer, 2, 1, v1, {1, 2}) == Ok(Walk([], v1));
  }

  /** The nested bytes `08 02` under field number 2: key `12`, length 2, then the bytes. */
  lemma NestedRecordBytes(ver: Version)
    ensures Embedded(ver, 2, [0x08, 0x02]) == Ok([0x12, 0x02, 0x08, 0x02])
  {
    OneByteTag(ver, BYTES, 2);
    assert LengthDelimited([0x08, 0x02]) == [0x02, 0x08, 0x02];
    assert [0x12] + [0x02, 0x08, 0x02] == [0x12, 0x02, 0x08, 0x02];
  }

  /**
    Three classes that embed one another in a ring (the third's getter
    builds a new object of the first): the first class comes back at level
    3 after level 0 and the walk fails, in both revisions.
   */
  lemma RingOfThreeFails(ver: Version, a: string, b: string, c: string, fn: int32)
    requires a != b && b != c && a != c
    ensures SerializeMessage(ver,
      Msg(a, [Field(fn, MESSAGE, Msg(b, [Field(fn, MESSAGE, Msg(c, [Field(fn, MESSAGE, Msg(a, []))]))]))]))
      == Err(CircularReference(a))
  {
    var mc := Msg(c, [Field(fn, MESSAGE, Msg(a, []))]);
    var mb := Msg(b, [Field(fn, MESSAGE, mc)]);
    var v0 := MarkVisited(map[], a, 0);
    RingClosesAtThird(ver, a, b, c, fn);
    assert b !in v0;
    OnlyFieldFails(ver, mb, 1, v0, CircularReference(a));
    OnlyFieldFails(ver, Msg(a, [Field(fn, MESSAGE, mb)]), 0, map[], CircularReference(a));
  }

  /** The third object of the ring, entered at level 2, meets the first class again at level 3. */
  lemma RingClosesAtThird(ver: Version, a: string, b: string, c: string, fn: int32)
    requires a != b && b != c && a != c
    ensures SerializeObject(ver, Msg(c, [Field(fn, MESSAGE, Msg(a, []))]), 2,
      MarkVisited(MarkVisited(map[], a, 0), b, 1), {}) == Err(CircularReference(a))
  {
    var v1 := MarkVisited(MarkVisited(map[], a, 0), b, 1);
    var v2 := MarkVisited(v1, c, 2);
    assert MarkVisited(v2, a, 3)[a] == [0, 3];
    assert SerializeObject(ver, Msg(a, []), 3, v2, {}) == Err(CircularReference(a));
    OnlyFieldFails(ver, Msg(c, [Field(fn, MESSAGE, Msg(a, []))]), 2, v1, CircularReference(a));
  }

  /**
    An object entered for the first time whose one field is a single
    message that fails one level deeper fails the same way.
   */
  lemma OnlyFieldFails(ver: Version, v: Value, level: int, visited: VisitMap, e: SerializationError)
    requires v.Msg? && v.className !in visited
    requires |v.fields| == 1 && v.fields[0].protobufType == MESSAGE && v.fields[0].value.Msg?
    requires SerializeObject(ver, v.fields[0].value, level + 1, MarkVisited(visited, v.className, level), {}) == Err(e)
    ensures SerializeObject(ver, v, level, visited, {}) == Err(e)
  {
    EnterObject(ver, v, level, visited);
    OneObjectField(ver, v, 0, level, MarkVisited(visited, v.className, level), {});
  }

  /**
    A `MESSAGE` field that stands for one object: the object's failure is
    the walk's failure, and an object that writes nothing leaves no record,
    the walk continuing at the field's nesting level.
   */
  lemma OneObjectField(ver: Version, v: Value, i: nat, level: int, visited: VisitMap, seen: set<int>)
    requires i < |FieldsOf(v)|
    requires FieldsOf(v)[i].fieldNumber !in seen && !FieldsOf(v)[i].value.Null?
    requires FieldsOf(v)[i].protobufType == MESSAGE && |ElementsOf(FieldsOf(v)[i].value)| == 1
    ensures var f := FieldsOf(v)[i];
      var nested := NestedLevel(ver, f.value, level);
      var o := SerializeObject(ver, ElementsOf(f.value)[0], nested, visited, {});
      && (o.Err? ==> SerializeFields(ver, v, i, level, visited, seen) == Err(o.error))
      && (o.Ok? && o.value.bytes == [] ==>
            SerializeFields(ver, v, i, level, visited, seen)
            == SerializeFields(ver, v, i + 1, nested, o.value.visited, seen + {f.fieldNumber}))
  {
    var f := FieldsOf(v)[i];
    var nested := NestedLevel(ver, f.value, level);
    var o := SerializeObject(ver, ElementsOf(f.value)[0], nested, visited, {});
    if o.Err? {
      assert SerializeElements(ver, v, i, 0, nested, visited) == Err(o.error);
      assert SerializeField(ver, v, i, level, visited) == Err(o.error);
    } else if o.value.bytes == [] {
      assert SerializeElements(ver, v, i, 1, nested, o.value.visited) == Ok(Walk([], o.value.visited));
      assert SerializeElements(ver, v, i, 0, nested, visited) == Ok(Walk([], o.value.visited));
      assert SerializeField(ver, v, i, level, visited) == Ok(Step([], nested, o.value.visited));
      var rest := SerializeFields(ver, v, i + 1, nested, o.value.visited, seen + {f.fieldNumber});
      if rest.Ok? {
        assert [] + rest.value.bytes == rest.value.bytes;
      }
    }
  }

  /**
    An object with no annotated fields (a message of a class without any,
    or an `Iterable` walked as an object), entered for the first time or
    again at the same level, writes nothing and marks its class.
   */
  lemma EmptyObject(ver: Version, v: Value, level: int, visited: VisitMap)
    requires !v.Null? && FieldsOf(v) == []
    requires !SeenAtOtherLevel(visited, RuntimeClass(v), level)
    ensures SerializeObject(ver, v, level, visited, {}) == Ok(Walk([], MarkVisited(visited, RuntimeClass(v), level)))
  {
    CircularIffEnteredElsewhere(visited, RuntimeClass(v), level);
  }

  /** A `MESSAGE` field holding one object with no fields: no record, one more visit. */
  lemma EmptyObjectField(ver: Version, v: Value, i: nat, level: int, visited: VisitMap, seen: set<int>, e: Value)
    requires i < |FieldsOf(v)| && FieldsOf(v)[i].fieldNumber !in seen
    requires FieldsOf(v)[i].protobufType == MESSAGE && !FieldsOf(v)[i].value.Null?
    requires ElementsOf(FieldsOf(v)[i].value) == [e] && !e.Null? && FieldsOf(e) == []
    requires !SeenAtOtherLevel(visited, RuntimeClass(e), NestedLevel(ver, FieldsOf(v)[i].value, level))
    ensures var nested := NestedLevel(ver, FieldsOf(v)[i].value, level);
      SerializeFields(ver, v, i, level, visited, seen)
      == SerializeFields(ver, v, i + 1, nested, MarkVisited(visited, RuntimeClass(e), nested), seen + {FieldsOf(v)[i].fieldNumber})
  {
    EmptyObject(ver, e, NestedLevel(ver, FieldsOf(v)[i].value, level), visited);
    OneObjectField(ver, v, i, level, visited, seen);
  }

  /** The last field of an object, a `MESSAGE` field holding one object with no fields: the walk ends with no bytes and one more visit. */
  lemma LastEmptyObjectField(ver: Version, v: Value, i: nat, level: int, visited: VisitMap, seen: set<int>, e: Value)
    requires i + 1 == |FieldsOf(v)| && FieldsOf(v)[i].fieldNumber !in seen
    requires FieldsOf(v)[i].protobufType == MESSAGE && !FieldsOf(v)[i].value.Null?
    requires ElementsOf(FieldsOf(v)[i].value) == [e] && !e.Null? && FieldsOf(e) == []
    requires !SeenAtOtherLevel(visited, RuntimeClass(e), NestedLevel(ver, FieldsOf(v)[i].value, level))
    ensures SerializeFields(ver, v, i, level, visited, seen)
      == Ok(Walk([], MarkVisited(visited, RuntimeClass(e), NestedLevel(ver, FieldsOf(v)[i].value, level))))
  {
    EmptyObjectField(ver, v, i, level, visited, seen, e);
  }

  /** A `MESSAGE` field whose object's class was entered at another level fails the walk. */
  lemma CircularObjectField(ver: Version, v: Value, i: nat, level: int, visited: VisitMap, seen: set<int>, className: string)
    requires i < |FieldsOf(v)| && FieldsOf(v)[i].fieldNumber !in seen
    requires FieldsOf(v)[i].protobufType == MESSAGE && !FieldsOf(v)[i].value.Null?
    requires ElementsOf(FieldsOf(v)[i].value) == [Msg(className, [])]
    requires SeenAtOtherLevel(visited, className, NestedLevel(ver, FieldsOf(v)[i].value, level))
    ensures SerializeFields(ver, v, i, level, visited, seen) == Err(CircularReference(className))
  {
    CircularIffEnteredElsewhere(visited, className, NestedLevel(ver, FieldsOf(v)[i].value, level));
    OneObjectField(ver, v, i, level, visited, seen);
  }

  /**
    Two fields of one class side by side are taken for a circular
    reference: each `MESSAGE` field goes one level deeper, so the second
    object is entered at level 2 after the first at level 1. Both revisions.
   */
  lemma SiblingsOfOneClassFail(ver: Version, parent: string, child: string)
    requires parent != child
    ensures SerializeMessage(ver,
      Msg(parent, [Field(1, MESSAGE, Msg(child, [])), Field(2, MESSAGE, Msg(child, []))]))
      == Err(CircularReference(child))
  {
    var m := Msg(parent, [Field(1, MESSAGE, Msg(child, [])), Field(2, MESSAGE, Msg(child, []))]);
    var v0 := MarkVisited(map[], parent, 0);
    assert RuntimeClass(m) == parent;
    EnterObject(ver, m, 0, map[]);
    EmptyObjectField(ver, m, 0, 0, v0, {}, Msg(child, []));
    var v1 := MarkVisited(v0, child, 1);
    assert {} + {1} == {1};
    assert v1[child] == [1];
    CircularObjectField(ver, m, 1, 1, v1, {1}, child);
  }

  /**
    Two repeated fields of one class: the current revision enters the
    second list one level deeper than the first and reports a circular
    reference.
   */
  lemma TwoListsOfOneClassFail(parent: string, child: string, listClass: string)
    requires parent != child
    ensures SerializeMessage(Current,
      Msg(parent, [Field(1, MESSAGE, List(listClass, [Msg(child, [])])), Field(2, MESSAGE, List(listClass, [Msg(child, [])]))]))
      == Err(CircularReference(child))
  {
    var m := Msg(parent, [Field(1, MESSAGE, List(listClass, [Msg(child, [])])), Field(2, MESSAGE, List(listClass, [Msg(child, [])]))]);
    var v0 := MarkVisited(map[], parent, 0);
    assert RuntimeClass(m) == parent;
    EnterObject(Current, m, 0, map[]);
    EmptyObjectField(Current, m, 0, 0, v0, {}, Msg(child, []));
    var v1 := MarkVisited(v0, child, 1);
    assert {} + {1} == {1};
    assert v1[child] == [1];
    CircularObjectField(Current, m, 1, 1, v1, {1}, child);
  }

  /**
    The same object in the earlier revision: lists stay at the parent's
    level, so the class is entered twice at level 0, and the empty nested
    messages leave no record.
   */
  lemma TwoListsOfOneClassPassedBefore(parent: string, child: string, listClass: string)
    requires parent != child
    ensures SerializeMessage(Earlier,
      Msg(parent, [Field(1, MESSAGE, List(listClass, [Msg(child, [])])), Field(2, MESSAGE, List(listClass, [Msg(child, [])]))]))
      == Ok([])
  {
    var m := Msg(parent, [Field(1, MESSAGE, List(listClass, [Msg(child, [])])), Field(2, MESSAGE, List(listClass, [Msg(child, [])]))]);
    assert RuntimeClass(m) == parent;
    EnterObject(Earlier, m, 0, map[]);
    TwoListsAtOneLevel(m, child, listClass, MarkVisited(map[], parent, 0));
  }

  /** The two lists of the earlier revision's object, each entered at level 0. */
  lemma TwoListsAtOneLevel(m: Value, child: string, listClass: string, v0: VisitMap)
    requires child !in v0
    requires FieldsOf(m) == [Field(1, MESSAGE, List(listClass, [Msg(child, [])])), Field(2, MESSAGE, List(listClass, [Msg(child, [])]))]
    ensures SerializeFields(Earlier, m, 0, 0, v0, {}) == Ok(Walk([], MarkVisited(MarkVisited(v0, child, 0), child, 0)))
  {
    var e := Msg(child, []);
    assert RuntimeClass(e) == child && FieldsOf(e) == [];
    EmptyObjectField(Earlier, m, 0, 0, v0, {}, e);
    var v1 := MarkVisited(v0, child, 0);
    assert {} + {1} == {1};
    assert v1[child] == [0];
    LastEmptyObjectField(Earlier, m, 1, 0, v1, {1}, e);
  }

  /**
    Iterables of two classes, each the only element of a `MESSAGE` list:
    the current revision enters the first at level 1 and the second at
    level 2 under their own class names, so nothing is circular and the
    empty objects write nothing.
   */
  lemma IterablesOfTwoClassesPass(parent: string, listClass: string, setClass: string)
    requires parent != listClass && parent != setClass && listClass != setClass
    ensures SerializeMessage(Current,
      Msg(parent, [Field(1, MESSAGE, List(listClass, [List(setClass, [])])),
                   Field(2, MESSAGE, List(listClass, [List(listClass, [])]))]))
      == Ok([])
  {
    var m := Msg(parent, [Field(1, MESSAGE, List(listClass, [List(setClass, [])])),
                          Field(2, MESSAGE, List(listClass, [List(listClass, [])]))]);
    var v0 := MarkVisited(map[], parent, 0);
    assert RuntimeClass(m) == parent;
    EnterObject(Current, m, 0, map[]);
    var set0, list0 := List(setClass, []), List(listClass, []);
    assert RuntimeClass(set0) == setClass && RuntimeClass(list0) == listClass;
    assert setClass !in v0;
    EmptyObjectField(Current, m, 0, 0, v0, {}, set0);
    var v1 := MarkVisited(v0, setClass, 1);
    assert {} + {1} == {1};
    assert listClass !in v1;
    LastEmptyObjectField(Current, m, 1, 1, v1, {1}, list0);
  }
}
