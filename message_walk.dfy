/**
  What `serialize` produces for an object graph, as recursive functions:
  the bytes of a message, or the first exception thrown, together with the
  visit map after the walk. Nested messages are serialised on their own and
  written as length-delimited records; the visit map is shared by the whole
  walk and is how circular references are found.
 */
module MessageWalk {
  import opened ProtoTypes
  import opened Visits
  import opened WireEncoding

  /** The bytes of a successful walk and the visit map it leaves. */
  datatype Walk = Walk(bytes: seq<byte>, visited: VisitMap)

  /** Output written before a step comes first in the result; an exception discards it. */
  function Prepend(written: seq<byte>, r: Result<Walk>): (r': Result<Walk>)
    ensures r'.Err? <==> r.Err?
    ensures r.Err? ==> r' == r
    ensures r.Ok? ==> (
      && |r'.value.bytes| == |written| + |r.value.bytes|
      && r'.value.bytes[..|written|] == written && r'.value.bytes[|written|..] == r.value.bytes
      && r'.value.visited == r.value.visited)
  {
    if r.Err? then r else Ok(Walk(written + r.value.bytes, r.value.visited))
  }

  lemma PrependPrepend(a: seq<byte>, b: seq<byte>, r: Result<Walk>)
    ensures Prepend(a, Prepend(b, r)) == Prepend(a + b, r)
  {
    if r.Ok? {
      assert a + (b + r.value.bytes) == (a + b) + r.value.bytes;
    }
  }

  /** Written output followed by a step that writes nothing is the written output. */
  lemma PrependNothing(written: seq<byte>, visited: VisitMap)
    ensures Prepend(written, Ok(Walk([], visited))) == Ok(Walk(written, visited))
  {
    assert written + [] == written;
  }

  /** The objects a `MESSAGE` field's value stands for: the elements of a list, or the value itself. */
  function ElementsOf(value: Value): (r: seq<Value>)
    ensures value.List? ==> r == value.elems
    ensures !value.List? ==> r == [value]
  {
    if value.List? then value.elems else [value]
  }

  /**
    The level nested messages of a `MESSAGE` field are serialised at, which
    is also the level the rest of the fields continue at: one deeper now,
    for every such field; before, one deeper for a single message but the
    current level for a list.
   */
  function NestedLevel(ver: Version, value: Value, level: int): (r: int)
    ensures r == level || r == level + 1
    ensures ver.Current? || !value.List? ==> r == level + 1
  {
    if ver.Earlier? && value.List? then level else level + 1
  }

  /**
    `serialize(byteStream, message, numLevel, visitedMessages, visitedFieldNumbers)`:
    mark the class as visited at this level, refuse a circular reference,
    then serialise the annotated fields against the field numbers in
    `seen`. A `null` message has no class to ask for. Every caller passes
    a fresh, empty set.
   */
  function SerializeObject(ver: Version, v: Value, level: int, visited: VisitMap, seen: set<int>): Result<Walk>
    decreases v, 2
  {
    if v.Null? then Err(NullPointer)
    else
      var className := RuntimeClass(v);
      var marked := MarkVisited(visited, className, level);
      if SeenAtOtherLevel(marked, className, level) then Err(CircularReference(className))
      else SerializeFields(ver, v, 0, level, marked, seen)
  }

  /**
    The annotated fields of `v` from index `i` on: a field number seen
    before is refused before its value is read; a `null` value is skipped;
    any other field is written by `SerializeField`, and the fields after it
    continue at the level and with the visits it leaves.
   */
  function SerializeFields(ver: Version, v: Value, i: nat, level: int, visited: VisitMap, seen: set<int>): Result<Walk>
    requires i <= |FieldsOf(v)|
    decreases v, 1, |FieldsOf(v)| - i, 1
  {
    if i == |FieldsOf(v)| then Ok(Walk([], visited))
    else
      var f := FieldsOf(v)[i];
      if f.fieldNumber in seen then Err(DuplicateFieldNumber(f.fieldNumber))
      else if f.value.Null? then SerializeFields(ver, v, i + 1, level, visited, seen + {f.fieldNumber})
      else
        match SerializeField(ver, v, i, level, visited)
        case Err(e) => Err(e)
        case Ok(step) => Prepend(step.bytes, SerializeFields(ver, v, i + 1, step.level, step.visited, seen + {f.fieldNumber}))
  }

  /** What one field adds to the output, the level the walk goes on at, and the visits after it. */
  datatype Step = Step(bytes: seq<byte>, level: int, visited: VisitMap)

  /**
    One non-null field `i` of `v`: a `MESSAGE` field writes each of its
    objects as a nested record, one level deeper (or, for a list in the
    earlier revision, at the same level); any other field is written packed
    or as key and payload and leaves the level and the visits as they were.
   */
  function SerializeField(ver: Version, v: Value, i: nat, level: int, visited: VisitMap): (r: Result<Step>)
    requires i < |FieldsOf(v)|
    ensures r.Ok? && FieldsOf(v)[i].protobufType != MESSAGE ==> r.value.level == level && r.value.visited == visited
    ensures r.Ok? && FieldsOf(v)[i].protobufType == MESSAGE ==> r.value.level == NestedLevel(ver, FieldsOf(v)[i].value, level)
    decreases v, 1, |FieldsOf(v)| - i, 0
  {
    var f := FieldsOf(v)[i];
    if f.protobufType == MESSAGE then
      var nested := NestedLevel(ver, f.value, level);
      match SerializeElements(ver, v, i, 0, nested, visited)
      case Err(e) => Err(e)
      case Ok(w) => Ok(Step(w.bytes, nested, w.visited))
    else
      match ScalarField(ver, f)
      case Err(e) => Err(e)
      case Ok(b) => Ok(Step(b, level, visited))
  }

  /**
    The objects of the `MESSAGE` field `i` of `v` from index `j` on, each
    serialised on its own at `level`; a non-empty result is written under
    the field's number as a length-delimited record, an empty one not at all.
   */
  function SerializeElements(ver: Version, v: Value, i: nat, j: nat, level: int, visited: VisitMap): Result<Walk>
    requires i < |FieldsOf(v)| && j <= |ElementsOf(FieldsOf(v)[i].value)|
    decreases v, 0, |ElementsOf(FieldsOf(v)[i].value)| - j
  {
    var f := FieldsOf(v)[i];
    var elems := ElementsOf(f.value);
    if j == |elems| then Ok(Walk([], visited))
    else
      var e := elems[j];
      assert e < v by {
        assert f in v.fields;
        if f.value.List? {
          assert e in f.value.elems;
        }
      }
      match SerializeObject(ver, e, level, visited, {})
      case Err(err) => Err(err)
      case Ok(w) =>
        match Embedded(ver, f.fieldNumber, w.bytes)
        case Err(err) => Err(err)
        case Ok(record) => Prepend(record, SerializeElements(ver, v, i, j + 1, level, w.visited))
  }

  /** A `null` field writes nothing; the walk goes on with its number seen. */
  lemma FieldsSkip(ver: Version, v: Value, i: nat, level: int, visited: VisitMap, seen: set<int>, done: seq<byte>)
    requires i < |FieldsOf(v)| && FieldsOf(v)[i].fieldNumber !in seen && FieldsOf(v)[i].value.Null?
    ensures Prepend(done, SerializeFields(ver, v, i, level, visited, seen))
      == Prepend(done, SerializeFields(ver, v, i + 1, level, visited, seen + {FieldsOf(v)[i].fieldNumber}))
  {
  }

  /** A field that was written adds its bytes after those written so far; the walk goes on from its level and visits. */
  lemma FieldsAdvance(ver: Version, v: Value, i: nat, level: int, visited: VisitMap, seen: set<int>,
                      done: seq<byte>, step: Step)
    requires i < |FieldsOf(v)| && FieldsOf(v)[i].fieldNumber !in seen && !FieldsOf(v)[i].value.Null?
    requires SerializeField(ver, v, i, level, visited) == Ok(step)
    ensures Prepend(done, SerializeFields(ver, v, i, level, visited, seen))
      == Prepend(done + step.bytes,
           SerializeFields(ver, v, i + 1, step.level, step.visited, seen + {FieldsOf(v)[i].fieldNumber}))
  {
    PrependPrepend(done, step.bytes,
      SerializeFields(ver, v, i + 1, step.level, step.visited, seen + {FieldsOf(v)[i].fieldNumber}));
  }

  /** A field that throws ends the walk with its exception. */
  lemma FieldsFail(ver: Version, v: Value, i: nat, level: int, visited: VisitMap, seen: set<int>, e: SerializationError)
    requires i < |FieldsOf(v)| && FieldsOf(v)[i].fieldNumber !in seen && !FieldsOf(v)[i].value.Null?
    requires SerializeField(ver, v, i, level, visited) == Err(e)
    ensures SerializeFields(ver, v, i, level, visited, seen) == Err(e)
  {
  }

  /**
    A step of the encoder that was meant to do what `spec` describes did:
    on success it appended the walk's bytes and left its visit map; on
    failure it threw the walk's exception, or ran out of array space, which
    it can only do when the walk's bytes would not fit in one array after `before`.
   */
  predicate Performed(o: Outcome, spec: Result<Walk>, before: seq<byte>, after: seq<byte>, levels: VisitMap)
  {
    && (o.Pass? ==> before <= after && spec == Ok(Walk(after[|before|..], levels)))
    && (o.Fail? ==> o.error == OutOfMemory || spec == Err(o.error))
    && (spec.Ok? && |before| + |spec.value.bytes| <= MaxArrayLength ==> o.Pass?)
  }

  /** `serialize(message)`: a fresh stream, level 0, an empty visit map. */
  function SerializeMessage(ver: Version, message: Value): (r: Result<seq<byte>>)
  {
    match SerializeObject(ver, message, 0, map[], {})
    case Err(e) => Err(e)
    case Ok(w) => Ok(w.bytes)
  }
}
