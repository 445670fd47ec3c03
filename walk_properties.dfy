/**
  Properties of the message walk: the visit map only grows, a repeated
  field number always aborts the walk, null fields leave no trace, and the
  circular-reference heuristic on the object graphs the encoder's tests use.
 */
module WalkProperties {
  import opened ProtoTypes
  import opened Visits
  import opened WireEncoding
  import opened MessageWalk

  /**
    A successful walk of an object leaves a visit map that extends the one
    it started from with this object's class marked at its level: lists are
    only ever appended to.
   */
  lemma {:induction false} ObjectVisitsGrow(ver: Version, v: Value, level: int, visited: VisitMap)
    requires SerializeObject(ver, v, level, visited, {}).Ok?
    ensures Extends(MarkVisited(visited, RuntimeClass(v), level), SerializeObject(ver, v, level, visited, {}).value.visited)
    ensures Extends(visited, SerializeObject(ver, v, level, visited, {}).value.visited)
    decreases v, 2
  {
    var marked := MarkVisited(visited, RuntimeClass(v), level);
    FieldsVisitsGrow(ver, v, 0, level, marked, {});
    ExtendsTransitive(visited, marked, SerializeObject(ver, v, level, visited, {}).value.visited);
  }

  lemma {:induction false} FieldsVisitsGrow(ver: Version, v: Value, i: nat, level: int, visited: VisitMap, seen: set<int>)
    requires i <= |FieldsOf(v)|
    requires SerializeFields(ver, v, i, level, visited, seen).Ok?
    ensures Extends(visited, SerializeFields(ver, v, i, level, visited, seen).value.visited)
    decreases v, 1, |FieldsOf(v)| - i, 1
  {
    var result := SerializeFields(ver, v, i, level, visited, seen).value.visited;
    if i == |FieldsOf(v)| {
      ExtendsTransitive(visited, visited, visited);
    } else {
      var f := FieldsOf(v)[i];
      var seen' := seen + {f.fieldNumber};
      if f.value.Null? {
        FieldsVisitsGrow(ver, v, i + 1, level, visited, seen');
      } else {
        FieldsOkStep(ver, v, i, level, visited, seen);
        var step := SerializeField(ver, v, i, level, visited).value;
        FieldVisitsGrow(ver, v, i, level, visited);
        FieldsVisitsGrow(ver, v, i + 1, step.level, step.visited, seen');
        ExtendsTransitive(visited, step.visited, result);
      }
    }
  }

  /** A walk of the fields that succeeds past a non-null field succeeded on that field and on the rest. */
  lemma FieldsOkStep(ver: Version, v: Value, i: nat, level: int, visited: VisitMap, seen: set<int>)
    requires i < |FieldsOf(v)| && !FieldsOf(v)[i].value.Null?
    requires SerializeFields(ver, v, i, level, visited, seen).Ok?
    ensures SerializeField(ver, v, i, level, visited).Ok?
    ensures var step := SerializeField(ver, v, i, level, visited).value;
      var rest := SerializeFields(ver, v, i + 1, step.level, step.visited, seen + {FieldsOf(v)[i].fieldNumber});
      rest.Ok? && SerializeFields(ver, v, i, level, visited, seen).value.visited == rest.value.visited
  {
  }

  lemma {:induction false} FieldVisitsGrow(ver: Version, v: Value, i: nat, level: int, visited: VisitMap)
    requires i < |FieldsOf(v)|
    requires SerializeField(ver, v, i, level, visited).Ok?
    ensures Extends(visited, SerializeField(ver, v, i, level, visited).value.visited)
    decreases v, 1, |FieldsOf(v)| - i, 0
  {
    var f := FieldsOf(v)[i];
    if f.protobufType == MESSAGE {
      ElementsVisitsGrow(ver, v, i, 0, NestedLevel(ver, f.value, level), visited);
    } else {
      ExtendsTransitive(visited, visited, visited);
    }
  }

  lemma {:induction false} ElementsVisitsGrow(ver: Version, v: Value, i: nat, j: nat, level: int, visited: VisitMap)
    requires i < |FieldsOf(v)| && j <= |ElementsOf(FieldsOf(v)[i].value)|
    requires SerializeElements(ver, v, i, j, level, visited).Ok?
    ensures Extends(visited, SerializeElements(ver, v, i, j, level, visited).value.visited)
    decreases v, 0, |ElementsOf(FieldsOf(v)[i].value)| - j
  {
    var f := FieldsOf(v)[i];
    var elems := ElementsOf(f.value);
    if j == |elems| {
      ExtendsTransitive(visited, visited, visited);
    } else {
      var e := elems[j];
      ElementSmaller(v, i, j);
      ElementsOkStep(ver, v, i, j, level, visited);
      var w := SerializeObject(ver, e, level, visited, {}).value;
      ObjectVisitsGrow(ver, e, level, visited);
      ElementsVisitsGrow(ver, v, i, j + 1, level, w.visited);
      ExtendsTransitive(visited, w.visited, SerializeElements(ver, v, i, j, level, visited).value.visited);
    }
  }

  /** An object a field stands for is part of the message that holds the field. */
  lemma ElementSmaller(v: Value, i: nat, j: nat)
    requires i < |FieldsOf(v)| && j < |ElementsOf(FieldsOf(v)[i].value)|
    ensures ElementsOf(FieldsOf(v)[i].value)[j] < v
  {
    var f := FieldsOf(v)[i];
    assert f in v.fields;
    if f.value.List? {
      assert f.value.elems[j] in f.value.elems;
    }
  }

  /** A walk of the elements that succeeds succeeded on element `j` and on those after it, leaving their visits. */
  lemma ElementsOkStep(ver: Version, v: Value, i: nat, j: nat, level: int, visited: VisitMap)
    requires i < |FieldsOf(v)| && j < |ElementsOf(FieldsOf(v)[i].value)|
    requires SerializeElements(ver, v, i, j, level, visited).Ok?
    ensures var w := SerializeObject(ver, ElementsOf(FieldsOf(v)[i].value)[j], level, visited, {});
      && w.Ok?
      && var rest := SerializeElements(ver, v, i, j + 1, level, w.value.visited);
      rest.Ok? && SerializeElements(ver, v, i, j, level, visited).value.visited == rest.value.visited
  {
  }

  /**
    Once a field number is in the frame's set, or is repeated by a field
    still ahead, the rest of the frame fails, whatever the values are.
   */
  lemma {:induction false} RepeatedNumberFails(
    ver: Version, v: Value, i: nat, level: int, visited: VisitMap, seen: set<int>, k: nat, j: nat)
    requires i <= j < |FieldsOf(v)| && k < j
    requires FieldsOf(v)[k].fieldNumber == FieldsOf(v)[j].fieldNumber
    requires k < i ==> FieldsOf(v)[j].fieldNumber in seen
    ensures SerializeFields(ver, v, i, level, visited, seen).Err?
    decreases j - i
  {
    var f := FieldsOf(v)[i];
    if i < j && f.fieldNumber !in seen {
      var seen' := seen + {f.fieldNumber};
      if f.value.Null? {
        RepeatedNumberFails(ver, v, i + 1, level, visited, seen', k, j);
      } else if SerializeField(ver, v, i, level, visited).Ok? {
        var step := SerializeField(ver, v, i, level, visited).value;
        RepeatedNumberFails(ver, v, i + 1, step.level, step.visited, seen', k, j);
      }
    }
  }

  /** Two annotated fields with one number make every serialisation of the object fail. */
  lemma DuplicateFieldNumberFails(ver: Version, v: Value, level: int, visited: VisitMap, k: nat, j: nat)
    requires k < j < |FieldsOf(v)|
    requires FieldsOf(v)[k].fieldNumber == FieldsOf(v)[j].fieldNumber
    ensures SerializeObject(ver, v, level, visited, {}).Err?
  {
    var marked := MarkVisited(visited, RuntimeClass(v), level);
    if !SeenAtOtherLevel(marked, RuntimeClass(v), level) {
      RepeatedNumberFails(ver, v, 0, level, marked, {}, k, j);
    }
  }

  /** Every annotated field of `v` from `i` on holds `null`. */
  predicate NullFrom(v: Value, i: nat)
  {
    forall k :: i <= k < |FieldsOf(v)| ==> FieldsOf(v)[k].value.Null?
  }

  /** Field numbers from `i` on are pairwise distinct and not in `seen`. */
  predicate FreshNumbersFrom(v: Value, i: nat, seen: set<int>)
  {
    && (forall k :: i <= k < |FieldsOf(v)| ==> FieldsOf(v)[k].fieldNumber !in seen)
    && (forall k, l :: i <= k < l < |FieldsOf(v)| ==> FieldsOf(v)[k].fieldNumber != FieldsOf(v)[l].fieldNumber)
  }

  lemma {:induction false} NullFieldsWriteNothing(
    ver: Version, v: Value, i: nat, level: int, visited: VisitMap, seen: set<int>)
    requires i <= |FieldsOf(v)|
    requires NullFrom(v, i) && FreshNumbersFrom(v, i, seen)
    ensures SerializeFields(ver, v, i, level, visited, seen) == Ok(Walk([], visited))
    decreases |FieldsOf(v)| - i
  {
    if i < |FieldsOf(v)| {
      NullFieldsWriteNothing(ver, v, i + 1, level, visited, seen + {FieldsOf(v)[i].fieldNumber});
    }
  }

  /**
    An object whose annotated fields all hold `null` writes nothing, even
    when a field number is out of range: only a written key checks it.
   */
  lemma NullObjectWritesNothing(ver: Version, v: Value, level: int, visited: VisitMap)
    requires !v.Null? && RuntimeClass(v) !in visited
    requires NullFrom(v, 0) && FreshNumbersFrom(v, 0, {})
    ensures SerializeObject(ver, v, level, visited, {}) == Ok(Walk([], MarkVisited(visited, RuntimeClass(v), level)))
  {
    CircularIffEnteredElsewhere(visited, RuntimeClass(v), level);
    NullFieldsWriteNothing(ver, v, 0, level, MarkVisited(visited, RuntimeClass(v), level), {});
  }

  /** A non-null object that is not a circular reference is walked field by field from a fresh number set. */
  lemma EnterObject(ver: Version, v: Value, level: int, visited: VisitMap)
    requires !v.Null? && RuntimeClass(v) !in visited
    ensures SerializeObject(ver, v, level, visited, {})
      == SerializeFields(ver, v, 0, level, MarkVisited(visited, RuntimeClass(v), level), {})
  {
    CircularIffEnteredElsewhere(visited, RuntimeClass(v), level);
  }

  /** A scalar field's bytes come before those of the fields after it. */
  lemma ScalarThenRest(ver: Version, v: Value, i: nat, level: int, visited: VisitMap, seen: set<int>,
                       bytes: seq<byte>, rest: Walk)
    requires i < |FieldsOf(v)|
    requires FieldsOf(v)[i].fieldNumber !in seen && !FieldsOf(v)[i].value.Null? && FieldsOf(v)[i].protobufType != MESSAGE
    requires ScalarField(ver, FieldsOf(v)[i]) == Ok(bytes)
    requires SerializeFields(ver, v, i + 1, level, visited, seen + {FieldsOf(v)[i].fieldNumber}) == Ok(rest)
    ensures SerializeFields(ver, v, i, level, visited, seen) == Ok(Walk(bytes + rest.bytes, rest.visited))
  {
  }
}
