/**
  Which Java classes a field may have for a given `ProtobufType`. A class
  is given by the name `Class.getName` returns; two classes of one class
  loader are the same exactly when their names are.
 */
module TypeCompatibility {
  import opened ProtoTypes
  import opened WireEncoding

  /**
    Only six types check anything: `BOOL`, `DOUBLE`, `FLOAT`, `INT32` and
    `INT64` accept the boxed class or the primitive, `STRING` accepts
    `String`; every other type accepts no class at all.
   */
  function Check(t: ProtobufType, fieldType: string): (ok: bool)
    ensures ok ==> t in {BOOL, DOUBLE, FLOAT, INT32, INT64, STRING}
  {
    match t
    case BOOL => fieldType == "java.lang.Boolean" || fieldType == "boolean"
    case DOUBLE => fieldType == "java.lang.Double" || fieldType == "double"
    case FLOAT => fieldType == "java.lang.Float" || fieldType == "float"
    case INT32 => fieldType == "java.lang.Integer" || fieldType == "int"
    case INT64 => fieldType == "java.lang.Long" || fieldType == "long"
    case STRING => fieldType == "java.lang.String"
    case _ => false
  }

  /**
    The names `Check` can accept: the primitives, and `String` and the boxed
    primitives, which are final classes that implement no `Iterable` and
    have no annotated fields. No `List` or `Msg` value has one of them as
    its class.
   */
  predicate ScalarClassName(name: string)
  {
    name in {"boolean", "double", "float", "int", "long", "java.lang.Boolean", "java.lang.Double",
             "java.lang.Float", "java.lang.Integer", "java.lang.Long", "java.lang.String"}
  }

  /**
    For the six checked types the check agrees with what `append` does: a
    non-null value passes the check exactly when its cast succeeds and its
    payload is written.
   */
  lemma CheckAgreesWithAppend(ver: Version, t: ProtobufType, v: Value)
    requires t in {BOOL, DOUBLE, FLOAT, INT32, INT64, STRING}
    requires !v.Null?
    requires v.List? || v.Msg? ==> !ScalarClassName(v.className)
    ensures Check(t, RuntimeClass(v)) <==> Payload(ver, t, v).Ok?
  {
  }

  /** A class whose name is a primitive's is accepted exactly by the type of that primitive. */
  lemma PrimitiveNames(t: ProtobufType)
    ensures Check(t, "boolean") <==> t == BOOL
    ensures Check(t, "double") <==> t == DOUBLE
    ensures Check(t, "float") <==> t == FLOAT
    ensures Check(t, "int") <==> t == INT32
    ensures Check(t, "long") <==> t == INT64
  {
  }
}
