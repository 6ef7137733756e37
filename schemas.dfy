/**
 The part of the Avro schema model that the documenter reads: the kind of a
 schema, the fields of a record, the element type of an array, the value type
 of a map and the member types of a union. A parsed schema is an immutable
 tree; it is modelled here as an inductive datatype, so every schema is
 acyclic (a recursive Avro schema, which refers back to itself by name, has
 no counterpart).
 */
module Schemas {

  datatype Option<+T> = None | Some(value: T)

  /** An Avro schema, restricted to what the documenter inspects. */
  datatype Schema =
    | Record(fullName: string, fields: seq<Field>)
    | Array(elementType: Schema)
    | Map(valueType: Schema)
    | Union(types: seq<Schema>)
      /** every other kind: a primitive, an enum or a fixed, known by its full name */
    | Other(name: string)

  /** A record field: its name, its declared schema and its optional doc string. */
  datatype Field = Field(name: string, schema: Schema, doc: Option<string>)

  /**
   The full name Avro reports for a schema: the namespace-qualified name of a
   record, the name of a primitive, enum or fixed, and the lower-case kind
   ("array", "map", "union") of an unnamed composite.
   */
  function FullName(s: Schema): (n: string)
    ensures s.Record? ==> n == s.fullName
    ensures s.Other? ==> n == s.name
    ensures s.Array? ==> n == "array"
    ensures s.Map? ==> n == "map"
    ensures s.Union? ==> n == "union"
  {
    match s
    case Record(fullName, _) => fullName
    case Array(_) => "array"
    case Map(_) => "map"
    case Union(_) => "union"
    case Other(name) => name
  }

  /** The number of schema nodes and fields in a tree: the measure every traversal decreases. */
  function Size(s: Schema): (n: nat)
    ensures n >= 1
  {
    match s
    case Record(_, fs) => 1 + FieldsSize(fs)
    case Array(e) => 1 + Size(e)
    case Map(v) => 1 + Size(v)
    case Union(ms) => 1 + MembersSize(ms)
    case Other(_) => 1
  }

  /** Every field's schema is strictly smaller than the fields taken together. */
  function FieldsSize(fs: seq<Field>): (n: nat)
    ensures forall i :: 0 <= i < |fs| ==> Size(fs[i].schema) < n
  {
    if fs == [] then 0 else 1 + Size(fs[0].schema) + FieldsSize(fs[1..])
  }

  /** Every member is no larger than the members taken together. */
  function MembersSize(ms: seq<Schema>): (n: nat)
    ensures forall i :: 0 <= i < |ms| ==> Size(ms[i]) <= n
  {
    if ms == [] then 0 else Size(ms[0]) + MembersSize(ms[1..])
  }
}
