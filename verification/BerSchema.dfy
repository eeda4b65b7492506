/** Go types and values as the reflection-driven codec sees them. */
module BerSchema {
  import opened Options
  import opened Octets
  import opened BerHeader

  /** The parameters parsed from a struct tag that the codec looks at. */
  datatype Params = Params(
    optional: bool,
    tag: Option<uint64>,
    isSet: bool,
    explicitTag: bool,
    openType: bool,
    stringType: uint64)

  datatype Field = Field(schema: Schema, params: Params)

  /** A Go type: the package's own types, the basic kinds, pointers, slices, and the three struct conventions. */
  datatype Schema =
    | Bool
    | Int
    | Enumerated
    | OctetString
    | Str
    | BitString
    | Null
    | Ptr(elem: Schema)
    | Wrapper(elem: Schema)          // struct whose first field is named Value or List
    | Struct(fields: seq<Field>)
    | Choice(alts: seq<Field>)       // struct whose first field is named Present
    | ListOf(elem: Schema)

  /** A Go value; a wrapper struct is represented by the value it wraps. */
  datatype Value =
    | Nil                            // nil pointer or nil slice
    | Ref(to: Value)
    | BoolV(b: bool)
    | IntV(i: int)
    | OctetsV(octets: seq<byte>)
    | StrV(str: seq<byte>)
    | BitsV(bits: seq<byte>, bitLength: uint64)
    | NullV
    | StructV(fields: seq<Value>)
    | ChoiceV(present: int, alts: seq<Value>)
    | ListV(elems: seq<Value>)

  /** Whether reflection may ask a value of this type if it is nil. */
  predicate Nillable(s: Schema) {
    s.Ptr? || s.ListOf? || s.OctetString?
  }

  /** Whether a value is of a type. */
  predicate Typed(s: Schema, v: Value)
    decreases s
  {
    match s
    case Bool => v.BoolV?
    case Int => v.IntV? && -TWO_TO_63 <= v.i < TWO_TO_63
    case Enumerated => v.IntV? && -TWO_TO_63 <= v.i < TWO_TO_63
    case OctetString => v.Nil? || v.OctetsV?
    case Str => v.StrV?
    case BitString => v.BitsV?
    case Null => v.NullV?
    case Ptr(e) => v.Nil? || (v.Ref? && Typed(e, v.to))
    case Wrapper(e) => Typed(e, v)
    case Struct(fs) =>
      v.StructV? && |v.fields| == |fs| && forall i :: 0 <= i < |fs| ==> Typed(fs[i].schema, v.fields[i])
    case Choice(fs) =>
      v.ChoiceV? && |v.alts| == |fs| && forall i :: 0 <= i < |fs| ==> Typed(fs[i].schema, v.alts[i])
    case ListOf(e) => v.Nil? || (v.ListV? && forall x :: x in v.elems ==> Typed(e, x))
  }

  /** The Go zero value of a type, which is what a fresh target holds. */
  function Zero(s: Schema): (v: Value)
    ensures Typed(s, v)
    decreases s
  {
    match s
    case Bool => BoolV(false)
    case Int => IntV(0)
    case Enumerated => IntV(0)
    case OctetString => Nil
    case Str => StrV([])
    case BitString => BitsV([], 0)
    case Null => NullV
    case Ptr(_) => Nil
    case Wrapper(e) => Zero(e)
    case Struct(fs) => StructV(seq(|fs|, i requires 0 <= i < |fs| => Zero(fs[i].schema)))
    case Choice(fs) => ChoiceV(0, seq(|fs|, i requires 0 <= i < |fs| => Zero(fs[i].schema)))
    case ListOf(_) => Nil
  }
}
