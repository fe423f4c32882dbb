/**
 * The schema a typed value is checked against: named atoms, and type
 * references that are either inline atoms or names to look up.
 */
module Schemas {
  import opened Wrappers

  datatype ElementRelationship = Unset | Atomic | Associative | Separable

  datatype ScalarKind = Numeric | StringKind | BooleanKind

  datatype StructField = StructField(name: string, fieldType: TypeRef)

  datatype Struct = Struct(fields: seq<StructField>, elementRelationship: ElementRelationship)

  datatype List = List(elementType: TypeRef, elementRelationship: ElementRelationship, keys: seq<string>)

  datatype Map = Map(elementType: TypeRef, elementRelationship: ElementRelationship)

  datatype Untyped = Untyped(elementRelationship: ElementRelationship)

  datatype Atom =
    | Scalar(scalar: ScalarKind)
    | StructAtom(structType: Struct)
    | ListAtom(listType: List)
    | MapAtom(mapType: Map)
    | UntypedAtom(untypedType: Untyped)

  datatype TypeRef = NamedType(name: string) | Inline(atom: Atom)

  datatype Schema = Schema(types: map<string, Atom>)

  /** One level of lookup: an inline atom is itself, a name is looked up. */
  function Resolve(schema: Schema, t: TypeRef): Option<Atom> {
    match t
    case Inline(a) => Some(a)
    case NamedType(n) => if n in schema.types then Some(schema.types[n]) else None
  }
}
