/**
  The parsed derive input, reduced to what the generator inspects: the type's
  name, whether it is an enum, and for an enum the ordered variants with the
  shape of their fields. Field types are not inspected and are left out.
 */
module Syntax {

  type Ident = string

  /** The three field shapes of a variant (`Fields::Unit`, `Fields::Unnamed`, `Fields::Named`). */
  datatype Shape =
    | Unit
    | Unnamed(count: nat)
    | Named(names: seq<Ident>)

  datatype Variant = Variant(ident: Ident, shape: Shape)

  /** The body of the declaration; only an enum carries variants. */
  datatype Data =
    | EnumData(variants: seq<Variant>)
    | StructData
    | UnionData

  datatype DeriveInput = DeriveInput(ident: Ident, data: Data)

  /** How many fields a variant of this shape has. */
  function FieldCount(shape: Shape): nat {
    match shape
    case Unit => 0
    case Unnamed(n) => n
    case Named(names) => |names|
  }

  predicate Distinct<T(==)>(s: seq<T>) {
    forall i, j :: 0 <= i < j < |s| ==> s[i] != s[j]
  }

  function VariantIdents(vs: seq<Variant>): (r: seq<Ident>)
    ensures |r| == |vs|
    ensures forall i :: 0 <= i < |vs| ==> r[i] == vs[i].ident
  {
    seq(|vs|, i requires 0 <= i < |vs| => vs[i].ident)
  }

  /**
    What the host compiler guarantees of every enum that reaches the derive:
    variant names are distinct, and so are the field names of each variant
    with named fields. The generator itself does not rely on it; the
    behaviour of the code it emits does.
   */
  predicate WellFormedVariants(vs: seq<Variant>) {
    && Distinct(VariantIdents(vs))
    && forall i :: 0 <= i < |vs| && vs[i].shape.Named? ==> Distinct(vs[i].shape.names)
  }
}
