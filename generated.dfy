/**
  The code the derive emits, as an abstract syntax: match arms over the
  variants, grouped into the accessor methods of one impl block. Token
  layout, separators and spans are not represented.
 */
module Generated {
  import opened Syntax

  /** `&dyn std::any::Any` or `&mut dyn std::any::Any`. */
  datatype RefKind = Shared | Mutable

  /** The pattern of one arm, written after `Name::Variant`. */
  datatype Pattern =
    | PathPat                         // `Name::V`
    | TuplePat(bindings: seq<Ident>)  // `Name::V(b0, .., bk)`
    | RestPat                         // `Name::V(..)`
    | StructPat(bindings: seq<Ident>) // `Name::V { b0, .., bk }`

  /** The names a pattern binds, in the order it lists them. */
  function PatternBindings(p: Pattern): seq<Ident> {
    match p
    case TuplePat(bs) => bs
    case StructPat(bs) => bs
    case _ => []
  }

  /** One element of the `vec![..]` an arm returns. */
  datatype Entry =
    | Val(binding: Ident, kind: RefKind)                // `b as &dyn Any`
    | Pair(fieldName: string, binding: Ident, kind: RefKind) // `("b", b as &dyn Any)`

  datatype Arm = Arm(enumName: Ident, variant: Ident, pattern: Pattern, body: seq<Entry>)

  datatype Accessor = GetFields | GetNamedFields | GetFieldsMut | GetNamedFieldsMut

  function MethodName(a: Accessor): string {
    match a
    case GetFields => "get_fields"
    case GetNamedFields => "get_named_fields"
    case GetFieldsMut => "get_fields_mut"
    case GetNamedFieldsMut => "get_named_fields_mut"
  }

  /** The receiver `&self` / `&mut self`, which is also the kind of every returned reference. */
  function Receiver(a: Accessor): RefKind {
    if a == GetFields || a == GetNamedFields then Shared else Mutable
  }

  /** Whether the return type pairs each reference with a `&'static str` name. */
  predicate Labelled(a: Accessor) {
    a == GetNamedFields || a == GetNamedFieldsMut
  }

  /** The mutable counterpart of an accessor. */
  function MutOf(a: Accessor): Accessor {
    match a
    case GetFields => GetFieldsMut
    case GetNamedFields => GetNamedFieldsMut
    case GetFieldsMut => GetFieldsMut
    case GetNamedFieldsMut => GetNamedFieldsMut
  }

  /** `fn <name>(<receiver>) -> Vec<..> { match self { <arms> } }` */
  datatype Method = Method(accessor: Accessor, arms: seq<Arm>)

  /** `impl <trait> for Name` or an inherent `impl Name`. */
  datatype ImplTarget = TraitImpl(path: string) | Inherent

  datatype Impl = Impl(target: ImplTarget, selfType: Ident, methods: seq<Method>)

  /** A compile error at the span of `anchor`. */
  datatype Diagnostic = Diagnostic(anchor: Ident, message: string)

  function Accessors(ms: seq<Method>): (r: seq<Accessor>)
    ensures |r| == |ms|
    ensures forall k :: 0 <= k < |ms| ==> r[k] == ms[k].accessor
  {
    seq(|ms|, k requires 0 <= k < |ms| => ms[k].accessor)
  }

  /** An entry fits a method when its reference kind and its labelling agree with the signature. */
  predicate EntryFits(a: Accessor, e: Entry) {
    e.kind == Receiver(a) && (e.Pair? <==> Labelled(a))
  }

  /** Every arm of the method builds a vector of the element type its signature declares. */
  predicate MethodWellTyped(m: Method) {
    forall i, j :: 0 <= i < |m.arms| && 0 <= j < |m.arms[i].body| ==> EntryFits(m.accessor, m.arms[i].body[j])
  }

  /** The same arm with every reference of kind `k`. */
  function WithKind(arm: Arm, k: RefKind): (r: Arm)
    ensures r.enumName == arm.enumName && r.variant == arm.variant && r.pattern == arm.pattern
    ensures |r.body| == |arm.body|
  {
    arm.(body := seq(|arm.body|, j requires 0 <= j < |arm.body| => arm.body[j].(kind := k)))
  }
}
