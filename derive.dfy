/**
  The `EnumReflect` derive (`enum_reflection`): reject anything but an enum,
  build one arm per variant for each of the four accessors, and wrap the four
  methods in an impl of the `EnumReflect` trait for the enum.
 */
module Derive {
  import opened Wrappers
  import opened Syntax
  import opened Naming
  import opened Generated

  const TraitPath := "enum_reflect_extetn::EnumReflect"
  const NotEnumMessage := "EnumReflect only works on enums"

  /** The four methods, in the order the impl block declares them. */
  const AccessorOrder := [GetFields, GetNamedFields, GetFieldsMut, GetNamedFieldsMut]

  function RefEntries(bs: seq<Ident>, kind: RefKind): seq<Entry> {
    seq(|bs|, i requires 0 <= i < |bs| => Val(bs[i], kind))
  }

  function PairEntries(names: seq<Ident>, kind: RefKind): seq<Entry> {
    seq(|names|, i requires 0 <= i < |names| => Pair(names[i], names[i], kind))
  }

  /** The arm of `get_fields` (kind Shared) or of `get_fields_mut` (kind Mutable) for one variant. */
  function FieldsArm(name: Ident, v: Variant, kind: RefKind): (arm: Arm)
    ensures arm.enumName == name && arm.variant == v.ident
    ensures v.shape.Unit? <==> arm.pattern.PathPat?
    ensures v.shape.Unnamed? ==> arm.pattern.TuplePat? && Distinct(arm.pattern.bindings)
    ensures v.shape.Named? ==> arm.pattern == StructPat(v.shape.names)
    ensures |PatternBindings(arm.pattern)| == |arm.body| == FieldCount(v.shape)
    ensures forall j :: 0 <= j < |arm.body| ==> arm.body[j] == Val(PatternBindings(arm.pattern)[j], kind)
  {
    match v.shape
    case Named(names) => Arm(name, v.ident, StructPat(names), RefEntries(names, kind))
    case Unnamed(n) => Arm(name, v.ident, TuplePat(PositionalBindings(n)), RefEntries(PositionalBindings(n), kind))
    case Unit => Arm(name, v.ident, PathPat, [])
  }

  /** The arm of `get_named_fields` (kind Shared) or of `get_named_fields_mut` (kind Mutable). */
  function NamedFieldsArm(name: Ident, v: Variant, kind: RefKind): (arm: Arm)
    ensures arm.enumName == name && arm.variant == v.ident
    ensures v.shape.Unit? <==> arm.pattern.PathPat?
    ensures v.shape.Unnamed? <==> arm.pattern.RestPat?
    ensures v.shape.Named? ==> arm.pattern == StructPat(v.shape.names)
    ensures |PatternBindings(arm.pattern)| == |arm.body| == (if v.shape.Named? then FieldCount(v.shape) else 0)
    ensures forall j :: 0 <= j < |arm.body| ==>
              && arm.body[j] == Pair(arm.body[j].binding, arm.body[j].binding, kind)
              && arm.body[j].binding == PatternBindings(arm.pattern)[j]
  {
    match v.shape
    case Named(names) => Arm(name, v.ident, StructPat(names), PairEntries(names, kind))
    case Unnamed(_) => Arm(name, v.ident, RestPat, [])
    case Unit => Arm(name, v.ident, PathPat, [])
  }

  /** The arm of accessor `acc` for variant `v`; its entries fit the method's signature. */
  function ArmFor(acc: Accessor, name: Ident, v: Variant): (arm: Arm)
    ensures arm.enumName == name && arm.variant == v.ident
    ensures |arm.body| == (if Labelled(acc) && !v.shape.Named? then 0 else FieldCount(v.shape))
    ensures forall j :: 0 <= j < |arm.body| ==> EntryFits(acc, arm.body[j])
  {
    if Labelled(acc) then NamedFieldsArm(name, v, Receiver(acc)) else FieldsArm(name, v, Receiver(acc))
  }

  /** `data_enum.variants.iter().map(..)`: one arm per variant, in declaration order. */
  function Arms(name: Ident, vs: seq<Variant>, acc: Accessor): (arms: seq<Arm>)
    ensures |arms| == |vs|
    ensures forall i :: 0 <= i < |vs| ==> arms[i].variant == vs[i].ident && arms[i].enumName == name
    ensures forall i :: 0 <= i < |vs| ==> arms[i] == ArmFor(acc, name, vs[i])
  {
    seq(|vs|, i requires 0 <= i < |vs| => ArmFor(acc, name, vs[i]))
  }

  function EnumReflect(input: DeriveInput): (r: Result<Impl, Diagnostic>)
    ensures r.Err? <==> !input.data.EnumData?
    ensures r.Err? ==> r.error == Diagnostic(input.ident, NotEnumMessage)
    ensures r.Ok? ==> r.value.target == TraitImpl(TraitPath) && r.value.selfType == input.ident
    ensures r.Ok? ==> Accessors(r.value.methods) == AccessorOrder
    ensures r.Ok? ==> forall k :: 0 <= k < |r.value.methods| ==>
              r.value.methods[k].arms == Arms(input.ident, input.data.variants, r.value.methods[k].accessor)
  {
    match input.data
    case EnumData(vs) =>
      var name := input.ident;
      Ok(Impl(TraitImpl(TraitPath), name,
              [Method(GetFields, Arms(name, vs, GetFields)),
               Method(GetNamedFields, Arms(name, vs, GetNamedFields)),
               Method(GetFieldsMut, Arms(name, vs, GetFieldsMut)),
               Method(GetNamedFieldsMut, Arms(name, vs, GetNamedFieldsMut))]))
    case _ => Err(Diagnostic(input.ident, NotEnumMessage))
  }

  /** Every arm of every emitted method returns elements of the type its signature declares. */
  lemma EnumReflectWellTyped(input: DeriveInput)
    requires EnumReflect(input).Ok?
    ensures forall k :: 0 <= k < |EnumReflect(input).value.methods| ==> MethodWellTyped(EnumReflect(input).value.methods[k])
  {
  }

  /** A unit variant yields the bare path pattern and an empty vector in all four accessors. */
  lemma UnitVariantArms(name: Ident, v: Variant, acc: Accessor)
    requires v.shape.Unit?
    ensures ArmFor(acc, name, v) == Arm(name, v.ident, PathPat, [])
  {
  }

  /**
    A variant with `n` positional fields: the positional accessors bind the
    distinct names `f0 .. f(n-1)` and return one reference per binding, in
    order; the named accessors match with `(..)` and return nothing.
   */
  lemma UnnamedVariantArms(name: Ident, v: Variant, acc: Accessor)
    requires v.shape.Unnamed?
    ensures var arm := ArmFor(acc, name, v);
      if Labelled(acc) then
        arm == Arm(name, v.ident, RestPat, [])
      else
        && arm.pattern.TuplePat?
        && |arm.pattern.bindings| == v.shape.count
        && Distinct(arm.pattern.bindings)
        && (forall i :: 0 <= i < v.shape.count ==> arm.pattern.bindings[i] == "f" + Decimal(i))
        && |arm.body| == v.shape.count
        && (forall i :: 0 <= i < v.shape.count ==> arm.body[i] == Val(arm.pattern.bindings[i], Receiver(acc)))
  {
  }

  /**
    A variant with named fields: every accessor binds the declared names; the
    named accessors return one `(name, reference)` pair per field, labelled by
    the field's own identifier, and the positional accessors the same
    references without the labels, so both have one entry per field.
   */
  lemma NamedVariantArms(name: Ident, v: Variant, kind: RefKind)
    requires v.shape.Named?
    ensures var plain := FieldsArm(name, v, kind);
      var named := NamedFieldsArm(name, v, kind);
      && plain.pattern == named.pattern == StructPat(v.shape.names)
      && |plain.body| == |named.body| == |v.shape.names|
      && forall i :: 0 <= i < |v.shape.names| ==>
           && named.body[i] == Pair(v.shape.names[i], v.shape.names[i], kind)
           && plain.body[i] == Val(named.body[i].binding, kind)
  {
  }

  /** The mutable arms differ from the shared ones only in the kind of reference. */
  lemma MutArmsMirrorShared(name: Ident, v: Variant, acc: Accessor)
    ensures ArmFor(MutOf(acc), name, v) == WithKind(ArmFor(acc, name, v), Mutable)
  {
  }
}
