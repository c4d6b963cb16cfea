/**
  The deprecated `EnumReflectMut` derive (`enum_reflection_mut`). The source
  repeats the analysis and the two mutable arm builders of `EnumReflect`
  rather than sharing them; the model keeps that copy and proves it agrees.
  The derive emits only `get_fields_mut` and `get_named_fields_mut`, as
  inherent methods of the enum.
 */
module DeriveMut {
  import opened Wrappers
  import opened Syntax
  import opened Naming
  import opened Generated
  import Derive

  const NotEnumMessage := "EnumReflectMut only works on enums"

  function FieldsMutArm(name: Ident, v: Variant): (arm: Arm)
    ensures arm.enumName == name && arm.variant == v.ident
    ensures v.shape.Unit? <==> arm.pattern.PathPat?
    ensures v.shape.Unnamed? ==> arm.pattern.TuplePat? && Distinct(arm.pattern.bindings)
    ensures v.shape.Named? ==> arm.pattern == StructPat(v.shape.names)
    ensures |PatternBindings(arm.pattern)| == |arm.body| == FieldCount(v.shape)
    ensures forall j :: 0 <= j < |arm.body| ==> arm.body[j] == Val(PatternBindings(arm.pattern)[j], Mutable)
  {
    match v.shape
    case Named(names) =>
      Arm(name, v.ident, StructPat(names), seq(|names|, i requires 0 <= i < |names| => Val(names[i], Mutable)))
    case Unnamed(n) =>
      var bs := PositionalBindings(n);
      Arm(name, v.ident, TuplePat(bs), seq(|bs|, i requires 0 <= i < |bs| => Val(bs[i], Mutable)))
    case Unit => Arm(name, v.ident, PathPat, [])
  }

  function NamedFieldsMutArm(name: Ident, v: Variant): (arm: Arm)
    ensures arm.enumName == name && arm.variant == v.ident
    ensures v.shape.Unit? <==> arm.pattern.PathPat?
    ensures v.shape.Unnamed? <==> arm.pattern.RestPat?
    ensures v.shape.Named? ==> arm.pattern == StructPat(v.shape.names)
    ensures |PatternBindings(arm.pattern)| == |arm.body| == (if v.shape.Named? then FieldCount(v.shape) else 0)
    ensures forall j :: 0 <= j < |arm.body| ==>
              && arm.body[j] == Pair(arm.body[j].binding, arm.body[j].binding, Mutable)
              && arm.body[j].binding == PatternBindings(arm.pattern)[j]
  {
    match v.shape
    case Named(names) =>
      Arm(name, v.ident, StructPat(names), seq(|names|, i requires 0 <= i < |names| => Pair(names[i], names[i], Mutable)))
    case Unnamed(_) => Arm(name, v.ident, RestPat, [])
    case Unit => Arm(name, v.ident, PathPat, [])
  }

  function EnumReflectMut(input: DeriveInput): (r: Result<Impl, Diagnostic>)
    ensures r.Err? <==> !input.data.EnumData?
    ensures r.Err? ==> r.error == Diagnostic(input.ident, NotEnumMessage)
    ensures r.Ok? ==> r.value.target == Inherent && r.value.selfType == input.ident
    ensures r.Ok? ==> Accessors(r.value.methods) == [GetFieldsMut, GetNamedFieldsMut]
  {
    match input.data
    case EnumData(vs) =>
      var name := input.ident;
      Ok(Impl(Inherent, name,
              [Method(GetFieldsMut, seq(|vs|, i requires 0 <= i < |vs| => FieldsMutArm(name, vs[i]))),
               Method(GetNamedFieldsMut, seq(|vs|, i requires 0 <= i < |vs| => NamedFieldsMutArm(name, vs[i])))]))
    case _ => Err(Diagnostic(input.ident, NotEnumMessage))
  }

  /** The copied arm builders produce exactly the arms of the primary derive's mutable accessors. */
  lemma LegacyArmsMatchPrimary(name: Ident, v: Variant)
    ensures FieldsMutArm(name, v) == Derive.FieldsArm(name, v, Mutable)
    ensures NamedFieldsMutArm(name, v) == Derive.NamedFieldsArm(name, v, Mutable)
  {
  }

  /**
    The deprecated derive accepts and rejects the same inputs as the primary
    one, anchors its error at the same name with its own message, and emits
    the primary derive's two mutable methods unchanged, as an inherent impl.
   */
  lemma EnumReflectMutIsMutSubset(input: DeriveInput)
    ensures EnumReflectMut(input).Ok? <==> Derive.EnumReflect(input).Ok?
    ensures EnumReflectMut(input).Err? ==>
              && EnumReflectMut(input).error.anchor == Derive.EnumReflect(input).error.anchor
              && EnumReflectMut(input).error.message != Derive.EnumReflect(input).error.message
    ensures EnumReflectMut(input).Ok? ==>
              && EnumReflectMut(input).value.target == Inherent
              && Derive.EnumReflect(input).value.target != Inherent
              && EnumReflectMut(input).value.methods == Derive.EnumReflect(input).value.methods[2..]
  {
    if input.data.EnumData? {
      var vs := input.data.variants;
      var legacy := EnumReflectMut(input).value.methods;
      var primary := Derive.EnumReflect(input).value.methods;
      forall i | 0 <= i < |vs|
        ensures legacy[0].arms[i] == primary[2].arms[i] && legacy[1].arms[i] == primary[3].arms[i]
      {
        LegacyArmsMatchPrimary(input.ident, vs[i]);
      }
      assert legacy[0] == primary[2];
      assert legacy[1] == primary[3];
    }
  }
}
