# enum-reflect, modelled in Dafny

`enum-reflect` is a derive macro. Applied to an enum, `#[derive(EnumReflect)]`
emits an impl of the `EnumReflect` trait with four accessors:

- `get_fields`
- `get_named_fields`
- `get_fields_mut`
- `get_named_fields_mut`

Each one returns the fields of the receiver's variant as type-erased references,
in declaration order. The two named accessors pair each reference with its
field's name. The deprecated `#[derive(EnumReflectMut)]` emits only the two
mutable accessors, as inherent methods.

The model is pure, like the macro itself:

- `syntax.dfy`: the parsed input (`DeriveInput`). It holds the type name, and for
  an enum the ordered variants with their field shape: unit, `n` positional
  fields, or named fields.
- `naming.dfy`: the bindings `f0 .. f(n-1)` invented for positional fields.
  `Decimal` renders the index in decimal and `ParseDecimal` is its inverse.
  From that round trip the model proves that the bindings are pairwise distinct.
- `generated.dfy`: the emitted code as an abstract syntax. It covers patterns,
  `vec!` entries (`b as &dyn Any` or `("b", b as &dyn Any)`), match arms,
  methods, the impl block, and the diagnostic.
- `derive.dfy`: `EnumReflect`, with the per-variant arm builders.
- `derive_mut.dfy`: `EnumReflectMut`. The source repeats the two mutable arm
  builders instead of sharing them. The model keeps that copy and proves it
  produces the same arms as the primary derive.
- `semantics.dfy`: an evaluator for the emitted `match self`, plus a reference
  definition `Reflect` of what each accessor should return for a value.
  - The evaluator tries the arms in order, binds pattern names to field storage
    locations and builds the vector.
  - The main theorems prove that both derives' code returns exactly `Reflect`
    on every value of every variant.

Two facts guaranteed by the host compiler appear only as preconditions of the
behavioural theorems, never of the generator: variant names are distinct, and a
variant's field names are distinct.

The diagnostic's message does not contain the type's name: it is anchored at
the name's span and reads "EnumReflect only works on enums". The doc comment at
src/lib.rs:16 gives `get_fields` the return type `Vec<&mut dyn Any>`. The code
at src/lib.rs:223 returns `Vec<&dyn Any>`, and the model follows the code.

## Model

| member | source | states |
|---|---|---|
| `Naming.Decimal` | src/lib.rs:85 | the rendering of `i` in `format!("f{}", i)` is non-empty, all decimal digits, has no leading zero, and is one digit exactly when `i < 10` |
| `Naming.ParseDecimalOfDecimal` | src/lib.rs:85 | reading the decimal rendering back gives the original index (the round trip) |
| `Naming.PositionalBinding` | src/lib.rs:84-86 | the binding of positional field `i` is `f` followed by at least one decimal digit, and those digits read back as `i` |
| `Naming.PositionalBindingInjective` | src/lib.rs:84-86 | two positional bindings are equal if and only if their indices are |
| `Naming.PositionalBindings` | src/lib.rs:84-86 | a variant with `n` positional fields gets exactly `n` bindings `f0 .. f(n-1)`, pairwise distinct |
| `Derive.FieldsArm` | src/lib.rs:64-103 | the arm of `get_fields` (and, with mutable references, of `get_fields_mut` at lines 143-183): a bare path for unit variants, distinct `f{i}` bindings in a tuple pattern for positional ones, the declared names in a struct pattern for named ones, and one reference per binding in pattern order; its ensures list these properties, and `UnitVariantArms`, `UnnamedVariantArms`, `NamedVariantArms` and `ArmReflects` specify it further |
| `Derive.NamedFieldsArm` | src/lib.rs:106-140 | the arm of `get_named_fields` (and, with mutable references, of `get_named_fields_mut` at lines 186-219): `(..)` with no entries for positional variants, a bare path with no entries for unit variants, and for named variants one `(name, reference)` pair per declared field in order, whose name is the binding itself; also specified by `UnitVariantArms`, `UnnamedVariantArms`, `NamedVariantArms` and `ArmReflects` |
| `Derive.ArmFor` | src/lib.rs:64-219 | selects the arm builder for each of the four accessors; the arm is for the given variant, has one entry per field (none for a named accessor on a variant without named fields), and every entry has the accessor's reference kind and labelling |
| `Derive.Arms` | src/lib.rs:64-219 | each accessor gets one arm per variant in declaration order, arm `i` for variant `i` of the enum |
| `Derive.EnumReflect` | src/lib.rs:52-250 | a non-enum gives exactly one error, anchored at the type name, with message "EnumReflect only works on enums", and no impl; an enum gives a trait impl of `enum_reflect_extetn::EnumReflect` for the type with the four accessors in order, each dispatching that accessor's arms |
| `Derive.EnumReflectWellTyped` | src/lib.rs:221-247 | every entry of every arm has the reference kind of its method's receiver, and is a `(name, value)` pair exactly in the named accessors |
| `Derive.UnitVariantArms` | src/lib.rs:97-101 | a unit variant gets the bare path pattern and an empty vector in all four accessors (also lines 134-138, 177-181, 213-217) |
| `Derive.UnnamedVariantArms` | src/lib.rs:83-132 | a positional variant binds `f0 .. f(n-1)`, which are distinct, and returns one reference per binding in order; the named accessors use `(..)` and return nothing |
| `Derive.NamedVariantArms` | src/lib.rs:68-125 | a named variant binds its declared names in both accessor families; the named accessor returns one pair per field whose name string is the field identifier; the positional one returns the same bindings without names, with the same length |
| `Derive.MutArmsMirrorShared` | src/lib.rs:143-219 | the mutable arms equal the shared ones with every reference made mutable: same pattern, bindings, entry count and order |
| `DeriveMut.EnumReflectMut` | src/lib.rs:252-360 | a non-enum gives one error anchored at the type name, with message "EnumReflectMut only works on enums"; an enum gives an inherent impl holding only `get_fields_mut` and `get_named_fields_mut` |
| `DeriveMut.FieldsMutArm` | src/lib.rs:265-305 | the deprecated derive's own copy of the `get_fields_mut` arm builder, with the same shape properties as `Derive.FieldsArm` with mutable references; `LegacyArmsMatchPrimary` proves it equal to the primary builder |
| `DeriveMut.NamedFieldsMutArm` | src/lib.rs:308-341 | the deprecated derive's own copy of the `get_named_fields_mut` arm builder, with the same shape properties as `Derive.NamedFieldsArm` with mutable references; `LegacyArmsMatchPrimary` proves it equal to the primary builder |
| `DeriveMut.LegacyArmsMatchPrimary` | src/lib.rs:265-341 | the deprecated derive's two arm builders produce exactly the primary derive's mutable arms |
| `DeriveMut.EnumReflectMutIsMutSubset` | src/lib.rs:258-357 | both derives accept the same inputs; their errors share the anchor but differ in message; the deprecated derive's methods are the primary derive's last two, in an inherent rather than a trait impl |
| `Semantics.Reflect` | src/lib.rs:16-19 | the reference definition of what each accessor returns for a value: one reference per field, in declaration order, each pointing at that field's storage and of the accessor's reference kind; the named accessors pair it with the field's name and return nothing for variants without named fields; `ArmReflects`, `AccessorReflectsFields`, `EnumReflectReflects` and `EnumReflectMutReflects` prove the emitted code meets it |
| `Semantics.ReflectEmptyCases` | src/lib.rs:97-138 | a unit variant reports nothing through any accessor; a positional variant reports nothing through the named accessors, and reports nothing through the positional ones only when it has no fields |
| `Semantics.ReflectNamedDropsNames` | src/lib.rs:69-123 | for named fields, the positional accessor returns the named accessor's references with the names dropped, one per field, and the names are the declared ones |
| `Semantics.ReflectMutMirrorsShared` | src/lib.rs:143-219 | the mutable accessors return the same references, in the same order and with the same names, as mutable references |
| `Semantics.ArmReflects` | src/lib.rs:64-219 | the arm built for a variant matches every value of that variant and returns its fields as `Reflect` states |
| `Semantics.AccessorReflectsFields` | src/lib.rs:221-245 | on a value of any variant, the `match self` built for an accessor returns that variant's fields in declaration order: tagged with names for named fields, nothing for the named accessors otherwise |
| `Semantics.EnumReflectReflects` | src/lib.rs:221-249 | each of the four methods `EnumReflect` emits, called on any value of the enum, returns exactly `Reflect` of that value |
| `Semantics.EnumReflectMutReflects` | src/lib.rs:343-359 | the methods `EnumReflectMut` emits behave like the primary mutable accessors, and it provides no shared accessor |

## Left out

- Token parsing (`parse_macro_input!`, `syn`): the model's input is the already parsed declaration.
- Token output (`quote!`): arm separators (`#(..)*` over arms ending in `,` versus `#(..),*`) and spans are not modelled; the output is an abstract syntax.
- Field types and the `&dyn Any` erasure: a reference is its kind plus the storage location of the field, and downcasting is not modelled.
- Borrowing and lifetimes: mutating through a returned `&mut` and reading the field back is not modelled. The model proves only that every returned reference points at the field's own storage and not at a copy.
- Whether the emitted impl compiles is host-compiler behaviour and is not modelled. This covers `pub fn` inside a trait impl, the `enum_reflect_extetn` path, and exhaustiveness checking.
- The `#[deprecated]` advisory on `EnumReflectMut`: the host compiler emits it at each use site, and the generator plays no part in it.
- The enum name in an arm's path (`Name::Variant`) is carried in the output but not checked by the evaluator, because the receiver always has the enum's type.
- A pattern that does not fit the value's shape is treated as not matching; in the host language it would be a compile error, and the generated arms never hit this case.
