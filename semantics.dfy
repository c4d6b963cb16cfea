/**
  What the emitted accessors do when called. A value of the enum is the
  variant it is plus the storage location of each field; a `match self`
  tries the arms in order, binds the pattern's names to field locations and
  builds the returned vector from the arm's entries. `Reflect` states, for a
  value alone, what each accessor ought to return; the theorems below prove
  that the code both derives emit returns exactly that.
 */
module Semantics {
  import opened Wrappers
  import opened Syntax
  import opened Generated
  import Derive
  import DeriveMut

  /** Where one field of the receiver is stored; a returned reference points at it. */
  type Loc = nat

  /** The fields of a value, in declaration order: none, positional, or named. */
  datatype Payload =
    | NoData
    | Tuple(locs: seq<Loc>)
    | Record(fields: seq<(Ident, Loc)>)

  datatype Value = Value(variant: Ident, payload: Payload)

  /** A `&dyn Any` or `&mut dyn Any` to the field stored at `target`. */
  datatype ErasedRef = ErasedRef(kind: RefKind, target: Loc)

  /** An element of the returned vector: a bare reference, or a `(name, reference)` pair. */
  datatype Item = Ref(ref: ErasedRef) | NamedRef(name: string, ref: ErasedRef)

  function FieldNames(ps: seq<(Ident, Loc)>): (r: seq<Ident>)
    ensures |r| == |ps|
    ensures forall j :: 0 <= j < |ps| ==> r[j] == ps[j].0
  {
    seq(|ps|, j requires 0 <= j < |ps| => ps[j].0)
  }

  /** The storage of the value's fields, in declaration order. */
  function PayloadLocs(payload: Payload): seq<Loc> {
    match payload
    case NoData => []
    case Tuple(ls) => ls
    case Record(ps) => seq(|ps|, j requires 0 <= j < |ps| => ps[j].1)
  }

  /** `v` is a value of the declared variant: same name, and fields of the declared shape. */
  predicate Inhabits(v: Value, variant: Variant) {
    && v.variant == variant.ident
    && match variant.shape
       case Unit => v.payload.NoData?
       case Unnamed(n) => v.payload.Tuple? && |v.payload.locs| == n
       case Named(names) => v.payload.Record? && FieldNames(v.payload.fields) == names
  }

  // ---------------------------------------------------------------------
  // Running the generated match
  // ---------------------------------------------------------------------

  type Env = map<Ident, Loc>

  /** Binds each pattern name to the location of the field in the same position. */
  function Bind(bs: seq<Ident>, ls: seq<Loc>): Env
    requires |bs| == |ls|
  {
    if bs == [] then map[] else Bind(bs[1..], ls[1..])[bs[0] := ls[0]]
  }

  /** The location of the field called `b`, if the record has one. */
  function FieldLoc(ps: seq<(Ident, Loc)>, b: Ident): Option<Loc> {
    if ps == [] then None else if ps[0].0 == b then Some(ps[0].1) else FieldLoc(ps[1..], b)
  }

  function LocOf(ps: seq<(Ident, Loc)>, b: Ident): Loc {
    match FieldLoc(ps, b)
    case Some(l) => l
    case None => 0
  }

  /** A struct pattern `V { b0, .., bk }` without `..` names fields only, and every one of them. */
  predicate CoversRecord(bs: seq<Ident>, ps: seq<(Ident, Loc)>) {
    && (forall k :: 0 <= k < |bs| ==> FieldLoc(ps, bs[k]).Some?)
    && (forall j :: 0 <= j < |ps| ==> ps[j].0 in bs)
  }

  /** The bindings a pattern introduces against a payload, or None when it does not match. */
  function MatchPattern(p: Pattern, payload: Payload): Option<Env> {
    match p
    case PathPat => if payload.NoData? then Some(map[]) else None
    case TuplePat(bs) =>
      if payload.Tuple? && |bs| == |payload.locs| then Some(Bind(bs, payload.locs)) else None
    case RestPat => if payload.Tuple? then Some(map[]) else None
    case StructPat(bs) =>
      if payload.Record? && CoversRecord(bs, payload.fields) then
        Some(Bind(bs, seq(|bs|, k requires 0 <= k < |bs| => LocOf(payload.fields, bs[k]))))
      else None
  }

  /** One `vec!` element; an unbound name is an error. */
  function EvalEntry(env: Env, e: Entry): Option<Item> {
    if e.binding !in env then None
    else match e
      case Val(b, k) => Some(Ref(ErasedRef(k, env[b])))
      case Pair(n, b, k) => Some(NamedRef(n, ErasedRef(k, env[b])))
  }

  function EvalBody(env: Env, es: seq<Entry>): Option<seq<Item>>
    decreases |es|
  {
    if es == [] then Some([])
    else match (EvalEntry(env, es[0]), EvalBody(env, es[1..]))
      case (Some(x), Some(xs)) => Some([x] + xs)
      case _ => None
  }

  /** `match self { arms }`: the first arm whose path and pattern match decides the result. */
  function Dispatch(arms: seq<Arm>, v: Value): Option<seq<Item>>
    decreases |arms|
  {
    if arms == [] then None
    else if arms[0].variant == v.variant && MatchPattern(arms[0].pattern, v.payload).Some? then
      EvalBody(MatchPattern(arms[0].pattern, v.payload).value, arms[0].body)
    else Dispatch(arms[1..], v)
  }

  function FindMethod(ms: seq<Method>, acc: Accessor): Option<Method>
    decreases |ms|
  {
    if ms == [] then None else if ms[0].accessor == acc then Some(ms[0]) else FindMethod(ms[1..], acc)
  }

  /** Calling accessor `acc` of the impl on `v`; None when the impl has no such method. */
  function Invoke(impl: Impl, acc: Accessor, v: Value): Option<seq<Item>> {
    match FindMethod(impl.methods, acc)
    case Some(m) => Dispatch(m.arms, v)
    case None => None
  }

  // ---------------------------------------------------------------------
  // What each accessor should return
  // ---------------------------------------------------------------------

  /**
    The reference definition: one reference per field, in declaration order,
    of the accessor's reference kind and pointing at the field itself; the
    named accessors pair each with the field's name and report only named
    fields.
   */
  function Reflect(acc: Accessor, payload: Payload): (r: seq<Item>)
    ensures forall j :: 0 <= j < |r| ==> r[j].ref.kind == Receiver(acc) && (r[j].NamedRef? <==> Labelled(acc))
    ensures Labelled(acc) && !payload.Record? ==> r == []
    ensures !Labelled(acc) || payload.Record? ==>
              |r| == |PayloadLocs(payload)| && forall j :: 0 <= j < |r| ==> r[j].ref.target == PayloadLocs(payload)[j]
    ensures Labelled(acc) && payload.Record? ==> forall j :: 0 <= j < |r| ==> r[j].name == payload.fields[j].0
  {
    var k := Receiver(acc);
    if Labelled(acc) then
      match payload
      case Record(ps) => seq(|ps|, j requires 0 <= j < |ps| => NamedRef(ps[j].0, ErasedRef(k, ps[j].1)))
      case _ => []
    else
      match payload
      case NoData => []
      case Tuple(ls) => seq(|ls|, j requires 0 <= j < |ls| => Ref(ErasedRef(k, ls[j])))
      case Record(ps) => seq(|ps|, j requires 0 <= j < |ps| => Ref(ErasedRef(k, ps[j].1)))
  }

  /**
    A unit variant reports nothing through any accessor, and a positional
    variant nothing through the named accessors.
   */
  lemma ReflectEmptyCases(acc: Accessor, payload: Payload)
    ensures payload.NoData? ==> Reflect(acc, payload) == []
    ensures payload.Tuple? ==> (Reflect(acc, payload) == [] <==> Labelled(acc) || payload.locs == [])
  {
  }

  /**
    For named fields the positional accessor returns the named accessor's
    references with the names dropped, the names being the declared ones.
   */
  lemma ReflectNamedDropsNames(ps: seq<(Ident, Loc)>, kind: RefKind)
    ensures var plain := Reflect(if kind == Shared then GetFields else GetFieldsMut, Record(ps));
      var named := Reflect(if kind == Shared then GetNamedFields else GetNamedFieldsMut, Record(ps));
      && |plain| == |named| == |ps|
      && forall j :: 0 <= j < |ps| ==>
           && named[j].NamedRef? && named[j].name == FieldNames(ps)[j]
           && plain[j] == Ref(named[j].ref)
  {
  }

  /** The mutable accessors return what the shared ones do, as mutable references. */
  lemma ReflectMutMirrorsShared(acc: Accessor, payload: Payload)
    ensures var shared := Reflect(acc, payload);
      var mutable := Reflect(MutOf(acc), payload);
      && |mutable| == |shared|
      && forall j :: 0 <= j < |shared| ==>
           && mutable[j].ref == shared[j].ref.(kind := Mutable)
           && (mutable[j].NamedRef? <==> shared[j].NamedRef?)
           && (mutable[j].NamedRef? ==> mutable[j].name == shared[j].name)
  {
  }

  // ---------------------------------------------------------------------
  // Lemmas about the evaluator
  // ---------------------------------------------------------------------

  lemma {:induction false} BindAt(bs: seq<Ident>, ls: seq<Loc>, j: nat)
    requires |bs| == |ls| && Distinct(bs) && j < |bs|
    ensures bs[j] in Bind(bs, ls) && Bind(bs, ls)[bs[j]] == ls[j]
    decreases j
  {
    if j > 0 {
      assert Distinct(bs[1..]) by {
        forall a, b | 0 <= a < b < |bs[1..]| ensures bs[1..][a] != bs[1..][b] {
          assert bs[1..][a] == bs[a + 1] && bs[1..][b] == bs[b + 1];
        }
      }
      BindAt(bs[1..], ls[1..], j - 1);
      assert bs[0] != bs[j];
    }
  }

  lemma {:induction false} FieldLocAt(ps: seq<(Ident, Loc)>, j: nat)
    requires Distinct(FieldNames(ps)) && j < |ps|
    ensures FieldLoc(ps, ps[j].0) == Some(ps[j].1)
    decreases j
  {
    if j > 0 {
      assert FieldNames(ps)[0] != FieldNames(ps)[j];
      assert FieldNames(ps[1..]) == FieldNames(ps)[1..];
      FieldLocAt(ps[1..], j - 1);
    }
  }

  /** When every entry's binding is bound, the body evaluates entry by entry. */
  lemma {:induction false} EvalBodyAllBound(env: Env, es: seq<Entry>)
    requires forall j :: 0 <= j < |es| ==> es[j].binding in env
    ensures EvalBody(env, es).Some? && |EvalBody(env, es).value| == |es|
    ensures forall j :: 0 <= j < |es| ==> EvalBody(env, es).value[j] == EvalEntry(env, es[j]).value
    decreases |es|
  {
    if es != [] {
      EvalBodyAllBound(env, es[1..]);
      var xs := EvalBody(env, es[1..]).value;
      forall j | 0 < j < |es| ensures EvalBody(env, es).value[j] == EvalEntry(env, es[j]).value {
        assert es[1..][j - 1] == es[j];
      }
    }
  }

  /** Arms before `i` are for other variants, so the match reaches arm `i`. */
  lemma {:induction false} DispatchAt(arms: seq<Arm>, v: Value, i: nat)
    requires i < |arms|
    requires forall j :: 0 <= j < i ==> arms[j].variant != v.variant
    requires arms[i].variant == v.variant && MatchPattern(arms[i].pattern, v.payload).Some?
    ensures Dispatch(arms, v) == EvalBody(MatchPattern(arms[i].pattern, v.payload).value, arms[i].body)
    decreases i
  {
    if i > 0 {
      DispatchAt(arms[1..], v, i - 1);
    }
  }

  /** The arm of a variant matches a value of that variant and returns what `Reflect` says. */
  lemma ArmReflects(name: Ident, variant: Variant, acc: Accessor, v: Value)
    requires Inhabits(v, variant)
    requires variant.shape.Named? ==> Distinct(variant.shape.names)
    ensures var arm := Derive.ArmFor(acc, name, variant);
      && MatchPattern(arm.pattern, v.payload).Some?
      && EvalBody(MatchPattern(arm.pattern, v.payload).value, arm.body) == Some(Reflect(acc, v.payload))
  {
    var arm := Derive.ArmFor(acc, name, variant);
    var k := Receiver(acc);
    match variant.shape
    case Unit =>
    case Unnamed(n) =>
      if !Labelled(acc) {
        var ls := v.payload.locs;
        var bs := arm.pattern.bindings;
        var env := Bind(bs, ls);
        forall j | 0 <= j < |bs| ensures bs[j] in env && env[bs[j]] == ls[j] {
          BindAt(bs, ls, j);
        }
        EvalBodyAllBound(env, arm.body);
        assert EvalBody(env, arm.body).value == Reflect(acc, v.payload);
      }
    case Named(names) =>
      var ps := v.payload.fields;
      assert CoversRecord(names, ps) by {
        forall kk | 0 <= kk < |names| ensures FieldLoc(ps, names[kk]).Some? {
          FieldLocAt(ps, kk);
        }
        forall j | 0 <= j < |ps| ensures ps[j].0 in names {
          assert names[j] == ps[j].0;
        }
      }
      var ls := seq(|names|, kk requires 0 <= kk < |names| => LocOf(ps, names[kk]));
      var env := Bind(names, ls);
      assert MatchPattern(arm.pattern, v.payload) == Some(env);
      forall j | 0 <= j < |names| ensures names[j] in env && env[names[j]] == ps[j].1 {
        FieldLocAt(ps, j);
        BindAt(names, ls, j);
      }
      EvalBodyAllBound(env, arm.body);
      assert EvalBody(env, arm.body).value == Reflect(acc, v.payload);
  }

  /**
    Called on a value of any variant of a well-formed enum, the dispatch that
    the derive builds for accessor `acc` returns exactly `Reflect`: the
    variant's fields in declaration order.
   */
  lemma AccessorReflectsFields(name: Ident, vs: seq<Variant>, acc: Accessor, i: nat, v: Value)
    requires WellFormedVariants(vs) && i < |vs| && Inhabits(v, vs[i])
    ensures Dispatch(Derive.Arms(name, vs, acc), v) == Some(Reflect(acc, v.payload))
  {
    var arms := Derive.Arms(name, vs, acc);
    forall j | 0 <= j < i ensures arms[j].variant != v.variant {
      assert VariantIdents(vs)[j] != VariantIdents(vs)[i];
    }
    ArmReflects(name, vs[i], acc, v);
    DispatchAt(arms, v, i);
  }

  lemma {:induction false} FindMethodAt(ms: seq<Method>, acc: Accessor, k: nat)
    requires k < |ms| && ms[k].accessor == acc
    requires forall j :: 0 <= j < k ==> ms[j].accessor != acc
    ensures FindMethod(ms, acc) == Some(ms[k])
    decreases k
  {
    if k > 0 {
      FindMethodAt(ms[1..], acc, k - 1);
    }
  }

  /** Each of the four accessors `EnumReflect` emits returns the fields of the receiver's variant. */
  lemma EnumReflectReflects(input: DeriveInput, acc: Accessor, i: nat, v: Value)
    requires input.data.EnumData? && WellFormedVariants(input.data.variants)
    requires i < |input.data.variants| && Inhabits(v, input.data.variants[i])
    ensures Derive.EnumReflect(input).Ok?
    ensures Invoke(Derive.EnumReflect(input).value, acc, v) == Some(Reflect(acc, v.payload))
  {
    var ms := Derive.EnumReflect(input).value.methods;
    var k := match acc case GetFields => 0 case GetNamedFields => 1 case GetFieldsMut => 2 case GetNamedFieldsMut => 3;
    assert Accessors(ms)[k] == acc;
    FindMethodAt(ms, acc, k);
    AccessorReflectsFields(input.ident, input.data.variants, acc, i, v);
  }

  /**
    `EnumReflectMut` gives the mutable accessors the same behaviour as
    `EnumReflect` does and provides no shared accessor.
   */
  lemma EnumReflectMutReflects(input: DeriveInput, acc: Accessor, i: nat, v: Value)
    requires input.data.EnumData? && WellFormedVariants(input.data.variants)
    requires i < |input.data.variants| && Inhabits(v, input.data.variants[i])
    ensures DeriveMut.EnumReflectMut(input).Ok?
    ensures Invoke(DeriveMut.EnumReflectMut(input).value, acc, v)
            == if Receiver(acc) == Mutable then Some(Reflect(acc, v.payload)) else None
  {
    DeriveMut.EnumReflectMutIsMutSubset(input);
    var ms := DeriveMut.EnumReflectMut(input).value.methods;
    var primary := Derive.EnumReflect(input).value.methods;
    assert Accessors(ms)[0] == GetFieldsMut && Accessors(ms)[1] == GetNamedFieldsMut;
    if Receiver(acc) == Mutable {
      var k := if acc == GetFieldsMut then 0 else 1;
      FindMethodAt(ms, acc, k);
      assert ms[k] == primary[k + 2];
      AccessorReflectsFields(input.ident, input.data.variants, acc, i, v);
    } else {
      assert |ms| == 2 && ms[0].accessor != acc && ms[1].accessor != acc;
      assert FindMethod(ms[1..][1..], acc) == None by { assert ms[1..][1..] == []; }
      assert FindMethod(ms[1..], acc) == None;
      assert FindMethod(ms, acc) == None;
    }
  }
}
