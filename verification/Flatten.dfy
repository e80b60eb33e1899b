/**
  Flattening of nested groups (`flatten_complex_type.rs`).

  The source keeps a lazily materialised builder: the new group is only created
  once a nested group has to be merged in. The functions of this module specify
  an eager flattener, which copies the elements from the start; the class
  `Builder` and the method `Exec` are the source's algorithm, proved to compute
  the same.
 */
module Flatten {
  import opened Wrappers
  import opened Occurs
  import opened Meta
  import TypeGraph

  const MAX_DEPTH: nat := 0xFFFF_FFFF_FFFF_FFFF

  datatype Kind = AllKind | ChoiceKind | SequenceKind

  datatype Mode = Plain(kind: Kind) | Mixed(occurs: Range)

  datatype Config = Config(types: MetaTypes, maxDepth: nat, flattenNamedGroups: bool)

  /** A partially flattened group; `touched` once a nested group was merged in. */
  datatype Flat = Flat(kind: Kind, mode: Mode, isMixed: bool, elements: seq<ElementMeta>, touched: bool)

  // ---------- Eager specification

  function Reset(e: ElementMeta): ElementMeta {
    e.WithRange(Exactly(1))
  }

  function ResetAll(es: seq<ElementMeta>): (rs: seq<ElementMeta>)
    ensures |rs| == |es|
    ensures forall i | 0 <= i < |es| :: rs[i] == Reset(es[i])
  {
    seq(|es|, i requires 0 <= i < |es| => Reset(es[i]))
  }

  function Scale(e: ElementMeta, factor: Range): ElementMeta {
    e.WithRange(Range(e.minOccurs * factor.min, e.maxOccurs.Mul(factor.max)))
  }

  function ScaleAll(es: seq<ElementMeta>, factor: Range): (rs: seq<ElementMeta>)
    ensures |rs| == |es|
    ensures forall i | 0 <= i < |es| :: rs[i] == Scale(es[i], factor)
  {
    seq(|es|, i requires 0 <= i < |es| => Scale(es[i], factor))
  }

  /** `Occurs::update`: alternatives widen the range, other particles add to it. */
  function Update(o: Range, kind: Kind, r: Range): Range {
    if kind.ChoiceKind? then Range(Min(o.min, r.min), o.max.Max(r.max))
    else Range(o.min + r.min, o.max.Add(r.max))
  }

  /** The occurrence range `into_mixed` computes for a whole group. */
  function LengthRange(kind: Kind, es: seq<ElementMeta>): Range {
    if es == [] then (if kind.ChoiceKind? then Exactly(1) else Exactly(0))
    else Update(LengthRange(kind, es[..|es| - 1]), kind, es[|es| - 1].Bounds())
  }

  function ToMixed(s: Flat): Flat {
    if s.mode.Mixed? then s.(touched := true)
    else s.(touched := true, mode := Mixed(LengthRange(s.kind, s.elements)), elements := ResetAll(s.elements))
  }

  function IndexOf(es: seq<ElementMeta>, ident: PropertyIdent): (i: nat)
    ensures i <= |es|
    ensures i < |es| ==> es[i].ident == ident
    ensures forall j | 0 <= j < i :: es[j].ident != ident
  {
    if es == [] || es[0].ident == ident then 0 else 1 + IndexOf(es[1..], ident)
  }

  predicate SameVariant(a: ElementMetaVariant, b: ElementMetaVariant) {
    match (a, b)
    case (Text, Text) => true
    case (Any(_), Any(_)) => true
    case (Typed(x, _), Typed(y, _)) => x == y
    case (_, _) => false
  }

  function Added(s: Flat, updateOccurs: bool, e: ElementMeta): Result<Flat, Error> {
    if !s.touched then
      Ok(s.(elements := s.elements + [e]))
    else
      var i := IndexOf(s.elements, e.ident);
      var mode := if updateOccurs && s.mode.Mixed? then Mixed(Update(s.mode.occurs, s.kind, e.Bounds())) else s.mode;
      if i < |s.elements| then
        var old_ := s.elements[i];
        if !SameVariant(old_.variant, e.variant) then
          Err(MismatchingVariants(old_.variant, e.variant))
        else if updateOccurs && s.mode.Plain? then
          Ok(s.(elements := s.elements[i := SumBounds(old_, e)]))
        else
          Ok(s.(mode := mode))
      else
        Ok(s.(mode := mode, elements := s.elements + [if updateOccurs && s.mode.Mixed? then Reset(e) else e]))
  }

  function SumBounds(a: ElementMeta, b: ElementMeta): ElementMeta {
    a.WithRange(Range(a.minOccurs + b.minOccurs, a.maxOccurs.Add(b.maxOccurs)))
  }

  function AddAll(s: Flat, updateOccurs: bool, es: seq<ElementMeta>): Result<Flat, Error> {
    if es == [] then Ok(s)
    else
      var s' :- AddAll(s, updateOccurs, es[..|es| - 1]);
      Added(s', updateOccurs, es[|es| - 1])
  }

  /** Both groups keep their kind when the nested one is merged in as `el`. */
  predicate KeepsKind(s: Flat, el: ElementMeta, other: Flat) {
    && s.mode.Plain?
    && other.mode == s.mode
    && (s.mode.kind.AllKind? || el.maxOccurs.Le(Bounded(1)))
  }

  function Merged(s: Flat, el: ElementMeta, other: Flat): Result<Flat, Error> {
    if KeepsKind(s, el, other) then
      AddAll(s.(touched := true, isMixed := s.isMixed || other.isMixed), true, ScaleAll(other.elements, el.Bounds()))
    else
      var a, b := ToMixed(s), ToMixed(other);
      var o := Update(a.mode.occurs, s.kind,
                      Range(b.mode.occurs.min * el.minOccurs, b.mode.occurs.max.Mul(el.maxOccurs)));
      AddAll(a.(mode := Mixed(o), isMixed := s.isMixed || other.isMixed), false, ResetAll(b.elements))
  }

  function KindOf(variant: MetaTypeVariant): Kind
    requires variant.IsGroup()
  {
    match variant
    case All(_) => AllKind
    case Choice(_) => ChoiceKind
    case Sequence(_) => SequenceKind
  }

  predicate Flattens(c: Config, e: ElementMeta) {
    e.IsGroup() && (e.ident.name.IsGenerated() || c.flattenNamedGroups)
  }

  function Exec(c: Config, ident: TypeIdent, depth: nat): Result<Flat, Error>
    requires depth <= c.maxDepth
    decreases c.maxDepth - depth, 2
  {
    if ident !in c.types then Err(UnknownType(ident))
    else if !c.types[ident].variant.IsGroup() then Err(ExpectedChoiceContent(ident))
    else
      var v := c.types[ident].variant;
      if depth == c.maxDepth then Ok(Flat(KindOf(v), Plain(KindOf(v)), v.group.isMixed, v.group.elements, false))
      else ExecElements(c, KindOf(v), v.group.isMixed, v.group.elements, depth)
  }

  function ExecElements(c: Config, kind: Kind, isMixed: bool, es: seq<ElementMeta>, depth: nat): Result<Flat, Error>
    requires depth < c.maxDepth
    decreases c.maxDepth - depth, 1, |es|
  {
    if es == [] then Ok(Flat(kind, Plain(kind), isMixed, [], false))
    else
      var s :- ExecElements(c, kind, isMixed, es[..|es| - 1], depth);
      Step(c, s, es[|es| - 1], depth)
  }

  function Step(c: Config, s: Flat, e: ElementMeta, depth: nat): Result<Flat, Error>
    requires depth < c.maxDepth
    decreases c.maxDepth - depth, 0, 0
  {
    if Flattens(c, e) then
      var inner :- Exec(c, e.variant.type_, depth + 1);
      Merged(s, e, inner)
    else
      Added(s, true, e)
  }

  function VariantOf(s: Flat): Option<(Range, MetaTypeVariant)> {
    if !s.touched then None
    else
      var meta := GroupMeta(s.isMixed, s.elements);
      match s.mode
      case Plain(AllKind) => Some((Exactly(1), All(meta)))
      case Plain(SequenceKind) => Some((Exactly(1), Sequence(meta)))
      case Plain(ChoiceKind) => Some((Exactly(1), Choice(meta)))
      case Mixed(o) => Some((o, Choice(meta)))
  }

  /** `flatten_complex_type_impl`. */
  function FlattenComplexType(types: MetaTypes, ident: TypeIdent): Result<MetaTypes, Error> {
    if ident !in types then Err(UnknownType(ident))
    else if !types[ident].variant.ComplexType? then Err(ExpectedComplexType(ident))
    else if types[ident].variant.complex.content.None? then Err(MissingContentType(ident))
    else
      var content := types[ident].variant.complex.content.value;
      var s :- Exec(Config(types, MAX_DEPTH, true), content, 0);
      match VariantOf(s)
      case None => Ok(types)
      case Some((occurs, variant)) =>
        Ok(ScaleComplex(types[content := MetaType.New(variant)], ident, occurs))
  }

  function ScaleComplex(types: MetaTypes, ident: TypeIdent, factor: Range): MetaTypes {
    if ident in types && types[ident].variant.ComplexType? then
      var ci := types[ident].variant.complex;
      types[ident := types[ident].(variant := ComplexType(
        ci.(minOccurs := ci.minOccurs * factor.min, maxOccurs := ci.maxOccurs.Mul(factor.max))))]
    else types
  }

  /** `flatten_complex_types`: types that cannot be flattened are left as they are. */
  function FlattenAll(types: MetaTypes, idents: seq<TypeIdent>): MetaTypes {
    if idents == [] then types
    else
      var before := FlattenAll(types, idents[..|idents| - 1]);
      match FlattenComplexType(before, idents[|idents| - 1])
      case Ok(after) => after
      case Err(_) => before
  }

  // ---------- The lazy builder

  class Builder {
    const modeOld: Mode
    var modeNew: Mode
    const metaOld: GroupMeta
    var metaNew: Option<GroupMeta>

    /** `metaNew` is None exactly while nothing was merged in, and then the mode is still the old one. */
    ghost predicate Valid()
      reads this
    {
      && modeOld.Plain?
      && (modeNew.Plain? || metaNew.None? ==> modeNew == modeOld)
    }

    /** The eager state this builder stands for once `i` elements of the old group are processed. */
    ghost function View(i: nat): Flat
      requires modeOld.Plain?
      reads this
    {
      match metaNew
      case None => Flat(modeOld.kind, modeNew, metaOld.isMixed, metaOld.elements[..Min(i, |metaOld.elements|)], false)
      case Some(m) => Flat(modeOld.kind, modeNew, m.isMixed, m.elements, true)
    }

    /** The state when every element of the old group is processed. */
    ghost function Whole(): Flat
      requires modeOld.Plain?
      reads this
    {
      View(|metaOld.elements|)
    }

    constructor (kind: Kind, meta: GroupMeta)
      ensures Valid() && metaOld == meta && modeOld == Plain(kind)
      ensures metaNew == None
    {
      modeOld, modeNew := Plain(kind), Plain(kind);
      metaOld, metaNew := meta, None;
    }

    method IntoMixed()
      requires Valid()
      modifies this
      ensures Valid() && metaNew.Some?
      ensures Whole() == ToMixed(old(Whole()))
    {
      var meta := if metaNew.Some? then metaNew.value else metaOld;
      assert metaOld.elements[..|metaOld.elements|] == metaOld.elements;
      if modeNew.Plain? {
        var kind := modeNew.kind;
        var occurs := LengthRange(kind, []);
        var reset: seq<ElementMeta> := [];
        for i := 0 to |meta.elements|
          invariant occurs == LengthRange(kind, meta.elements[..i])
          invariant reset == ResetAll(meta.elements[..i])
        {
          assert meta.elements[..i + 1][..i] == meta.elements[..i];
          occurs := Update(occurs, kind, meta.elements[i].Bounds());
          reset := reset + [Reset(meta.elements[i])];
        }
        assert meta.elements[..|meta.elements|] == meta.elements;
        meta := meta.(elements := reset);
        modeNew := Mixed(occurs);
      }
      metaNew := Some(meta);
    }

    method AddElement(updateOccurs: bool, e: ElementMeta, ghost i: nat) returns (r: Result<(), Error>)
      requires Valid()
      requires metaNew.None? ==> i < |metaOld.elements| && e == metaOld.elements[i]
      modifies this
      ensures Valid() && (metaNew.None? <==> old(metaNew.None?))
      ensures r.Ok? ==> Added(old(View(i)), updateOccurs, e) == Ok(View(i + 1))
      ensures r.Err? ==> Added(old(View(i)), updateOccurs, e) == Err(r.error)
    {
      if metaNew.None? {
        assert metaOld.elements[..i + 1] == metaOld.elements[..i] + [e];
        return Ok(());
      }
      var meta := metaNew.value;
      var j := IndexOf(meta.elements, e.ident);
      if j < |meta.elements| {
        var existing := meta.elements[j];
        if !SameVariant(existing.variant, e.variant) {
          return Err(MismatchingVariants(existing.variant, e.variant));
        }
        if updateOccurs {
          if modeNew.Mixed? {
            modeNew := Mixed(Update(modeNew.occurs, modeOld.kind, e.Bounds()));
          } else {
            metaNew := Some(meta.(elements := meta.elements[j := SumBounds(existing, e)]));
          }
        }
      } else {
        var element := e;
        if updateOccurs && modeNew.Mixed? {
          modeNew := Mixed(Update(modeNew.occurs, modeOld.kind, e.Bounds()));
          element := Reset(element);
        }
        metaNew := Some(meta.(elements := meta.elements + [element]));
      }
      return Ok(());
    }

    method Merge(el: ElementMeta, prev: seq<ElementMeta>, other: Builder, ghost i: nat) returns (r: Result<(), Error>)
      requires Valid() && other.Valid() && other != this
      requires i <= |metaOld.elements| && prev == metaOld.elements[..i]
      modifies this, other
      ensures Valid() && metaNew.Some?
      ensures r.Ok? ==> Merged(old(View(i)), el, old(other.Whole())) == Ok(View(i + 1))
      ensures r.Err? ==> Merged(old(View(i)), el, old(other.Whole())) == Err(r.error)
    {
      if metaNew.None? {
        metaNew := Some(GroupMeta(metaOld.isMixed, prev));
      }
      assert View(i) == old(View(i)).(touched := true);
      assert other.metaOld.elements[..|other.metaOld.elements|] == other.metaOld.elements;
      var keeps :=
        && modeNew.Plain?
        && other.modeNew == modeNew
        && (modeNew.kind.AllKind? || el.maxOccurs.Le(Bounded(1)));
      if !keeps {
        IntoMixed();
        other.IntoMixed();
      }
      var meta := if other.metaNew.Some? then other.metaNew.value else other.metaOld;
      metaNew := Some(metaNew.value.(isMixed := metaNew.value.isMixed || meta.isMixed));
      if !keeps {
        var b := other.modeNew.occurs;
        modeNew := Mixed(Update(modeNew.occurs, modeOld.kind, Range(b.min * el.minOccurs, b.max.Mul(el.maxOccurs))));
      }
      r := AddFlattened(meta.elements, el, keeps);
    }

    /** The loop that ends `merge`: the flattened elements, scaled or with single occurrence. */
    method AddFlattened(es: seq<ElementMeta>, el: ElementMeta, keeps: bool) returns (r: Result<(), Error>)
      requires Valid() && metaNew.Some?
      modifies this
      ensures Valid() && metaNew.Some?
      ensures var added := if keeps then ScaleAll(es, el.Bounds()) else ResetAll(es);
              && (r.Ok? ==> AddAll(old(View(0)), keeps, added) == Ok(View(0)))
              && (r.Err? ==> AddAll(old(View(0)), keeps, added) == Err(r.error))
    {
      ghost var added := if keeps then ScaleAll(es, el.Bounds()) else ResetAll(es);
      for k := 0 to |es|
        invariant Valid() && metaNew.Some?
        invariant AddAll(old(View(0)), keeps, added[..k]) == Ok(View(0))
      {
        AddAllStep(old(View(0)), keeps, added, k, View(0));
        var element := if keeps then Scale(es[k], el.Bounds()) else Reset(es[k]);
        var step := AddElement(keeps, element, 0);
        if step.Err? {
          AddAllFails(old(View(0)), keeps, added, k + 1);
          return step;
        }
      }
      assert added[..|added|] == added;
      return Ok(());
    }

    /** `into_variant`: nothing to replace while nothing was merged in. */
    method IntoVariant() returns (r: Option<(Range, MetaTypeVariant)>)
      requires Valid()
      ensures r == VariantOf(Whole())
      ensures r.None? <==> metaNew.None?
    {
      if metaNew.None? {
        return None;
      }
      match modeNew
      case Plain(AllKind) => r := Some((Exactly(1), All(metaNew.value)));
      case Plain(SequenceKind) => r := Some((Exactly(1), Sequence(metaNew.value)));
      case Plain(ChoiceKind) => r := Some((Exactly(1), Choice(metaNew.value)));
      case Mixed(o) => r := Some((o, Choice(metaNew.value)));
    }
  }

  lemma AddAllStep(s: Flat, updateOccurs: bool, es: seq<ElementMeta>, k: nat, m: Flat)
    requires k < |es| && AddAll(s, updateOccurs, es[..k]) == Ok(m)
    ensures AddAll(s, updateOccurs, es[..k + 1]) == Added(m, updateOccurs, es[k])
  {
    assert es[..k + 1][..k] == es[..k];
  }

  lemma ExecElementsStep(c: Config, kind: Kind, isMixed: bool, es: seq<ElementMeta>, depth: nat, k: nat, s: Flat)
    requires depth < c.maxDepth && k < |es| && ExecElements(c, kind, isMixed, es[..k], depth) == Ok(s)
    ensures ExecElements(c, kind, isMixed, es[..k + 1], depth) == Step(c, s, es[k], depth)
  {
    assert es[..k + 1][..k] == es[..k];
  }

  /** An error met while adding elements is the error of the whole addition. */
  lemma {:induction false} AddAllFails(s: Flat, updateOccurs: bool, es: seq<ElementMeta>, k: nat)
    requires k <= |es| && AddAll(s, updateOccurs, es[..k]).Err?
    ensures AddAll(s, updateOccurs, es) == AddAll(s, updateOccurs, es[..k])
    decreases |es|
  {
    if k < |es| {
      assert es[..|es| - 1][..k] == es[..k];
      AddAllFails(s, updateOccurs, es[..|es| - 1], k);
    } else {
      assert es[..k] == es;
    }
  }

  lemma {:induction false} ExecElementsFails(c: Config, kind: Kind, isMixed: bool, es: seq<ElementMeta>, depth: nat, k: nat)
    requires depth < c.maxDepth && k <= |es|
    requires ExecElements(c, kind, isMixed, es[..k], depth).Err?
    ensures ExecElements(c, kind, isMixed, es, depth) == ExecElements(c, kind, isMixed, es[..k], depth)
    decreases |es|
  {
    if k < |es| {
      assert es[..|es| - 1][..k] == es[..k];
      ExecElementsFails(c, kind, isMixed, es[..|es| - 1], depth, k);
    } else {
      assert es[..k] == es;
    }
  }

  /** `Flatten::exec`: the lazy builder ends in the state the eager flattener computes. */
  method ExecLazily(c: Config, ident: TypeIdent, depth: nat) returns (r: Result<Builder, Error>)
    requires depth <= c.maxDepth
    ensures r.Ok? ==> fresh(r.value) && r.value.Valid() && Exec(c, ident, depth) == Ok(r.value.Whole())
    ensures r.Err? ==> Exec(c, ident, depth) == Err(r.error)
    decreases c.maxDepth - depth, 1
  {
    if ident !in c.types {
      return Err(UnknownType(ident));
    }
    var v := c.types[ident].variant;
    if !v.IsGroup() {
      return Err(ExpectedChoiceContent(ident));
    }
    var es := v.group.elements;
    var builder := new Builder(KindOf(v), v.group);
    assert es[..|es|] == es;
    if depth >= c.maxDepth {
      return Ok(builder);
    }
    for i := 0 to |es|
      invariant fresh(builder) && builder.Valid() && builder.metaOld == v.group
      invariant ExecElements(c, KindOf(v), v.group.isMixed, es[..i], depth) == Ok(builder.View(i))
    {
      ExecElementsStep(c, KindOf(v), v.group.isMixed, es, depth, i, builder.View(i));
      var step := ExecElement(c, builder, i, depth);
      if step.Err? {
        ExecElementsFails(c, KindOf(v), v.group.isMixed, es, depth, i + 1);
        return Err(step.error);
      }
    }
    return Ok(builder);
  }

  /** One round of the loop of `exec`. */
  method ExecElement(c: Config, builder: Builder, i: nat, depth: nat) returns (r: Result<(), Error>)
    requires depth < c.maxDepth && builder.Valid() && i < |builder.metaOld.elements|
    modifies builder
    ensures builder.Valid()
    ensures r.Ok? ==> Step(c, old(builder.View(i)), builder.metaOld.elements[i], depth) == Ok(builder.View(i + 1))
    ensures r.Err? ==> Step(c, old(builder.View(i)), builder.metaOld.elements[i], depth) == Err(r.error)
    decreases c.maxDepth - depth, 0
  {
    var e := builder.metaOld.elements[i];
    if Flattens(c, e) {
      var inner :- ExecLazily(c, e.variant.type_, depth + 1);
      r := builder.Merge(e, builder.metaOld.elements[..i], inner, i);
    } else {
      r := builder.AddElement(true, e, i);
    }
  }

  class Optimizer {
    var types: MetaTypes

    constructor (types: MetaTypes)
      ensures this.types == types
    {
      this.types := types;
    }

    /** `flatten_complex_type_impl`: an error leaves the types as they were. */
    method FlattenComplexTypeImpl(ident: TypeIdent) returns (r: Result<(), Error>)
      modifies this
      ensures r.Ok? ==> FlattenComplexType(old(types), ident) == Ok(types)
      ensures r.Err? ==> FlattenComplexType(old(types), ident) == Err(r.error) && types == old(types)
    {
      if ident !in types {
        return Err(UnknownType(ident));
      }
      if !types[ident].variant.ComplexType? {
        return Err(ExpectedComplexType(ident));
      }
      var ci := types[ident].variant.complex;
      if ci.content.None? {
        return Err(MissingContentType(ident));
      }
      var builder :- ExecLazily(Config(types, MAX_DEPTH, true), ci.content.value, 0);
      var flattened := builder.IntoVariant();
      if flattened.Some? {
        var (occurs, variant) := flattened.value;
        types := types[ci.content.value := MetaType.New(variant)];
        if ident in types && types[ident].variant.ComplexType? {
          var ci := types[ident].variant.complex;
          types := types[ident := types[ident].(variant := ComplexType(
            ci.(minOccurs := ci.minOccurs * occurs.min, maxOccurs := ci.maxOccurs.Mul(occurs.max))))];
        }
      }
      return Ok(());
    }

    /** `flatten_complex_types`: every complex type with a group as content once, in the order of the type map. */
    method FlattenComplexTypes() returns (ghost idents: seq<TypeIdent>)
      modifies this
      ensures forall i, j | 0 <= i < j < |idents| :: idents[i] != idents[j]
      ensures forall x :: x in idents <==> TypeGraph.HasComplexContent(old(types), x)
      ensures types == FlattenAll(old(types), idents)
    {
      var todo := set i | i in types && TypeGraph.HasComplexContent(types, i);
      idents := [];
      while todo != {}
        invariant forall x :: TypeGraph.HasComplexContent(old(types), x) <==> x in todo || x in idents
        invariant forall x | x in todo :: x !in idents
        invariant forall i, j | 0 <= i < j < |idents| :: idents[i] != idents[j]
        invariant types == FlattenAll(old(types), idents)
        decreases todo
      {
        var ident :| ident in todo;
        assert (idents + [ident])[..|idents|] == idents;
        var r := FlattenComplexTypeImpl(ident);
        todo, idents := todo - {ident}, idents + [ident];
      }
    }
  }
}
