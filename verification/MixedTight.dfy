/**
  The bounds that move to the complex type when groups become one mixed choice:
  they are the fewest and the most children of all, if every nested choice has
  an alternative of at most one child.
 */
module MixedTight {
  import opened Wrappers
  import opened Occurs
  import opened Meta
  import opened GroupGraph
  import opened ContentModel
  import opened Flatten
  import opened FlattenWords
  import opened WordCounts
  import opened FlattenTight

  /** The number of children a flattened group stands for. */
  function LengthOf(s: Flat): Range {
    if s.mode.Mixed? then s.mode.occurs else LengthRange(s.kind, s.elements)
  }

  // ---------- One more element

  lemma AddedLength(s: Flat, e: ElementMeta)
    requires Added(s, true, e).Ok? && (s.mode.Plain? ==> s.mode.kind == s.kind) && (s.mode.Mixed? ==> s.touched)
    requires s.mode.Plain? && s.kind.ChoiceKind? ==> e.ident !in IdentsOf(s.elements)
    ensures LengthOf(Added(s, true, e).value) == Update(LengthOf(s), s.kind, e.Bounds())
  {
    if s.mode.Plain? {
      if s.kind.ChoiceKind? {
        IdentsNew(s.elements, e.ident);
        assert (s.elements + [e])[..|s.elements|] == s.elements;
      } else {
        AddedCounts(s, e, Anything);
        LengthIsCount(s.kind, s.elements);
        LengthIsCount(s.kind, Added(s, true, e).value.elements);
      }
    }
  }

  lemma IdentsNew(es: seq<ElementMeta>, x: PropertyIdent)
    requires x !in IdentsOf(es)
    ensures IndexOf(es, x) == |es|
  {
    var i := IndexOf(es, x);
    if i < |es| {
      IdentAt(es, i);
    }
  }

  // ---------- One more group

  /** Alternatives of two choices. */
  lemma {:induction false} AlternativesAppend(a: seq<ElementMeta>, b: seq<ElementMeta>)
    ensures var x, y := LengthRange(ChoiceKind, a), LengthRange(ChoiceKind, b);
            LengthRange(ChoiceKind, a + b) == Range(Min(x.min, y.min), x.max.Max(y.max))
    ensures LengthRange(ChoiceKind, a).min <= 1 && LengthRange(ChoiceKind, a).max != Bounded(0)
    decreases |a| + |b|
  {
    if b == [] {
      assert a + b == a;
      if a != [] {
        AlternativesAppend(a[..|a| - 1], []);
      }
    } else {
      AlternativesAppend(a, b[..|b| - 1]);
      assert (a + b)[..|a + b| - 1] == a + b[..|b| - 1];
    }
  }

  /** Alternatives of a choice that occurs at most once. */
  lemma {:induction false} AlternativesOptional(es: seq<ElementMeta>)
    requires es != []
    ensures var o := LengthRange(ChoiceKind, ScaleAll(es, Range(0, Bounded(1))));
            o.min == 0 && o.max == LengthRange(ChoiceKind, es).max
    decreases |es|
  {
    var f := Range(0, Bounded(1));
    var n := |es| - 1;
    assert ScaleAll(es, f)[..n] == ScaleAll(es[..n], f) && ScaleAll(es, f)[n] == Scale(es[n], f);
    assert es[n].minOccurs * 0 == 0;
    assert es[n].maxOccurs.Mul(Bounded(1)) == es[n].maxOccurs;
    if n > 0 {
      AlternativesOptional(es[..n]);
    } else {
      assert ScaleAll([], f) == [];
    }
  }

  /** Of one that occurs once, or at most once. */
  lemma AlternativesScaled(es: seq<ElementMeta>, f: Range)
    requires es != [] && f.min <= 1 && f.max == Bounded(1)
    ensures LengthRange(ChoiceKind, ScaleAll(es, f)).min == LengthRange(ChoiceKind, es).min * f.min
    ensures LengthRange(ChoiceKind, ScaleAll(es, f)).max == LengthRange(ChoiceKind, es).max
  {
    if f.min == 0 {
      AlternativesOptional(es);
      assert LengthRange(ChoiceKind, es).min * 0 == 0;
    } else {
      ScaledOnce(es);
      assert f == Exactly(1);
    }
  }

  /** The range of a repeated group. */
  function RepeatedLength(o: Range, el: ElementMeta): Range {
    Range(o.min * el.minOccurs, o.max.Mul(el.maxOccurs))
  }

  /** Merging a group adds its length, or widens by it, whether the kind is kept or not. */
  lemma MergedLength(s: Flat, el: ElementMeta, inner: Flat)
    requires Merged(s, el, inner).Ok? && AllLeaves(s.elements) && AllLeaves(inner.elements)
    requires (s.mode.Plain? ==> s.mode.kind == s.kind) && (inner.mode.Plain? ==> inner.mode.kind == inner.kind)
    requires el.maxOccurs != Bounded(0) && el.maxOccurs.Allows(el.minOccurs)
    requires inner.mode.Plain? ==> AllOccur(inner.elements) && inner.elements != []
    requires KeepsKind(s, el, inner) && s.kind.ChoiceKind? ==> NoRepeat(IdentsOf(s.elements) + IdentsOf(inner.elements))
    ensures LengthOf(Merged(s, el, inner).value) == Update(LengthOf(s), s.kind, RepeatedLength(LengthOf(inner), el))
  {
    MergedShape(s, el, inner);
    if KeepsKind(s, el, inner) {
      if s.kind.ChoiceKind? {
        AlternativesAppend(s.elements, ScaleAll(inner.elements, el.Bounds()));
        AlternativesScaled(inner.elements, el.Bounds());
        assert LengthOf(inner).max.Mul(Bounded(1)) == LengthOf(inner).max;
      } else {
        KeptLength(s, el, inner);
        SameUpdate(LengthOf(s), s.kind, RepeatedLength(LengthOf(inner), el));
      }
    }
  }

  lemma SameUpdate(o: Range, kind: Kind, x: Range)
    requires !kind.ChoiceKind?
    ensures Update(o, kind, x) == Update(o, SequenceKind, x)
  {
  }

  lemma KeptLength(s: Flat, el: ElementMeta, inner: Flat)
    requires Merged(s, el, inner).Ok? && KeepsKind(s, el, inner) && !s.kind.ChoiceKind?
    requires s.mode.kind == s.kind == inner.kind && el.maxOccurs != Bounded(0)
    requires AllOccur(inner.elements) && inner.elements != []
    ensures LengthOf(Merged(s, el, inner).value) == Update(LengthOf(s), SequenceKind, RepeatedLength(LengthOf(inner), el))
  {
    KeptCount(s, el, inner);
    PlainLength(s);
    PlainLength(inner);
    PlainLength(Merged(s, el, inner).value);
  }

  lemma PlainLength(s: Flat)
    requires s.mode.Plain? && !s.kind.ChoiceKind?
    ensures LengthOf(s) == CountRange(s.elements, Anything)
  {
    LengthIsCount(s.kind, s.elements);
  }

  lemma KeptCount(s: Flat, el: ElementMeta, inner: Flat)
    requires Merged(s, el, inner).Ok? && KeepsKind(s, el, inner) && el.maxOccurs != Bounded(0)
    requires AllOccur(inner.elements) && inner.elements != []
    ensures Merged(s, el, inner).value.mode == s.mode && Merged(s, el, inner).value.kind == s.kind
    ensures CountRange(Merged(s, el, inner).value.elements, Anything) ==
              Update(CountRange(s.elements, Anything), SequenceKind, RepeatedLength(CountRange(inner.elements, Anything), el))
  {
    var start := s.(touched := true, isMixed := s.isMixed || inner.isMixed);
    var scaled := ScaleAll(inner.elements, el.Bounds());
    AddAllCounts(start, scaled, Anything);
    AddAllMode(start, true, scaled);
    ScaledCount(inner.elements, el);
    SumCount(s.elements, scaled);
  }

  lemma SumCount(a: seq<ElementMeta>, b: seq<ElementMeta>)
    ensures CountRange(a + b, Anything) == Update(CountRange(a, Anything), SequenceKind, CountRange(b, Anything))
  {
    AppendHas(a, b, Anything);
  }

  lemma ScaledCount(es: seq<ElementMeta>, el: ElementMeta)
    requires AllOccur(es) && es != [] && el.maxOccurs != Bounded(0)
    ensures CountRange(ScaleAll(es, el.Bounds()), Anything) == RepeatedLength(CountRange(es, Anything), el)
  {
    ScaledSum(es, el.Bounds(), Anything);
    SumIsSome(es);
    ScaledIsRepeated(CountRange(ScaleAll(es, el.Bounds()), Anything), CountRange(es, Anything), el);
  }

  lemma ScaledIsRepeated(b: Range, a: Range, el: ElementMeta)
    requires IsScaled(b, a, el.Bounds()) && a.max != Bounded(0)
    ensures b == RepeatedLength(a, el)
  {
    assert el.minOccurs * a.min == a.min * el.minOccurs;
  }

  lemma SumIsSome(es: seq<ElementMeta>)
    requires AllOccur(es) && es != []
    ensures CountRange(es, Anything).max != Bounded(0)
  {
  }

  // ---------- Plain groups in which everything may occur

  ghost predicate PlainOccur(s: Flat, nonempty: bool) {
    s.mode.Plain? ==> AllOccur(s.elements) && (nonempty ==> s.elements != [])
  }

  lemma AddedPlain(s: Flat, e: ElementMeta)
    requires Added(s, true, e).Ok? && PlainOccur(s, false) && e.maxOccurs != Bounded(0)
    ensures PlainOccur(Added(s, true, e).value, true)
  {
    if s.mode.Plain? {
      AddedOccur(s, e);
    }
  }

  lemma MergedPlain(s: Flat, el: ElementMeta, inner: Flat)
    requires Merged(s, el, inner).Ok? && PlainOccur(s, false) && PlainOccur(inner, true) && el.maxOccurs != Bounded(0)
    requires AllLeaves(s.elements) && AllLeaves(inner.elements)
    ensures PlainOccur(Merged(s, el, inner).value, true)
  {
    MergedShape(s, el, inner);
    if KeepsKind(s, el, inner) {
      var scaled := ScaleAll(inner.elements, el.Bounds());
      var start := s.(touched := true, isMixed := s.isMixed || inner.isMixed);
      ScaledOccur(inner.elements, el.Bounds());
      AddAllOccur(start, scaled);
      IdentAt(inner.elements, 0);
      assert IdentsOf(inner.elements)[0] in IdentsOf(inner.elements);
      assert IdentsOf(Merged(s, el, inner).value.elements) != [];
    }
  }

  lemma {:induction false} ElementsPlain(c: Config, kind: Kind, isMixed: bool, es: seq<ElementMeta>, depth: nat, r: nat)
    requires Runs(c, es, depth, r) && ExecElements(c, kind, isMixed, es, depth).Ok? && AllUsable(c.types, es, r)
    ensures PlainOccur(ExecElements(c, kind, isMixed, es, depth).value, es != [])
    decreases r, |es|
  {
    if es != [] {
      var e := es[|es| - 1];
      UsableSnoc(c.types, es, r);
      assert Runs(c, es[..|es| - 1], depth, r) && ExecElements(c, kind, isMixed, es[..|es| - 1], depth).Ok?;
      ElementsPlain(c, kind, isMixed, es[..|es| - 1], depth, r);
      if e.IsGroup() {
        NestedRuns(c, es, |es| - 1, depth, r);
        var g := c.types[e.variant.type_].variant;
        InnerUsable(c.types, e, g, r);
        if ExecElements(c, KindOf(g), g.group.isMixed, g.group.elements, depth + 1).Ok? {
          ElementsPlain(c, KindOf(g), g.group.isMixed, g.group.elements, depth + 1, r - 1);
        }
      }
      LastPlain(c, kind, isMixed, es, depth, r);
    }
  }

  lemma LastPlain(c: Config, kind: Kind, isMixed: bool, es: seq<ElementMeta>, depth: nat, r: nat)
    requires Runs(c, es, depth, r) && ExecElements(c, kind, isMixed, es, depth).Ok? && es != []
    requires UsableElement(c.types, es[|es| - 1], r)
    requires var f := ExecElements(c, kind, isMixed, es[..|es| - 1], depth);
             f.Ok? ==> PlainOccur(f.value, es[..|es| - 1] != [])
    requires es[|es| - 1].IsGroup() && IsGroupType(c.types, es[|es| - 1].variant.type_) ==>
               var g := c.types[es[|es| - 1].variant.type_].variant;
               var f := ExecElements(c, KindOf(g), g.group.isMixed, g.group.elements, depth + 1);
               f.Ok? ==> PlainOccur(f.value, g.group.elements != [])
    ensures PlainOccur(ExecElements(c, kind, isMixed, es, depth).value, true)
  {
    var e := es[|es| - 1];
    var s := FrontState(c, kind, isMixed, es, depth, r);
    if e.IsGroup() {
      var g, inner := InnerState(c, s, es, depth, r);
      InnerUsable(c.types, e, g, r);
      GroupPlain(s, e, inner, es[..|es| - 1] != []);
    } else {
      LeafPlain(s, e, es[..|es| - 1] != []);
    }
  }

  lemma LeafPlain(s: Flat, e: ElementMeta, nonempty: bool)
    requires Added(s, true, e).Ok? && PlainOccur(s, nonempty) && e.maxOccurs != Bounded(0)
    ensures PlainOccur(Added(s, true, e).value, true)
  {
    AddedPlain(s, e);
  }

  lemma GroupPlain(s: Flat, e: ElementMeta, inner: Flat, nonempty: bool)
    requires Merged(s, e, inner).Ok? && PlainOccur(s, nonempty) && PlainOccur(inner, true) && e.maxOccurs != Bounded(0)
    requires AllLeaves(s.elements) && AllLeaves(inner.elements)
    ensures PlainOccur(Merged(s, e, inner).value, true)
  {
    MergedPlain(s, e, inner);
  }

  lemma InnerUsable(types: MetaTypes, e: ElementMeta, g: MetaTypeVariant, r: nat)
    requires e.IsGroup() && UsableElement(types, e, r) && g == types[e.variant.type_].variant
    ensures r > 0 && g.IsGroup() && g.group.elements != [] && AllUsable(types, g.group.elements, r - 1)
    ensures e.maxOccurs != Bounded(0)
  {
  }

  // ---------- The lengths of whole groups

  /** The range of lengths; a choice starts out with a single child. */
  function Lengths(types: MetaTypes, kind: Kind, es: seq<ElementMeta>, r: nat): Range {
    var least, most := Least(types, kind, es, Anything, r), Most(types, kind, es, Anything, r);
    if !kind.ChoiceKind? then Range(least, most)
    else if es == [] then Exactly(1)
    else Range(Min(1, least), Bounded(1).Max(most))
  }

  /** A choice has an alternative of at most one child. */
  predicate Short(types: MetaTypes, t: TypeIdent, r: nat) {
    HasKind(types, t, ChoiceKind) ==> Least(types, ChoiceKind, types[t].variant.group.elements, Anything, r) <= 1
  }

  /** All choices below the elements have one. */
  ghost predicate ShortBelow(types: MetaTypes, es: seq<ElementMeta>, r: nat)
    decreases r, 1
  {
    forall i {:trigger ShortElement(types, es[i], r)} | 0 <= i < |es| :: ShortElement(types, es[i], r)
  }

  ghost predicate ShortElement(types: MetaTypes, e: ElementMeta, r: nat)
    decreases r, 0
  {
    e.IsGroup() && r > 0 && IsGroupType(types, e.variant.type_) ==>
      Short(types, e.variant.type_, r - 1) && ShortBelow(types, types[e.variant.type_].variant.group.elements, r - 1)
  }

  lemma ShortSnoc(types: MetaTypes, es: seq<ElementMeta>, r: nat)
    requires es != [] && ShortBelow(types, es, r)
    ensures ShortBelow(types, es[..|es| - 1], r) && ShortElement(types, es[|es| - 1], r)
  {
    forall i | 0 <= i < |es|
      ensures ShortElement(types, es[i], r)
    {
    }
  }

  lemma LengthsStep(types: MetaTypes, kind: Kind, es: seq<ElementMeta>, r: nat)
    requires es != []
    ensures var e := es[|es| - 1];
            Lengths(types, kind, es, r) ==
              Update(Lengths(types, kind, es[..|es| - 1], r), kind, Range(LeastOf(types, e, Anything, r), MostOf(types, e, Anything, r)))
  {
    MostStep(types, kind, es, Anything, r);
  }

  /** The length of a nested group, repeated, is that of the particle. */
  lemma NestedLength(types: MetaTypes, e: ElementMeta, r: nat)
    requires e.IsGroup() && UsableElement(types, e, r) && ShortElement(types, e, r)
    ensures r > 0 && IsGroupType(types, e.variant.type_)
    ensures var v := types[e.variant.type_].variant;
            RepeatedLength(Lengths(types, KindOf(v), v.group.elements, r - 1), e)
              == Range(LeastOf(types, e, Anything, r), MostOf(types, e, Anything, r))
  {
    var v := types[e.variant.type_].variant;
    MostIsSome(types, KindOf(v), v.group.elements, r - 1);
    var least := Least(types, KindOf(v), v.group.elements, Anything, r - 1);
    assert e.minOccurs * least == least * e.minOccurs;
  }

  ghost predicate LengthRun(c: Config, kind: Kind, es: seq<ElementMeta>, depth: nat, r: nat) {
    && Runs(c, es, depth, r) && ChoiceElementsOk(c.types, kind, es, r)
    && AllUsable(c.types, es, r) && ShortBelow(c.types, es, r)
  }

  lemma LengthRunFront(c: Config, kind: Kind, es: seq<ElementMeta>, depth: nat, r: nat)
    requires es != [] && LengthRun(c, kind, es, depth, r)
    ensures LengthRun(c, kind, es[..|es| - 1], depth, r)
    ensures UsableElement(c.types, es[|es| - 1], r) && ShortElement(c.types, es[|es| - 1], r)
  {
    PrefixChoicesOk(c.types, kind, es, r);
    UsableSnoc(c.types, es, r);
    ShortSnoc(c.types, es, r);
  }

  lemma LengthRunInner(c: Config, kind: Kind, es: seq<ElementMeta>, depth: nat, r: nat) returns (g: MetaTypeVariant)
    requires es != [] && LengthRun(c, kind, es, depth, r) && es[|es| - 1].IsGroup()
    ensures r > 0 && IsGroupType(c.types, es[|es| - 1].variant.type_) && g == c.types[es[|es| - 1].variant.type_].variant
    ensures LengthRun(c, KindOf(g), g.group.elements, depth + 1, r - 1)
  {
    LengthRunFront(c, kind, es, depth, r);
    NestedRuns(c, es, |es| - 1, depth, r);
    NestedChoicesOk(c.types, kind, es, |es| - 1, r);
    g := c.types[es[|es| - 1].variant.type_].variant;
  }

  lemma {:induction false} ElementsLength(c: Config, kind: Kind, isMixed: bool, es: seq<ElementMeta>, depth: nat, r: nat)
    requires LengthRun(c, kind, es, depth, r) && ExecElements(c, kind, isMixed, es, depth).Ok?
    ensures LengthOf(ExecElements(c, kind, isMixed, es, depth).value) == Lengths(c.types, kind, es, r)
    decreases r, |es|
  {
    if es != [] {
      LengthRunFront(c, kind, es, depth, r);
      var s := BeforeLast(c, kind, isMixed, es, depth, r);
      ElementsLength(c, kind, isMixed, es[..|es| - 1], depth, r);
      LengthsStep(c.types, kind, es, r);
      if es[|es| - 1].IsGroup() {
        var g := LengthRunInner(c, kind, es, depth, r);
        if ExecElements(c, KindOf(g), g.group.isMixed, g.group.elements, depth + 1).Ok? {
          ElementsLength(c, KindOf(g), g.group.isMixed, g.group.elements, depth + 1, r - 1);
        }
        LastGroupLength(c, kind, es, s, depth, r);
      } else {
        LastLeafLength(c.types, kind, es, s, r);
      }
    }
  }

  lemma LastLeafLength(types: MetaTypes, kind: Kind, es: seq<ElementMeta>, s: Flat, r: nat)
    requires es != [] && !es[|es| - 1].IsGroup() && ChoiceElementsOk(types, kind, es, r)
    requires Shaped(types, s, kind, es[..|es| - 1], r) && LastApart(types, kind, es, r) && Added(s, true, es[|es| - 1]).Ok?
    ensures var e := es[|es| - 1];
            LengthOf(Added(s, true, e).value) ==
              Update(LengthOf(s), kind, Range(LeastOf(types, e, Anything, r), MostOf(types, e, Anything, r)))
  {
    var e := es[|es| - 1];
    assert e.ident in ElementLeaves(types, kind, e, r);
    AddedLength(s, e);
  }

  lemma LastGroupLength(c: Config, kind: Kind, es: seq<ElementMeta>, s: Flat, depth: nat, r: nat)
    requires es != [] && es[|es| - 1].IsGroup() && LengthRun(c, kind, es, depth, r)
    requires Shaped(c.types, s, kind, es[..|es| - 1], r) && LastApart(c.types, kind, es, r)
    requires Step(c, s, es[|es| - 1], depth).Ok?
    requires r > 0 && IsGroupType(c.types, es[|es| - 1].variant.type_)
    requires var g := c.types[es[|es| - 1].variant.type_].variant;
             var f := ExecElements(c, KindOf(g), g.group.isMixed, g.group.elements, depth + 1);
             f.Ok? ==> LengthOf(f.value) == Lengths(c.types, KindOf(g), g.group.elements, r - 1)
    ensures var e := es[|es| - 1];
            LengthOf(Step(c, s, e, depth).value) ==
              Update(LengthOf(s), kind, Range(LeastOf(c.types, e, Anything, r), MostOf(c.types, e, Anything, r)))
  {
    var e := es[|es| - 1];
    LengthRunFront(c, kind, es, depth, r);
    var g, inner := InnerState(c, s, es, depth, r);
    NestedLength(c.types, e, r);
    InnerPlain(c, g, inner, e, depth, r);
    if KeepsKind(s, e, inner) && kind.ChoiceKind? {
      PrefixNoRepeat(KindLeaves(c.types, kind, es[..|es| - 1], r), ElementLeaves(c.types, kind, e, r));
    }
    MergedLength(s, e, inner);
  }

  lemma InnerPlain(c: Config, g: MetaTypeVariant, inner: Flat, e: ElementMeta, depth: nat, r: nat)
    requires e.IsGroup() && UsableElement(c.types, e, r) && g == c.types[e.variant.type_].variant
    requires Runs(c, g.group.elements, depth + 1, r - 1)
    requires ExecElements(c, KindOf(g), g.group.isMixed, g.group.elements, depth + 1) == Ok(inner)
    ensures PlainOccur(inner, true)
  {
    ElementsPlain(c, KindOf(g), g.group.isMixed, g.group.elements, depth + 1, r - 1);
  }
}
