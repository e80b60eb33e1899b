/**
  Flattening gives no more room than it has to: when the kind of the groups is
  kept, and that the bounds it computes are attained by words of the groups
  before, both for the flattened elements and for the complex type.
 */
module FlattenTight {
  import opened Wrappers
  import opened Occurs
  import opened Meta
  import opened GroupGraph
  import opened ContentModel
  import opened Flatten
  import opened FlattenWords
  import opened FlattenTheorems
  import opened WordCounts

  // ---------- When the kind is kept

  /** All groups below are of one kind and, unless they are `all` groups, occur at most once. */
  ghost predicate SameKind(types: MetaTypes, kind: Kind, es: seq<ElementMeta>, r: nat)
    decreases r, 1
  {
    forall i {:trigger SameKindElement(types, kind, es[i], r)} | 0 <= i < |es| :: SameKindElement(types, kind, es[i], r)
  }

  ghost predicate SameKindElement(types: MetaTypes, kind: Kind, e: ElementMeta, r: nat)
    decreases r, 0
  {
    e.IsGroup() ==>
      && HasKind(types, e.variant.type_, kind) && (kind.AllKind? || e.maxOccurs.Le(Bounded(1)))
      && r > 0 && SameKind(types, kind, types[e.variant.type_].variant.group.elements, r - 1)
  }

  lemma SameKindSnoc(types: MetaTypes, kind: Kind, es: seq<ElementMeta>, r: nat)
    requires es != []
    ensures SameKind(types, kind, es, r) <==>
              SameKind(types, kind, es[..|es| - 1], r) && SameKindElement(types, kind, es[|es| - 1], r)
  {
    var front := es[..|es| - 1];
    if SameKind(types, kind, es, r) {
      forall i | 0 <= i < |front|
        ensures SameKindElement(types, kind, front[i], r)
      {
        assert SameKindElement(types, kind, es[i], r);
      }
      assert SameKindElement(types, kind, es[|es| - 1], r);
    }
    if SameKind(types, kind, front, r) && SameKindElement(types, kind, es[|es| - 1], r) {
      forall i | 0 <= i < |es|
        ensures SameKindElement(types, kind, es[i], r)
      {
        if i < |front| {
          assert SameKindElement(types, kind, front[i], r);
        }
      }
    }
  }

  /** The state before the last element. */
  lemma FrontState(c: Config, kind: Kind, isMixed: bool, es: seq<ElementMeta>, depth: nat, r: nat) returns (s: Flat)
    requires es != [] && Runs(c, es, depth, r) && ExecElements(c, kind, isMixed, es, depth).Ok?
    ensures Runs(c, es[..|es| - 1], depth, r) && ExecElements(c, kind, isMixed, es[..|es| - 1], depth) == Ok(s)
    ensures Shaped(c.types, s, kind, es[..|es| - 1], r)
    ensures Step(c, s, es[|es| - 1], depth) == ExecElements(c, kind, isMixed, es, depth)
  {
    s := ExecElements(c, kind, isMixed, es[..|es| - 1], depth).value;
    ElementsShape(c, kind, isMixed, es[..|es| - 1], depth, r);
  }

  /** The state of a group that is merged in last. */
  lemma InnerState(c: Config, s: Flat, es: seq<ElementMeta>, depth: nat, r: nat) returns (g: MetaTypeVariant, inner: Flat)
    requires es != [] && Runs(c, es, depth, r) && es[|es| - 1].IsGroup() && Step(c, s, es[|es| - 1], depth).Ok?
    ensures r > 0 && IsGroupType(c.types, es[|es| - 1].variant.type_) && g == c.types[es[|es| - 1].variant.type_].variant
    ensures Runs(c, g.group.elements, depth + 1, r - 1)
    ensures ExecElements(c, KindOf(g), g.group.isMixed, g.group.elements, depth + 1) == Ok(inner)
    ensures Shaped(c.types, inner, KindOf(g), g.group.elements, r - 1)
    ensures Step(c, s, es[|es| - 1], depth) == Merged(s, es[|es| - 1], inner)
  {
    var e := es[|es| - 1];
    NestedRuns(c, es, |es| - 1, depth, r);
    g := c.types[e.variant.type_].variant;
    inner := Exec(c, e.variant.type_, depth + 1).value;
    ElementsShape(c, KindOf(g), g.group.isMixed, g.group.elements, depth + 1, r - 1);
  }

  lemma {:induction false} ModeIff(c: Config, kind: Kind, isMixed: bool, es: seq<ElementMeta>, depth: nat, r: nat)
    requires Runs(c, es, depth, r) && ExecElements(c, kind, isMixed, es, depth).Ok?
    ensures ExecElements(c, kind, isMixed, es, depth).value.mode.Plain? <==> SameKind(c.types, kind, es, r)
    decreases r, |es|
  {
    if es == [] {
      assert SameKind(c.types, kind, es, r);
    } else {
      var e := es[|es| - 1];
      var s := FrontState(c, kind, isMixed, es, depth, r);
      ModeIff(c, kind, isMixed, es[..|es| - 1], depth, r);
      SameKindSnoc(c.types, kind, es, r);
      if e.IsGroup() {
        var g, inner := InnerState(c, s, es, depth, r);
        ModeIff(c, KindOf(g), g.group.isMixed, g.group.elements, depth + 1, r - 1);
        GroupMode(c.types, s, e, inner, kind, es[..|es| - 1], r);
      } else {
        AddedMode(s, true, e);
      }
    }
  }

  /** A group that is merged in keeps the mode exactly if it is of the same kind, too. */
  lemma GroupMode(types: MetaTypes, s: Flat, e: ElementMeta, inner: Flat, kind: Kind, front: seq<ElementMeta>, r: nat)
    requires e.IsGroup() && r > 0 && IsGroupType(types, e.variant.type_) && Merged(s, e, inner).Ok?
    requires var g := types[e.variant.type_].variant;
             && Shaped(types, s, kind, front, r) && Shaped(types, inner, KindOf(g), g.group.elements, r - 1)
             && (inner.mode.Plain? <==> SameKind(types, KindOf(g), g.group.elements, r - 1))
    ensures Merged(s, e, inner).value.mode.Plain? <==> s.mode.Plain? && SameKindElement(types, kind, e, r)
  {
    MergedShape(s, e, inner);
  }

  // ---------- Sums of bounds

  /** Nothing is left out: each leaf may occur. */
  ghost predicate AllOccur(es: seq<ElementMeta>) {
    forall i | 0 <= i < |es| :: es[i].maxOccurs != Bounded(0)
  }

  /** `b` is `a`, as often as `f` says. */
  predicate IsScaled(b: Range, a: Range, f: Range) {
    b.min == f.min * a.min && b.max == Repeated(a.max, f.max)
  }

  /** Scaling all bounds scales their sum. */
  lemma {:induction false} ScaledSum(es: seq<ElementMeta>, f: Range, pick: Pick)
    requires AllOccur(es) && f.max != Bounded(0)
    ensures IsScaled(CountRange(ScaleAll(es, f), pick), CountRange(es, pick), f)
    decreases |es|
  {
    if es == [] {
      assert f.min * 0 == 0;
    } else {
      var n := |es| - 1;
      ScaledSum(es[..n], f, pick);
      assert ScaleAll(es, f)[..n] == ScaleAll(es[..n], f) && ScaleAll(es, f)[n] == Scale(es[n], f);
      var a, b := CountRange(es[..n], pick), CountRange(ScaleAll(es[..n], f), pick);
      ScaledTally(a, b, es[n], f, pick);
    }
  }

  lemma ScaledTally(a: Range, b: Range, e: ElementMeta, f: Range, pick: Pick)
    requires e.maxOccurs != Bounded(0) && f.max != Bounded(0) && IsScaled(b, a, f)
    ensures IsScaled(Tally(b, Scale(e, f), pick), Tally(a, e, pick), f)
  {
    if Picks(e, pick) {
      SumTimes(f.min, a.min, e.minOccurs);
      RepeatedSum(a.max, e.maxOccurs, f.max);
    }
  }

  lemma SumTimes(f: nat, a: nat, b: nat)
    ensures f * (a + b) == f * a + b * f
  {
  }

  lemma RepeatedSum(a: MaxOccurs, b: MaxOccurs, f: MaxOccurs)
    requires b != Bounded(0) && f != Bounded(0)
    ensures Repeated(a, f).Add(b.Mul(f)) == Repeated(a.Add(b), f)
  {
    if a.Bounded? && b.Bounded? && f.Bounded? {
      SumTimes(f.limit, a.limit, b.limit);
      assert f.limit * a.limit == a.limit * f.limit;
      assert f.limit * (a.limit + b.limit) == (a.limit + b.limit) * f.limit;
    }
  }

  lemma AddedOccur(s: Flat, e: ElementMeta)
    requires s.mode.Plain? && AllOccur(s.elements) && e.maxOccurs != Bounded(0) && Added(s, true, e).Ok?
    ensures AllOccur(Added(s, true, e).value.elements)
  {
  }

  lemma {:induction false} AddAllOccur(s: Flat, es: seq<ElementMeta>)
    requires s.mode.Plain? && AllOccur(s.elements) && AllOccur(es) && AddAll(s, true, es).Ok?
    ensures AllOccur(AddAll(s, true, es).value.elements)
    decreases |es|
  {
    if es != [] {
      AddAllOccur(s, es[..|es| - 1]);
      AddAllMode(s, true, es[..|es| - 1]);
      AddedOccur(AddAll(s, true, es[..|es| - 1]).value, es[|es| - 1]);
    }
  }

  lemma ScaledOccur(es: seq<ElementMeta>, f: Range)
    requires AllOccur(es) && f.max != Bounded(0)
    ensures AllOccur(ScaleAll(es, f))
  {
    forall i | 0 <= i < |es|
      ensures ScaleAll(es, f)[i].maxOccurs != Bounded(0)
    {
      if es[i].maxOccurs.Bounded? && f.max.Bounded? {
        MulMono(es[i].maxOccurs.limit, 1, 1, f.max.limit);
      }
    }
  }

  // ---------- The bounds of `all` groups and sequences

  /** The flattened bounds of every identifier, and of all together, are those of the groups. */
  ghost predicate CountsTight(types: MetaTypes, s: Flat, kind: Kind, es: seq<ElementMeta>, r: nat) {
    && AllOccur(s.elements)
    && forall pick: Pick :: CountTight(types, s, kind, es, r, pick)
  }

  ghost predicate CountTight(types: MetaTypes, s: Flat, kind: Kind, es: seq<ElementMeta>, r: nat, pick: Pick) {
    CountRange(s.elements, pick) == Range(Least(types, kind, es, pick, r), Most(types, kind, es, pick, r))
  }

  lemma {:induction false} ElementsCountsTight(c: Config, kind: Kind, isMixed: bool, es: seq<ElementMeta>, depth: nat, r: nat)
    requires Runs(c, es, depth, r) && ExecElements(c, kind, isMixed, es, depth).Ok?
    requires !kind.ChoiceKind? && SameKind(c.types, kind, es, r) && AllUsable(c.types, es, r)
    ensures CountsTight(c.types, ExecElements(c, kind, isMixed, es, depth).value, kind, es, r)
    decreases r, |es|
  {
    if es != [] {
      var e := es[|es| - 1];
      var s := FrontState(c, kind, isMixed, es, depth, r);
      SameKindSnoc(c.types, kind, es, r);
      UsableSnoc(c.types, es, r);
      ModeIff(c, kind, isMixed, es[..|es| - 1], depth, r);
      ElementsCountsTight(c, kind, isMixed, es[..|es| - 1], depth, r);
      if e.IsGroup() {
        var g, inner := InnerState(c, s, es, depth, r);
        ModeIff(c, kind, g.group.isMixed, g.group.elements, depth + 1, r - 1);
        ElementsCountsTight(c, kind, g.group.isMixed, g.group.elements, depth + 1, r - 1);
        MergedTight(c.types, s, inner, kind, es, r);
      } else {
        LeafTight(c.types, s, kind, es, r);
      }
    }
  }

  lemma LeafTight(types: MetaTypes, s: Flat, kind: Kind, es: seq<ElementMeta>, r: nat)
    requires es != [] && !es[|es| - 1].IsGroup() && UsableElement(types, es[|es| - 1], r) && !kind.ChoiceKind?
    requires s.mode.Plain? && Added(s, true, es[|es| - 1]).Ok? && CountsTight(types, s, kind, es[..|es| - 1], r)
    ensures CountsTight(types, Added(s, true, es[|es| - 1]).value, kind, es, r)
  {
    var e := es[|es| - 1];
    AddedOccur(s, e);
    forall pick: Pick
      ensures CountTight(types, Added(s, true, e).value, kind, es, r, pick)
    {
      assert CountTight(types, s, kind, es[..|es| - 1], r, pick);
      AddedCounts(s, e, pick);
    }
  }

  lemma MergedTight(types: MetaTypes, s: Flat, inner: Flat, kind: Kind, es: seq<ElementMeta>, r: nat)
    requires es != [] && es[|es| - 1].IsGroup() && UsableElement(types, es[|es| - 1], r) && !kind.ChoiceKind?
    requires SameKindElement(types, kind, es[|es| - 1], r) && Merged(s, es[|es| - 1], inner).Ok?
    requires s.mode == Plain(kind) && CountsTight(types, s, kind, es[..|es| - 1], r)
    requires inner.mode == Plain(kind)
             && CountsTight(types, inner, kind, types[es[|es| - 1].variant.type_].variant.group.elements, r - 1)
    ensures CountsTight(types, Merged(s, es[|es| - 1], inner).value, kind, es, r)
  {
    var e := es[|es| - 1];
    var start := s.(touched := true, isMixed := s.isMixed || inner.isMixed);
    var scaled := ScaleAll(inner.elements, e.Bounds());
    ScaledOccur(inner.elements, e.Bounds());
    AddAllOccur(start, scaled);
    forall pick: Pick
      ensures CountTight(types, Merged(s, e, inner).value, kind, es, r, pick)
    {
      assert CountTight(types, s, kind, es[..|es| - 1], r, pick);
      assert CountTight(types, inner, kind, types[e.variant.type_].variant.group.elements, r - 1, pick);
      AddAllCounts(start, scaled, pick);
      AppendHas(s.elements, scaled, pick);
      ScaledSum(inner.elements, e.Bounds(), pick);
    }
  }

  // ---------- The bounds of choices

  /** The choice accepts `x` exactly `n` times. */
  ghost predicate AcceptsPower(types: MetaTypes, es: seq<ElementMeta>, x: PropertyIdent, n: nat, d: nat) {
    ChoiceOf(types, es, Power(x, n), d)
  }

  /** Some number of times, at least `n`. */
  ghost predicate AcceptsMore(types: MetaTypes, es: seq<ElementMeta>, x: PropertyIdent, n: nat, d: nat) {
    exists m: nat :: m >= n && AcceptsPower(types, es, x, m, d)
  }

  /** Both bounds of an alternative are attained. */
  ghost predicate AlternativeTight(types: MetaTypes, es: seq<ElementMeta>, f: ElementMeta, d: nat) {
    && AcceptsPower(types, es, f.ident, f.minOccurs, d)
    && (f.maxOccurs.Bounded? ==> AcceptsPower(types, es, f.ident, f.maxOccurs.limit, d))
    && (f.maxOccurs.Unbounded? ==> forall n: nat :: AcceptsMore(types, es, f.ident, n, d))
  }

  ghost predicate AlternativesTight(types: MetaTypes, s: Flat, es: seq<ElementMeta>, d: nat) {
    forall i {:trigger AlternativeTight(types, es, s.elements[i], d)} | 0 <= i < |s.elements| ::
      AlternativeTight(types, es, s.elements[i], d)
  }

  lemma MorePower(types: MetaTypes, es: seq<ElementMeta>, x: PropertyIdent, n: nat, d: nat)
    requires es != [] && AcceptsPower(types, es[..|es| - 1], x, n, d)
    ensures AcceptsPower(types, es, x, n, d)
  {
    AnAlternative(types, es, Power(x, n), d);
  }

  lemma PrefixAlternative(types: MetaTypes, es: seq<ElementMeta>, f: ElementMeta, d: nat)
    requires es != [] && AlternativeTight(types, es[..|es| - 1], f, d)
    ensures AlternativeTight(types, es, f, d)
  {
    var before := es[..|es| - 1];
    MorePower(types, es, f.ident, f.minOccurs, d);
    if f.maxOccurs.Bounded? {
      MorePower(types, es, f.ident, f.maxOccurs.limit, d);
    } else {
      forall n: nat
        ensures AcceptsMore(types, es, f.ident, n, d)
      {
        assert AcceptsMore(types, before, f.ident, n, d);
        var m: nat :| m >= n && AcceptsPower(types, before, f.ident, m, d);
        MorePower(types, es, f.ident, m, d);
      }
    }
  }

  /** The last alternative is a leaf. */
  lemma LeafAlternative(types: MetaTypes, es: seq<ElementMeta>, d: nat)
    requires es != [] && !es[|es| - 1].IsGroup() && es[|es| - 1].maxOccurs.Allows(es[|es| - 1].minOccurs)
    ensures AlternativeTight(types, es, es[|es| - 1], d)
  {
    var e := es[|es| - 1];
    forall n: nat | e.Bounds().Has(n)
      ensures AcceptsPower(types, es, e.ident, n, d)
    {
      LeafParticle(types, e, Power(e.ident, n), d);
      AnAlternative(types, es, Power(e.ident, n), d);
    }
    if e.maxOccurs.Unbounded? {
      forall n: nat
        ensures AcceptsMore(types, es, e.ident, n, d)
      {
        assert AcceptsPower(types, es, e.ident, e.minOccurs + n, d);
      }
    }
  }

  /** A nested choice, once or not at all. */
  lemma NestedPower(types: MetaTypes, es: seq<ElementMeta>, x: PropertyIdent, n: nat, d: nat)
    requires es != [] && es[|es| - 1].IsGroup() && d > 0 && HasKind(types, es[|es| - 1].variant.type_, ChoiceKind)
    requires AcceptsPower(types, types[es[|es| - 1].variant.type_].variant.group.elements, x, n, d - 1)
    requires es[|es| - 1].Bounds().Has(1)
    ensures AcceptsPower(types, es, x, n, d)
  {
    var e := es[|es| - 1];
    assert VariantAccepts(types, types[e.variant.type_].variant, Power(x, n), d - 1);
    SingleOccurrence(types, e, Power(x, n), d);
    AnAlternative(types, es, Power(x, n), d);
  }

  lemma NestedAlternative(types: MetaTypes, es: seq<ElementMeta>, f: ElementMeta, d: nat)
    requires es != [] && es[|es| - 1].IsGroup() && d > 0 && HasKind(types, es[|es| - 1].variant.type_, ChoiceKind)
    requires es[|es| - 1].maxOccurs == Bounded(1) && es[|es| - 1].minOccurs <= 1
    requires AlternativeTight(types, types[es[|es| - 1].variant.type_].variant.group.elements, f, d - 1)
    ensures AlternativeTight(types, es, Scale(f, es[|es| - 1].Bounds()), d)
  {
    var e := es[|es| - 1];
    var inner := types[e.variant.type_].variant.group.elements;
    if e.minOccurs == 0 {
      var w := RepeatedParticle(types, e, [], 0, d);
      assert w == Power(f.ident, 0) by {
        assert Count(w, Anything) == 0;
      }
      assert f.minOccurs * 0 == 0;
      AnAlternative(types, es, w, d);
    } else {
      NestedPower(types, es, f.ident, f.minOccurs, d);
    }
    if f.maxOccurs.Bounded? {
      NestedPower(types, es, f.ident, f.maxOccurs.limit, d);
    } else {
      forall n: nat
        ensures AcceptsMore(types, es, f.ident, n, d)
      {
        assert AcceptsMore(types, inner, f.ident, n, d - 1);
        var m: nat :| m >= n && AcceptsPower(types, inner, f.ident, m, d - 1);
        NestedPower(types, es, f.ident, m, d);
      }
    }
  }

  /** Nested choices that repeat no identifier and occur at most once. */
  ghost predicate ChoiceRun(c: Config, es: seq<ElementMeta>, depth: nat, r: nat) {
    && Runs(c, es, depth, r) && ChoiceElementsOk(c.types, ChoiceKind, es, r)
    && SameKind(c.types, ChoiceKind, es, r) && AllUsable(c.types, es, r)
  }

  lemma ChoiceRunFront(c: Config, es: seq<ElementMeta>, depth: nat, r: nat)
    requires es != [] && ChoiceRun(c, es, depth, r)
    ensures ChoiceRun(c, es[..|es| - 1], depth, r)
    ensures SameKindElement(c.types, ChoiceKind, es[|es| - 1], r) && UsableElement(c.types, es[|es| - 1], r)
  {
    PrefixChoicesOk(c.types, ChoiceKind, es, r);
    SameKindSnoc(c.types, ChoiceKind, es, r);
    UsableSnoc(c.types, es, r);
  }

  lemma ChoiceRunInner(c: Config, es: seq<ElementMeta>, depth: nat, r: nat)
    requires es != [] && ChoiceRun(c, es, depth, r) && es[|es| - 1].IsGroup()
    ensures r > 0 && HasKind(c.types, es[|es| - 1].variant.type_, ChoiceKind)
    ensures ChoiceRun(c, c.types[es[|es| - 1].variant.type_].variant.group.elements, depth + 1, r - 1)
  {
    ChoiceRunFront(c, es, depth, r);
    NestedRuns(c, es, |es| - 1, depth, r);
    NestedChoicesOk(c.types, ChoiceKind, es, |es| - 1, r);
  }

  lemma ChoiceRunPlain(c: Config, isMixed: bool, es: seq<ElementMeta>, depth: nat, r: nat)
    requires ChoiceRun(c, es, depth, r) && ExecElements(c, ChoiceKind, isMixed, es, depth).Ok?
    ensures ExecElements(c, ChoiceKind, isMixed, es, depth).value.mode == Plain(ChoiceKind)
    ensures Shaped(c.types, ExecElements(c, ChoiceKind, isMixed, es, depth).value, ChoiceKind, es, r)
  {
    ModeIff(c, ChoiceKind, isMixed, es, depth, r);
    ElementsShape(c, ChoiceKind, isMixed, es, depth, r);
  }

  lemma {:induction false} ElementsAlternativesTight(
    c: Config, isMixed: bool, es: seq<ElementMeta>, depth: nat, r: nat, d: nat)
    requires ChoiceRun(c, es, depth, r) && ExecElements(c, ChoiceKind, isMixed, es, depth).Ok? && r <= d
    ensures AlternativesTight(c.types, ExecElements(c, ChoiceKind, isMixed, es, depth).value, es, d)
    decreases r, |es|
  {
    if es != [] {
      var e := es[|es| - 1];
      ChoiceRunFront(c, es, depth, r);
      assert ExecElements(c, ChoiceKind, isMixed, es[..|es| - 1], depth).Ok?;
      ElementsAlternativesTight(c, isMixed, es[..|es| - 1], depth, r, d);
      if e.IsGroup() {
        ChoiceRunInner(c, es, depth, r);
        var g := c.types[e.variant.type_].variant.group;
        if ExecElements(c, ChoiceKind, g.isMixed, g.elements, depth + 1).Ok? {
          ElementsAlternativesTight(c, g.isMixed, g.elements, depth + 1, r - 1, d - 1);
        }
        LastGroupAlternatives(c, isMixed, es, depth, r, d);
      } else {
        LastLeafAlternatives(c, isMixed, es, depth, r, d);
      }
    }
  }

  lemma LastLeafAlternatives(c: Config, isMixed: bool, es: seq<ElementMeta>, depth: nat, r: nat, d: nat)
    requires ChoiceRun(c, es, depth, r) && ExecElements(c, ChoiceKind, isMixed, es, depth).Ok?
    requires es != [] && !es[|es| - 1].IsGroup()
    requires var f := ExecElements(c, ChoiceKind, isMixed, es[..|es| - 1], depth);
             f.Ok? ==> AlternativesTight(c.types, f.value, es[..|es| - 1], d)
    ensures AlternativesTight(c.types, ExecElements(c, ChoiceKind, isMixed, es, depth).value, es, d)
  {
    var s := BeforeLast(c, ChoiceKind, isMixed, es, depth, r);
    ChoiceRunFront(c, es, depth, r);
    ChoiceRunPlain(c, isMixed, es[..|es| - 1], depth, r);
    AddedAlternative(c.types, s, es, r, d);
  }

  lemma LastGroupAlternatives(c: Config, isMixed: bool, es: seq<ElementMeta>, depth: nat, r: nat, d: nat)
    requires ChoiceRun(c, es, depth, r) && ExecElements(c, ChoiceKind, isMixed, es, depth).Ok? && r <= d
    requires es != [] && es[|es| - 1].IsGroup() && HasKind(c.types, es[|es| - 1].variant.type_, ChoiceKind) && r > 0
    requires var f := ExecElements(c, ChoiceKind, isMixed, es[..|es| - 1], depth);
             f.Ok? ==> AlternativesTight(c.types, f.value, es[..|es| - 1], d)
    requires var g := c.types[es[|es| - 1].variant.type_].variant.group;
             var f := ExecElements(c, ChoiceKind, g.isMixed, g.elements, depth + 1);
             f.Ok? ==> AlternativesTight(c.types, f.value, g.elements, d - 1)
    ensures AlternativesTight(c.types, ExecElements(c, ChoiceKind, isMixed, es, depth).value, es, d)
  {
    var s := BeforeLast(c, ChoiceKind, isMixed, es, depth, r);
    ChoiceRunFront(c, es, depth, r);
    ChoiceRunPlain(c, isMixed, es[..|es| - 1], depth, r);
    var g, inner := InnerState(c, s, es, depth, r);
    ChoiceRunInner(c, es, depth, r);
    ChoiceRunPlain(c, g.group.isMixed, g.group.elements, depth + 1, r - 1);
    MergedAlternatives(c.types, s, inner, es, r, d);
  }

  lemma AddedAlternative(types: MetaTypes, s: Flat, es: seq<ElementMeta>, r: nat, d: nat)
    requires es != [] && !es[|es| - 1].IsGroup() && UsableElement(types, es[|es| - 1], r)
    requires s.mode.Plain? && Shaped(types, s, ChoiceKind, es[..|es| - 1], r) && LastApart(types, ChoiceKind, es, r)
    requires NoRepeat(KindLeaves(types, ChoiceKind, es, r)) && AlternativesTight(types, s, es[..|es| - 1], d)
    requires Added(s, true, es[|es| - 1]).Ok?
    ensures AlternativesTight(types, Added(s, true, es[|es| - 1]).value, es, d)
  {
    var e := es[|es| - 1];
    AddedShape(s, true, e);
    assert e.ident in ElementLeaves(types, ChoiceKind, e, r);
    LeafAlternative(types, es, d);
    var s' := Added(s, true, e).value;
    forall i | 0 <= i < |s'.elements|
      ensures AlternativeTight(types, es, s'.elements[i], d)
    {
      if i < |s.elements| {
        assert AlternativeTight(types, es[..|es| - 1], s.elements[i], d);
        PrefixAlternative(types, es, s.elements[i], d);
      }
    }
  }

  lemma MergedAlternatives(types: MetaTypes, s: Flat, inner: Flat, es: seq<ElementMeta>, r: nat, d: nat)
    requires es != [] && es[|es| - 1].IsGroup() && UsableElement(types, es[|es| - 1], r) && d > 0
    requires SameKindElement(types, ChoiceKind, es[|es| - 1], r) && Merged(s, es[|es| - 1], inner).Ok?
    requires s.mode == Plain(ChoiceKind) && Shaped(types, s, ChoiceKind, es[..|es| - 1], r)
    requires LastApart(types, ChoiceKind, es, r) && NoRepeat(KindLeaves(types, ChoiceKind, es, r))
    requires inner.mode == Plain(ChoiceKind)
    requires Shaped(types, inner, ChoiceKind, types[es[|es| - 1].variant.type_].variant.group.elements, r - 1)
    requires AlternativesTight(types, s, es[..|es| - 1], d)
    requires AlternativesTight(types, inner, types[es[|es| - 1].variant.type_].variant.group.elements, d - 1)
    ensures AlternativesTight(types, Merged(s, es[|es| - 1], inner).value, es, d)
  {
    var e := es[|es| - 1];
    PrefixNoRepeat(KindLeaves(types, ChoiceKind, es[..|es| - 1], r), ElementLeaves(types, ChoiceKind, e, r));
    MergedShape(s, e, inner);
    var s' := Merged(s, e, inner).value;
    forall i | 0 <= i < |s'.elements|
      ensures AlternativeTight(types, es, s'.elements[i], d)
    {
      if i < |s.elements| {
        assert AlternativeTight(types, es[..|es| - 1], s.elements[i], d);
        PrefixAlternative(types, es, s.elements[i], d);
      } else {
        var f := inner.elements[i - |s.elements|];
        assert AlternativeTight(types, types[e.variant.type_].variant.group.elements, f, d - 1);
        NestedAlternative(types, es, f, d);
      }
    }
  }
}
