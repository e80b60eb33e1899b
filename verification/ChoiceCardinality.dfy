/**
  Merging the cardinality of a choice into its complex type
  (`merge_choice_cardinality.rs`): the bounds of the alternatives move to the
  complex type, each alternative is left with a single occurrence. No word of
  children is lost exactly when one of the two repetitions was none.
 */
module ChoiceCardinality {
  import opened Wrappers
  import opened Occurs
  import opened Meta
  import Relations
  import TypeGraph
  import opened ContentModel
  import opened Flatten
  import opened FlattenWords
  import opened FlattenTheorems
  import opened GroupGraph
  import opened GroupFrames

  /** The merged bounds. */
  function MergedBounds(es: seq<ElementMeta>, ci: ComplexMeta): Range {
    var o := LengthRange(ChoiceKind, es);
    Range(Min(o.min, ci.minOccurs), o.max.Max(ci.maxOccurs))
  }

  function MergeCardinality(types: MetaTypes, ident: TypeIdent): Result<MetaTypes, Error> {
    if ident !in types then Err(UnknownType(ident))
    else if !types[ident].variant.ComplexType? then Err(ExpectedComplexType(ident))
    else if types[ident].variant.complex.content.None? then Err(MissingContentType(ident))
    else
      var ci := types[ident].variant.complex;
      var t := ci.content.value;
      if !(t in types && types[t].variant.Choice?) then Err(ExpectedComplexChoice(ident))
      else
        var g := types[t].variant.group;
        var o := MergedBounds(g.elements, ci);
        Ok(types[t := types[t].(variant := Choice(g.(elements := ResetAll(g.elements))))]
                [ident := types[ident].(variant := ComplexType(ci.(minOccurs := o.min, maxOccurs := o.max)))])
  }

  /** `merge_choice_cardinalities`: stops at the first error. */
  function MergeAll(types: MetaTypes, idents: seq<TypeIdent>): Result<MetaTypes, Error> {
    if idents == [] then Ok(types)
    else
      var before :- MergeAll(types, idents[..|idents| - 1]);
      MergeCardinality(before, idents[|idents| - 1])
  }

  /** The loop of the source: running bounds, elements reset one by one. */
  method ResetAlternatives(elements: seq<ElementMeta>) returns (min: nat, max: MaxOccurs, es: seq<ElementMeta>)
    ensures Range(min, max) == LengthRange(ChoiceKind, elements) && es == ResetAll(elements)
  {
    min, max, es := 1, Bounded(1), elements;
    for i := 0 to |es|
      invariant |es| == |elements|
      invariant Range(min, max) == LengthRange(ChoiceKind, elements[..i])
      invariant forall k | 0 <= k < i :: es[k] == Reset(elements[k])
      invariant forall k | i <= k < |es| :: es[k] == elements[k]
    {
      assert elements[..i + 1][..i] == elements[..i];
      min, max := Min(min, es[i].minOccurs), max.Max(es[i].maxOccurs);
      es := es[i := Reset(es[i])];
    }
    assert elements[..|es|] == elements;
  }

  class Optimizer {
    var types: MetaTypes

    constructor (types: MetaTypes)
      ensures this.types == types
    {
      this.types := types;
    }

    /** `merge_choice_cardinality`: one loop computes the bounds and resets the elements. */
    method MergeChoiceCardinality(ident: TypeIdent) returns (r: Result<(), Error>)
      modifies this
      ensures r.Ok? ==> MergeCardinality(old(types), ident) == Ok(types)
      ensures r.Err? ==> MergeCardinality(old(types), ident) == Err(r.error) && types == old(types)
    {
      if ident !in types {
        return Err(UnknownType(ident));
      }
      if !types[ident].variant.ComplexType? {
        return Err(ExpectedComplexType(ident));
      }
      var ci := types[ident].variant.complex;
      if ci.content.None? {
        return Err(MissingContentType(ident));
      }
      var t := ci.content.value;
      if t !in types || !types[t].variant.Choice? {
        return Err(ExpectedComplexChoice(ident));
      }
      var g := types[t].variant.group;
      var min, max, es := ResetAlternatives(g.elements);
      types := types[t := types[t].(variant := Choice(g.(elements := es)))];
      ci := ci.(minOccurs := Min(min, ci.minOccurs), maxOccurs := max.Max(ci.maxOccurs));
      types := types[ident := types[ident].(variant := ComplexType(ci))];
      return Ok(());
    }

    /**
      `merge_choice_cardinalities`: every complex type with a choice as content
      once. The source unwraps each result, so an error here is a panic there.
     */
    method MergeChoiceCardinalities() returns (r: Result<(), Error>, ghost idents: seq<TypeIdent>)
      modifies this
      ensures forall i, j | 0 <= i < j < |idents| :: idents[i] != idents[j]
      ensures forall x | x in idents :: TypeGraph.HasComplexChoiceContent(old(types), x)
      ensures r.Ok? ==> MergeAll(old(types), idents) == Ok(types)
      ensures r.Ok? ==> forall x | TypeGraph.HasComplexChoiceContent(old(types), x) :: x in idents
      ensures r.Err? ==> MergeAll(old(types), idents) == Err(r.error)
    {
      var todo := set i | i in types && TypeGraph.HasComplexChoiceContent(types, i);
      idents := [];
      while todo != {}
        invariant forall x :: TypeGraph.HasComplexChoiceContent(old(types), x) <==> x in todo || x in idents
        invariant forall x | x in todo :: x !in idents
        invariant forall i, j | 0 <= i < j < |idents| :: idents[i] != idents[j]
        invariant MergeAll(old(types), idents) == Ok(types)
        decreases todo
      {
        var ident :| ident in todo;
        assert (idents + [ident])[..|idents|] == idents;
        todo, idents := todo - {ident}, idents + [ident];
        r := MergeChoiceCardinality(ident);
        if r.Err? {
          return;
        }
      }
      return Ok(()), idents;
    }
  }

  // ---------- When no word is lost

  /** Readable before the call: one of the repetitions is at most single, or one is unbounded. */
  predicate OneRepetition(es: seq<ElementMeta>, ci: ComplexMeta) {
    var max := LengthRange(ChoiceKind, es).max;
    max.Le(Bounded(1)) || ci.maxOccurs.Le(Bounded(1)) || max.Unbounded? || ci.maxOccurs.Unbounded?
  }

  /** The type is complex and its content is a choice that is not nested in itself. */
  ghost predicate ChoiceContent(types: MetaTypes, ident: TypeIdent) {
    && HasContent(types, ident)
    && ContentOf(types, ident) in types && types[ContentOf(types, ident)].variant.Choice?
    && ContentOf(types, ident) !in Below(types, ContentOf(types, ident), 1)
  }

  lemma {:induction false} TimesAppend(types: MetaTypes, e: ElementMeta, m: nat, n: nat, u: Word, v: Word, d: nat)
    requires Times(types, e, m, u, d) && Times(types, e, n, v, d)
    ensures Times(types, e, m + n, u + v, d)
    decreases n
  {
    if n == 0 {
      assert u + v == u;
    } else {
      var i :| 0 <= i <= |v| && Times(types, e, n - 1, v[..i], d) && Once(types, e, v[i..], d);
      TimesAppend(types, e, m, n - 1, u, v[..i], d);
      var w := u + v;
      assert w[..|u| + i] == u + v[..i] && w[|u| + i..] == v[i..];
    }
  }

  /** `n` is a sum of `k` counts between the merged minimum and maximum of the alternatives. */
  ghost predicate Spread(es: seq<ElementMeta>, k: nat, n: nat) {
    var o := LengthRange(ChoiceKind, es);
    (o.min >= 1 ==> k <= n) && (o.max.Bounded? ==> n <= k * o.max.limit)
  }

  lemma SpreadStep(es: seq<ElementMeta>, k: nat, m: nat, c: nat)
    requires k > 0 && Spread(es, k - 1, m) && LengthRange(ChoiceKind, es).Has(c)
    ensures Spread(es, k, m + c)
  {
    var o := LengthRange(ChoiceKind, es);
    if o.max.Bounded? {
      assert k * o.max.limit == (k - 1) * o.max.limit + o.max.limit;
    }
  }

  /** `k` repetitions of the choice are some number of single alternatives. */
  lemma {:induction false} Regroup(types: MetaTypes, ident: TypeIdent, k: nat, w: Word, d: nat) returns (n: nat)
    requires ChoiceContent(types, ident)
    requires Times(types, ContentParticle(types[ident].variant.complex), k, w, d)
    ensures var types' := MergeCardinality(types, ident).value;
            Times(types', ContentParticle(types'[ident].variant.complex), n, w, d)
    ensures Spread(types[ContentOf(types, ident)].variant.group.elements, k, n)
    decreases k
  {
    var e := ContentParticle(types[ident].variant.complex);
    if k == 0 {
      n := 0;
    } else {
      var i :| 0 <= i <= |w| && Times(types, e, k - 1, w[..i], d) && Once(types, e, w[i..], d);
      var m := Regroup(types, ident, k - 1, w[..i], d);
      var c := RegroupOne(types, ident, w[i..], d);
      var types' := MergeCardinality(types, ident).value;
      TimesAppend(types', ContentParticle(types'[ident].variant.complex), m, c, w[..i], w[i..], d);
      assert w[..i] + w[i..] == w;
      n := m + c;
      SpreadStep(types[ContentOf(types, ident)].variant.group.elements, k, m, c);
    }
  }

  lemma ChosenAlternative(types: MetaTypes, e: ElementMeta, u: Word, d: nat) returns (j: nat)
    requires e.IsGroup() && e.variant.type_ in types && types[e.variant.type_].variant.Choice?
    requires Once(types, e, u, d)
    ensures var es := types[e.variant.type_].variant.group.elements;
            d > 0 && j < |es| && Particle(types, es[j], u, d - 1)
  {
    var v := types[e.variant.type_].variant;
    assert GroupAccepts(types, e.variant.type_, u, d - 1);
    assert VariantAccepts(types, v, u, d - 1);
    assert ChoiceOf(types, v.group.elements, u, d - 1);
    j :| 0 <= j < |v.group.elements| && Particle(types, v.group.elements[j], u, d - 1);
  }

  lemma RegroupOne(types: MetaTypes, ident: TypeIdent, u: Word, d: nat) returns (c: nat)
    requires ChoiceContent(types, ident)
    requires Once(types, ContentParticle(types[ident].variant.complex), u, d)
    ensures var types' := MergeCardinality(types, ident).value;
            Times(types', ContentParticle(types'[ident].variant.complex), c, u, d)
    ensures LengthRange(ChoiceKind, types[ContentOf(types, ident)].variant.group.elements).Has(c)
  {
    var t := ContentOf(types, ident);
    var es := types[t].variant.group.elements;
    var types' := MergeCardinality(types, ident).value;
    var e' := ContentParticle(types'[ident].variant.complex);
    var j := ChosenAlternative(types, ContentParticle(types[ident].variant.complex), u, d);
    c :| es[j].Bounds().Has(c) && Times(types, es[j], c, u, d - 1);
    AlternativeInRange(es, j, c);
    forall x | Once(types, es[j], x, d - 1)
      ensures Once(types', e', x, d)
    {
      SingleAlternativeAfter(types, ident, j, x, d - 1);
    }
    TimesTransfer(types, es[j], types', e', c, u, d - 1, d);
  }

  /** The groups below the choice stay as they are. */
  lemma MergeFrame(types: MetaTypes, ident: TypeIdent)
    requires ChoiceContent(types, ident)
    ensures SameOn(types, MergeCardinality(types, ident).value, Below(types, ContentOf(types, ident), 1))
  {
    var t := ContentOf(types, ident);
    var types' := MergeCardinality(types, ident).value;
    BelowClosed(types, t, 1);
    forall x | x in Below(types, t, 1)
      ensures SameGroup(types, types', x)
    {
      assert x != t;
    }
  }

  lemma NestedInChoice(types: MetaTypes, ident: TypeIdent, j: nat)
    requires ChoiceContent(types, ident) && j < |types[ContentOf(types, ident)].variant.group.elements|
    requires types[ContentOf(types, ident)].variant.group.elements[j].IsGroup()
    ensures types[ContentOf(types, ident)].variant.group.elements[j].variant.type_ in Below(types, ContentOf(types, ident), 1)
  {
    NestedEdge(types, ContentOf(types, ident), j);
    Relations.EdgeReaches(NestGraph(types), ContentOf(types, ident), types[ContentOf(types, ident)].variant.group.elements[j].variant.type_);
  }

  /** One occurrence of an alternative is one occurrence of the merged choice. */
  lemma SingleAlternativeAfter(types: MetaTypes, ident: TypeIdent, j: nat, x: Word, d: nat)
    requires ChoiceContent(types, ident) && j < |types[ContentOf(types, ident)].variant.group.elements|
    requires Once(types, types[ContentOf(types, ident)].variant.group.elements[j], x, d)
    ensures GroupAccepts(MergeCardinality(types, ident).value, ContentOf(types, ident), x, d)
  {
    var t := ContentOf(types, ident);
    var types' := MergeCardinality(types, ident).value;
    var e := types[t].variant.group.elements[j];
    if e.IsGroup() {
      MergeFrame(types, ident);
      NestedInChoice(types, ident, j);
      FrameGroup(types, types', Below(types, t, 1), e.variant.type_, x, d - 1);
    }
    var g := types'[t].variant;
    assert g.group.elements[j] == Reset(e);
    assert Once(types', Reset(e), x, d);
    SingleOccurrence(types', Reset(e), x, d);
    assert VariantAccepts(types', g, x, d);
  }

  lemma SpreadInBounds(es: seq<ElementMeta>, ci: ComplexMeta, k: nat, n: nat)
    requires OneRepetition(es, ci) && ci.Bounds().Has(k) && Spread(es, k, n)
    ensures MergedBounds(es, ci).Has(n)
  {
    var o := LengthRange(ChoiceKind, es);
    if o.max.Bounded? && ci.maxOccurs.Bounded? {
      if o.max.limit <= 1 {
        MulMono(k, o.max.limit, k, 1);
      } else {
        MulMono(1, o.max.limit, k, o.max.limit);
      }
    }
  }

  /** With one repetition only, nothing is lost, whatever the alternatives are. */
  lemma MergeLosesNoWord(types: MetaTypes, ident: TypeIdent, w: Word)
    requires ChoiceContent(types, ident)
    requires OneRepetition(types[ContentOf(types, ident)].variant.group.elements, types[ident].variant.complex)
    requires ComplexAccepts(types, ident, w)
    ensures ComplexAccepts(MergeCardinality(types, ident).value, ident, w)
  {
    var e := ContentParticle(types[ident].variant.complex);
    var d: nat :| Particle(types, e, w, d);
    var k: nat :| e.Bounds().Has(k) && Times(types, e, k, w, d);
    var n := Regroup(types, ident, k, w, d);
    SpreadInBounds(types[ContentOf(types, ident)].variant.group.elements, types[ident].variant.complex, k, n);
    var types' := MergeCardinality(types, ident).value;
    assert Particle(types', ContentParticle(types'[ident].variant.complex), w, d);
  }

  // ---------- The merged bounds and alternatives

  /** The bound is the least one of the minima of the type and of the alternatives, or one. */
  ghost predicate LeastOfAll(min: nat, own: nat, es: seq<ElementMeta>) {
    && min <= 1 && min <= own && (forall i | 0 <= i < |es| :: min <= es[i].minOccurs)
    && (min == 1 || min == own || exists i | 0 <= i < |es| :: min == es[i].minOccurs)
  }

  /** No maximum of the type and of the alternatives is above the bound, which is one of them, or one. */
  ghost predicate GreatestOfAll(max: MaxOccurs, own: MaxOccurs, es: seq<ElementMeta>) {
    && Bounded(1).Le(max) && own.Le(max) && (forall i | 0 <= i < |es| :: es[i].maxOccurs.Le(max))
    && (max == Bounded(1) || max == own || exists i | 0 <= i < |es| :: max == es[i].maxOccurs)
  }

  lemma {:induction false} AlternativesRange(es: seq<ElementMeta>)
    ensures LeastOfAll(LengthRange(ChoiceKind, es).min, 1, es)
    ensures GreatestOfAll(LengthRange(ChoiceKind, es).max, Bounded(1), es)
    decreases |es|
  {
    if es != [] {
      var n := |es| - 1;
      AlternativesRange(es[..n]);
      var o, o' := LengthRange(ChoiceKind, es[..n]), LengthRange(ChoiceKind, es);
      forall i | 0 <= i < |es|
        ensures o'.min <= es[i].minOccurs && es[i].maxOccurs.Le(o'.max)
      {
        assert i < n ==> es[..n][i] == es[i];
      }
      if o'.min != 1 && o'.min != es[n].minOccurs {
        var i :| 0 <= i < n && o.min == es[..n][i].minOccurs;
        assert es[i].minOccurs == o'.min;
      }
      if o'.max != Bounded(1) && o'.max != es[n].maxOccurs {
        var i :| 0 <= i < n && o.max == es[..n][i].maxOccurs;
        assert es[i].maxOccurs == o'.max;
      }
    }
  }

  /**
    The complex type gets the least minimum and the greatest maximum there are,
    one included; every alternative occurs exactly once, and nothing else of the
    elements, of the content and of the type changes.
   */
  lemma MergedExactly(types: MetaTypes, ident: TypeIdent)
    requires MergeCardinality(types, ident).Ok?
    ensures HasContent(types, ident) && ContentOf(types, ident) in types && types[ContentOf(types, ident)].variant.Choice?
    ensures var types' := MergeCardinality(types, ident).value;
            var t := ContentOf(types, ident);
            var es, ci := types[t].variant.group.elements, types[ident].variant.complex;
            && types'.Keys == types.Keys && types'[ident].variant.ComplexType? && types'[t].variant.Choice?
            && var es', ci' := types'[t].variant.group.elements, types'[ident].variant.complex;
               && LeastOfAll(ci'.minOccurs, ci.minOccurs, es) && GreatestOfAll(ci'.maxOccurs, ci.maxOccurs, es)
               && types'[ident] == types[ident].(variant := ComplexType(ci.(minOccurs := ci'.minOccurs, maxOccurs := ci'.maxOccurs)))
               && types'[t] == types[t].(variant := Choice(types[t].variant.group.(elements := es')))
               && |es'| == |es| && (forall i | 0 <= i < |es| :: es'[i] == es[i].(minOccurs := 1, maxOccurs := Bounded(1)))
               && forall x | x in types && x != ident && x != t :: types'[x] == types[x]
  {
    AlternativesRange(types[ContentOf(types, ident)].variant.group.elements);
  }

  /** What is reported when there is no choice to merge. */
  lemma MergeErrors(types: MetaTypes, ident: TypeIdent)
    ensures ident !in types ==> MergeCardinality(types, ident) == Err(UnknownType(ident))
    ensures ident in types && !types[ident].variant.ComplexType? ==> MergeCardinality(types, ident) == Err(ExpectedComplexType(ident))
    ensures ident in types && types[ident].variant.ComplexType? && types[ident].variant.complex.content == None ==>
              MergeCardinality(types, ident) == Err(MissingContentType(ident))
    ensures HasContent(types, ident) && (ContentOf(types, ident) !in types || !types[ContentOf(types, ident)].variant.Choice?) ==>
              MergeCardinality(types, ident) == Err(ExpectedComplexChoice(ident))
    ensures HasContent(types, ident) && ContentOf(types, ident) in types && types[ContentOf(types, ident)].variant.Choice? ==>
              MergeCardinality(types, ident).Ok?
  {
  }

  // ---------- When a word is lost

  /** The alternative with the largest maximum. */
  lemma {:induction false} LargestAlternative(es: seq<ElementMeta>) returns (j: nat)
    requires !LengthRange(ChoiceKind, es).max.Le(Bounded(1))
    ensures j < |es| && es[j].maxOccurs == LengthRange(ChoiceKind, es).max
    decreases |es|
  {
    var n := |es| - 1;
    if es[n].maxOccurs == LengthRange(ChoiceKind, es).max {
      j := n;
    } else {
      j := LargestAlternative(es[..n]);
    }
  }

  lemma {:induction false} RepeatPower(types: MetaTypes, e: ElementMeta, x: PropertyIdent, m: nat, k: nat, d: nat)
    requires Once(types, e, Power(x, m), d)
    ensures Times(types, e, k, Power(x, k * m), d)
    decreases k
  {
    if k == 0 {
      assert Power(x, 0 * m) == [];
    } else {
      RepeatPower(types, e, x, m, k - 1, d);
      assert k * m == (k - 1) * m + m;
      assert (k - 1) * m >= 0;
      var w := Power(x, k * m);
      assert w[..(k - 1) * m] == Power(x, (k - 1) * m) && w[(k - 1) * m..] == Power(x, m);
    }
  }

  /** No leaf of a group in `keep` has the identifier `x`. */
  ghost predicate Without(types: MetaTypes, keep: Types, x: PropertyIdent) {
    forall y | y in keep && IsGroupType(types, y) :: NoLeaf(Elements(types, y), x)
  }

  ghost predicate NoLeaf(es: seq<ElementMeta>, x: PropertyIdent) {
    forall i | 0 <= i < |es| && !es[i].IsGroup() :: es[i].ident != x
  }

  /** Groups accept no identifiers other than those of the leaves below. */
  lemma {:induction false} GroupWithout(types: MetaTypes, keep: Types, x: PropertyIdent, t: TypeIdent, w: Word, d: nat)
    requires ClosedUnder(types, keep) && Without(types, keep, x) && t in keep && GroupAccepts(types, t, w, d)
    ensures x !in w
    decreases d, 1, 0
  {
    var v := types[t].variant;
    assert VariantAccepts(types, v, w, d);
    assert IsGroupType(types, t) && Elements(types, t) == v.group.elements;
    ElementsWithout(types, keep, x, KindOf(v), v.group.elements, w, d);
  }

  lemma {:induction false} ElementsWithout(
    types: MetaTypes, keep: Types, x: PropertyIdent, kind: Kind, es: seq<ElementMeta>, w: Word, d: nat)
    requires ClosedUnder(types, keep) && Without(types, keep, x) && Within(es, keep) && NoLeaf(es, x)
    requires KindAccepts(types, kind, es, w, d)
    ensures x !in w
    decreases d, 0, |es|
  {
    if kind.ChoiceKind? {
      var j :| 0 <= j < |es| && Particle(types, es[j], w, d);
      ParticleWithout(types, keep, x, es[j], w, d);
    } else if es != [] {
      var u, v := SplitLast(types, kind, es, w, d);
      ElementsWithout(types, keep, x, kind, es[..|es| - 1], u, d);
      ParticleWithout(types, keep, x, es[|es| - 1], v, d);
      assert x in w <==> multiset(w)[x] > 0;
    }
  }

  lemma {:induction false} ParticleWithout(types: MetaTypes, keep: Types, x: PropertyIdent, e: ElementMeta, w: Word, d: nat)
    requires ClosedUnder(types, keep) && Without(types, keep, x) && Particle(types, e, w, d)
    requires if e.IsGroup() then e.variant.type_ in keep else e.ident != x
    ensures x !in w
    decreases d, 0, 0
  {
    var k: nat :| e.Bounds().Has(k) && Times(types, e, k, w, d);
    forall u | Once(types, e, u, d)
      ensures x !in u
    {
      if e.IsGroup() {
        GroupWithout(types, keep, x, e.variant.type_, u, d - 1);
      }
    }
    TimesWithout(types, e, k, w, d, x);
  }

  lemma {:induction false} TimesWithout(types: MetaTypes, e: ElementMeta, k: nat, w: Word, d: nat, x: PropertyIdent)
    requires Times(types, e, k, w, d) && forall u | Once(types, e, u, d) :: x !in u
    ensures x !in w
    decreases k
  {
    if k > 0 {
      var i :| 0 <= i <= |w| && Times(types, e, k - 1, w[..i], d) && Once(types, e, w[i..], d);
      TimesWithout(types, e, k - 1, w[..i], d, x);
      assert w == w[..i] + w[i..];
    }
  }

  /** The alternative `j` is a leaf, none may occur more often, and no group of the choice has a leaf of this identifier. */
  ghost predicate LoneLargest(types: MetaTypes, ident: TypeIdent, j: nat)
    requires ChoiceContent(types, ident)
  {
    var es := types[ContentOf(types, ident)].variant.group.elements;
    && j < |es| && !es[j].IsGroup() && es[j].maxOccurs.Allows(es[j].minOccurs)
    && es[j].maxOccurs == LengthRange(ChoiceKind, es).max
    && Without(types, Below(types, ContentOf(types, ident), 1), es[j].ident)
  }

  /** After the merge each repetition of the choice is at most one child with this identifier. */
  lemma SingleCounts(types: MetaTypes, ident: TypeIdent, j: nat, u: Word, d: nat)
    requires ChoiceContent(types, ident) && LoneLargest(types, ident, j)
    requires var types' := MergeCardinality(types, ident).value;
             Once(types', ContentParticle(types'[ident].variant.complex), u, d)
    ensures multiset(u)[types[ContentOf(types, ident)].variant.group.elements[j].ident] <= 1
  {
    var t := ContentOf(types, ident);
    var es := types[t].variant.group.elements;
    var types' := MergeCardinality(types, ident).value;
    var keep := Below(types, t, 1);
    var i := ChosenAlternative(types', ContentParticle(types'[ident].variant.complex), u, d);
    var e' := types'[t].variant.group.elements[i];
    AtMostOnce(types', e', u, d - 1);
    if e'.IsGroup() {
      MergeFrame(types, ident);
      NestedInChoice(types, ident, i);
      FrameWithout(types, types', keep, es[j].ident);
      GroupWithout(types', keep, es[j].ident, e'.variant.type_, u, d - 2);
    }
  }

  lemma FrameWithout(types: MetaTypes, types': MetaTypes, keep: Types, x: PropertyIdent)
    requires SameOn(types, types', keep) && Without(types, keep, x)
    ensures ClosedUnder(types', keep) && Without(types', keep, x)
  {
    forall y | y in keep && IsGroupType(types', y)
      ensures Within(Elements(types', y), keep) && NoLeaf(Elements(types', y), x)
    {
      assert SameGroup(types, types', y);
    }
  }

  lemma {:induction false} SinglesCount(types: MetaTypes, ident: TypeIdent, j: nat, k: nat, w: Word, d: nat)
    requires ChoiceContent(types, ident) && LoneLargest(types, ident, j)
    requires var types' := MergeCardinality(types, ident).value;
             Times(types', ContentParticle(types'[ident].variant.complex), k, w, d)
    ensures multiset(w)[types[ContentOf(types, ident)].variant.group.elements[j].ident] <= k
    decreases k
  {
    if k > 0 {
      var types' := MergeCardinality(types, ident).value;
      var e' := ContentParticle(types'[ident].variant.complex);
      var i :| 0 <= i <= |w| && Times(types', e', k - 1, w[..i], d) && Once(types', e', w[i..], d);
      SinglesCount(types, ident, j, k - 1, w[..i], d);
      SingleCounts(types, ident, j, w[i..], d);
      assert w == w[..i] + w[i..];
    }
  }

  /** The longest repetition of the largest alternative. */
  lemma LostWord(types: MetaTypes, ident: TypeIdent, j: nat) returns (w: Word)
    requires ChoiceContent(types, ident) && LoneLargest(types, ident, j)
    requires var es := types[ContentOf(types, ident)].variant.group.elements;
             !OneRepetition(es, types[ident].variant.complex)
    requires var ci := types[ident].variant.complex; ci.maxOccurs.Allows(ci.minOccurs)
    ensures ComplexAccepts(types, ident, w)
    ensures !ComplexAccepts(MergeCardinality(types, ident).value, ident, w)
  {
    var t := ContentOf(types, ident);
    var es := types[t].variant.group.elements;
    var e := ContentParticle(types[ident].variant.complex);
    var m, k, x := es[j].maxOccurs.limit, e.maxOccurs.limit, es[j].ident;
    w := Power(x, k * m);
    LeafParticle(types, es[j], Power(x, m), 0);
    assert VariantAccepts(types, types[t].variant, Power(x, m), 0);
    RepeatPower(types, e, x, m, k, 1);
    assert Particle(types, e, w, 1);
    var types' := MergeCardinality(types, ident).value;
    var e' := ContentParticle(types'[ident].variant.complex);
    TooMany(m, k);
    PowerCount(x, k * m, Only(x));
    forall d: nat
      ensures !Particle(types', e', w, d)
    {
      forall n: nat | Times(types', e', n, w, d)
        ensures !e'.Bounds().Has(n)
      {
        SinglesCount(types, ident, j, n, w, d);
      }
    }
  }

  lemma TooMany(m: nat, k: nat)
    requires m >= 2 && k >= 2
    ensures k * m > m && k * m > k
  {
    MulMono(k, m, 2, m);
    MulMono(m, k, 2, k);
    assert k * m == m * k;
  }

  /** Every word of the complex type survives the merge. */
  ghost predicate MergeKeepsAll(types: MetaTypes, ident: TypeIdent)
    requires ChoiceContent(types, ident)
  {
    forall w | ComplexAccepts(types, ident, w) :: ComplexAccepts(MergeCardinality(types, ident).value, ident, w)
  }

  /**
    The condition is exact if a largest alternative is a leaf with an identifier
    of its own, whatever the other alternatives are.
   */
  lemma MergeKeepsAllIff(types: MetaTypes, ident: TypeIdent)
    requires ChoiceContent(types, ident)
    requires var es := types[ContentOf(types, ident)].variant.group.elements;
             LengthRange(ChoiceKind, es).max.Le(Bounded(1)) || exists j: nat :: LoneLargest(types, ident, j)
    requires var ci := types[ident].variant.complex; ci.maxOccurs.Allows(ci.minOccurs)
    ensures MergeKeepsAll(types, ident) <==>
              OneRepetition(types[ContentOf(types, ident)].variant.group.elements, types[ident].variant.complex)
  {
    if OneRepetition(types[ContentOf(types, ident)].variant.group.elements, types[ident].variant.complex) {
      forall w | ComplexAccepts(types, ident, w)
        ensures ComplexAccepts(MergeCardinality(types, ident).value, ident, w)
      {
        MergeLosesNoWord(types, ident, w);
      }
    } else {
      var j: nat :| LoneLargest(types, ident, j);
      var w := LostWord(types, ident, j);
    }
  }

  /** In a choice of leaves there is such an alternative. */
  lemma LeavesLoneLargest(types: MetaTypes, ident: TypeIdent) returns (j: nat)
    requires ChoiceContent(types, ident)
    requires var es := types[ContentOf(types, ident)].variant.group.elements;
             AllLeaves(es) && Proper(es) && !LengthRange(ChoiceKind, es).max.Le(Bounded(1))
    ensures LoneLargest(types, ident, j)
  {
    var t := ContentOf(types, ident);
    j := LargestAlternative(types[t].variant.group.elements);
    forall y
      ensures y !in Below(types, t, 1)
    {
      NothingBelow(types, t, y);
    }
  }

  lemma NothingBelow(types: MetaTypes, t: TypeIdent, y: TypeIdent)
    requires IsGroupType(types, t) && AllLeaves(Elements(types, t))
    ensures y !in Below(types, t, 1)
  {
    if y in Below(types, t, 1) {
      var n: nat :| n >= 1 && Relations.Steps(NestGraph(types), t, y, n);
      var z :| Relations.Edge(NestGraph(types), t, z) && Relations.Steps(NestGraph(types), z, y, n - 1);
      GroupTypesExact(Elements(types, t), z);
    }
  }
}
