/**
  What flattening makes of the bounds of a complex type and of its content:
  whether they stay or move to the complex type, and that both ends of every
  bound are attained by words accepted before.
 */
module FlattenBounds {
  import opened Wrappers
  import opened Occurs
  import opened Meta
  import opened GroupGraph
  import opened ContentModel
  import opened Flatten
  import opened FlattenWords
  import opened FlattenTheorems
  import opened WordCounts
  import opened FlattenTight
  import opened MixedTight

  function ContentKind(types: MetaTypes, ident: TypeIdent): Kind
    requires HasContent(types, ident) && IsGroupType(types, ContentOf(types, ident))
  {
    KindOf(types[ContentOf(types, ident)].variant)
  }

  function ContentElements(types: MetaTypes, ident: TypeIdent): seq<ElementMeta>
    requires HasContent(types, ident) && IsGroupType(types, ContentOf(types, ident))
  {
    Elements(types, ContentOf(types, ident))
  }

  /** A group is materialised exactly if something is nested in it. */
  lemma {:induction false} TouchedIff(c: Config, kind: Kind, isMixed: bool, es: seq<ElementMeta>, depth: nat, r: nat)
    requires Runs(c, es, depth, r) && ExecElements(c, kind, isMixed, es, depth).Ok?
    ensures ExecElements(c, kind, isMixed, es, depth).value.touched <==> !AllLeaves(es)
    decreases |es|
  {
    if es != [] {
      var e := es[|es| - 1];
      var s := FrontState(c, kind, isMixed, es, depth, r);
      TouchedIff(c, kind, isMixed, es[..|es| - 1], depth, r);
      assert forall i | 0 <= i < |es| - 1 :: es[..|es| - 1][i] == es[i];
      if e.IsGroup() {
        var g, inner := InnerState(c, s, es, depth, r);
        MergedShape(s, e, inner);
      } else {
        AddedMode(s, true, e);
      }
    }
  }

  /** The state behind a content with nested groups, and what is written for it. */
  lemma Written(types: MetaTypes, ident: TypeIdent, r: nat) returns (s: Flat)
    requires Finite(types, ident, r) && FlattenComplexType(types, ident).Ok?
    ensures IsGroupType(types, ContentOf(types, ident)) && Runs(Config(types, MAX_DEPTH, true), ContentElements(types, ident), 0, r)
    ensures ExecElements(Config(types, MAX_DEPTH, true), ContentKind(types, ident),
                         types[ContentOf(types, ident)].variant.group.isMixed, ContentElements(types, ident), 0) == Ok(s)
    ensures Shaped(types, s, ContentKind(types, ident), ContentElements(types, ident), r)
    ensures s.mode.Plain? <==> SameKind(types, ContentKind(types, ident), ContentElements(types, ident), r)
    ensures !AllLeaves(ContentElements(types, ident)) ==> IsWritten(types, FlattenComplexType(types, ident).value, ident, s)
  {
    var c := Config(types, MAX_DEPTH, true);
    var v := types[ContentOf(types, ident)].variant;
    var es := v.group.elements;
    s := Exec(c, ContentOf(types, ident), 0).value;
    ElementsShape(c, KindOf(v), v.group.isMixed, es, 0, r);
    ModeIff(c, KindOf(v), v.group.isMixed, es, 0, r);
    TouchedIff(c, KindOf(v), v.group.isMixed, es, 0, r);
    if s.touched {
      RewrittenTypes(types, ident, s);
    }
  }

  ghost predicate IsWritten(types: MetaTypes, types': MetaTypes, ident: TypeIdent, s: Flat)
    requires HasContent(types, ident)
  {
    && s.touched && HasContent(types', ident) && ContentOf(types', ident) == ContentOf(types, ident)
    && IsGroupType(types', ContentOf(types, ident)) && Elements(types', ContentOf(types, ident)) == s.elements
    && types'[ContentOf(types, ident)].variant.group.isMixed == s.isMixed
    && KindOf(types'[ContentOf(types, ident)].variant) == (if s.mode.Plain? then s.mode.kind else ChoiceKind)
    && var ci, ci' := types[ident].variant.complex, types'[ident].variant.complex;
       var o := if s.mode.Plain? then Exactly(1) else s.mode.occurs;
       ci'.minOccurs == ci.minOccurs * o.min && ci'.maxOccurs == ci.maxOccurs.Mul(o.max)
  }

  /**
    A content with nested groups keeps its kind, and the complex type its
    bounds, exactly if all groups below are of this kind and, unless they are
    `all` groups, occur at most once. Otherwise it becomes a choice of single
    alternatives.
   */
  lemma KindKeptIff(types: MetaTypes, ident: TypeIdent, r: nat)
    requires Finite(types, ident, r) && FlattenComplexType(types, ident).Ok?
    requires !AllLeaves(ContentElements(types, ident))
    ensures var types' := FlattenComplexType(types, ident).value;
            && HasContent(types', ident) && ContentOf(types', ident) == ContentOf(types, ident)
            && IsGroupType(types', ContentOf(types, ident))
            && if SameKind(types, ContentKind(types, ident), ContentElements(types, ident), r) then
                 ContentKind(types', ident) == ContentKind(types, ident)
                 && types'[ident].variant.complex.Bounds() == types[ident].variant.complex.Bounds()
               else
                 ContentKind(types', ident) == ChoiceKind && AllSingle(ContentElements(types', ident))
  {
    var s := Written(types, ident, r);
    var ci := types[ident].variant.complex;
    assert ci.maxOccurs.Mul(Bounded(1)) == ci.maxOccurs;
  }

  /** The content is replaced by a bare group, the complex type gets other bounds, and nothing else differs. */
  ghost predicate OnlyRewritten(types: MetaTypes, types': MetaTypes, ident: TypeIdent)
    requires HasContent(types, ident)
  {
    && types'.Keys == types.Keys && types'[ident].variant.ComplexType? && ContentOf(types, ident) in types
    && types'[ContentOf(types, ident)] == MetaType(types'[ContentOf(types, ident)].variant, None, None, None, None, [])
    && types'[ident] == types[ident].(variant := ComplexType(types[ident].variant.complex.(
         minOccurs := types'[ident].variant.complex.minOccurs, maxOccurs := types'[ident].variant.complex.maxOccurs)))
    && forall x | x in types && x != ident && x != ContentOf(types, ident) :: types'[x] == types[x]
  }

  /** A content without nested groups stays as it is; otherwise only the content and the bounds of the complex type are written. */
  lemma OnlyContentAndBounds(types: MetaTypes, ident: TypeIdent, r: nat)
    requires Finite(types, ident, r) && FlattenComplexType(types, ident).Ok?
    ensures AllLeaves(ContentElements(types, ident)) ==> FlattenComplexType(types, ident).value == types
    ensures !AllLeaves(ContentElements(types, ident)) ==> OnlyRewritten(types, FlattenComplexType(types, ident).value, ident)
  {
    var s := Written(types, ident, r);
    var v := types[ContentOf(types, ident)].variant;
    TouchedIff(Config(types, MAX_DEPTH, true), KindOf(v), v.group.isMixed, v.group.elements, 0, r);
  }

  /** What is reported when there is nothing that could be flattened. */
  lemma FlattenErrors(types: MetaTypes, ident: TypeIdent)
    ensures ident !in types ==> FlattenComplexType(types, ident) == Err(UnknownType(ident))
    ensures ident in types && !types[ident].variant.ComplexType? ==> FlattenComplexType(types, ident) == Err(ExpectedComplexType(ident))
    ensures ident in types && types[ident].variant.ComplexType? && types[ident].variant.complex.content == None ==>
              FlattenComplexType(types, ident) == Err(MissingContentType(ident))
    ensures HasContent(types, ident) && ContentOf(types, ident) !in types ==>
              FlattenComplexType(types, ident) == Err(UnknownType(ContentOf(types, ident)))
    ensures HasContent(types, ident) && ContentOf(types, ident) in types && !IsGroupType(types, ContentOf(types, ident)) ==>
              FlattenComplexType(types, ident) == Err(ExpectedChoiceContent(ContentOf(types, ident)))
  {
  }

  // ---------- Bounds that move to the complex type

  /** Everything below the content may occur, and so may the content. */
  ghost predicate UsableContent(types: MetaTypes, ident: TypeIdent, r: nat) {
    && HasContent(types, ident) && IsGroupType(types, ContentOf(types, ident))
    && UsableElement(types, ContentParticle(types[ident].variant.complex), r + 1)
  }

  lemma ContentUsable(types: MetaTypes, ident: TypeIdent, r: nat)
    requires UsableContent(types, ident, r)
    ensures Usable(types, ContentElements(types, ident), r) && AllUsable(types, ContentElements(types, ident), r)
  {
    assert UsableElement(types, ContentParticle(types[ident].variant.complex), r + 1);
  }

  /** Every choice, the content included, has an alternative of at most one child. */
  ghost predicate ShortContent(types: MetaTypes, ident: TypeIdent, r: nat)
    requires HasContent(types, ident) && IsGroupType(types, ContentOf(types, ident))
  {
    Short(types, ContentOf(types, ident), r) && ShortBelow(types, ContentElements(types, ident), r)
  }

  /**
    The bounds that move to the complex type are attained: it accepted a word of
    exactly the new minimum of children, and one of exactly the new maximum, or
    words beyond any length `n` if there is none.
   */
  lemma MovedBoundsAttained(types: MetaTypes, ident: TypeIdent, r: nat, n: nat) returns (least: Word, most: Word)
    requires WellFormed(types, ident, r) && UsableContent(types, ident, r) && ShortContent(types, ident, r)
    requires !SameKind(types, ContentKind(types, ident), ContentElements(types, ident), r)
    requires FlattenComplexType(types, ident).Ok?
    ensures var types' := FlattenComplexType(types, ident).value;
            && HasContent(types', ident)
            && ComplexAccepts(types, ident, least) && |least| == types'[ident].variant.complex.minOccurs
            && ComplexAccepts(types, ident, most)
            && (if types'[ident].variant.complex.maxOccurs.Bounded? then |most| == types'[ident].variant.complex.maxOccurs.limit
                else |most| >= n)
  {
    var e := ContentParticle(types[ident].variant.complex);
    var kind, es := ContentKind(types, ident), ContentElements(types, ident);
    if AllLeaves(es) {
      LeavesSame(types, kind, es, r);
    }
    var s := Written(types, ident, r);
    ContentLength(types, ident, r, s);
    least := LeastParticle(types, e, Anything, r + 1, r + 1);
    most := MostParticle(types, e, Anything, r + 1, r + 1, n);
    ContentUsable(types, ident, r);
    MostIsSome(types, kind, es, r);
    MovedBounds(types, FlattenComplexType(types, ident).value, ident, r, s);
  }

  /**
    If only the nested choices are known to have an alternative of at most one
    child, the new minimum is attained exactly if the content is no longer
    choice either, or may be left out.
   */
  lemma MinimumAttainedIff(types: MetaTypes, ident: TypeIdent, r: nat)
    requires WellFormed(types, ident, r) && UsableContent(types, ident, r)
    requires ShortBelow(types, ContentElements(types, ident), r)
    requires !SameKind(types, ContentKind(types, ident), ContentElements(types, ident), r)
    requires FlattenComplexType(types, ident).Ok?
    ensures HasContent(FlattenComplexType(types, ident).value, ident)
    ensures (exists w :: ComplexAccepts(types, ident, w) && |w| == FlattenComplexType(types, ident).value[ident].variant.complex.minOccurs)
       <==> types[ident].variant.complex.minOccurs == 0 || Short(types, ContentOf(types, ident), r)
  {
    var ci := types[ident].variant.complex;
    var e := ContentParticle(ci);
    var kind, es := ContentKind(types, ident), ContentElements(types, ident);
    if AllLeaves(es) {
      LeavesSame(types, kind, es, r);
    }
    var s := Written(types, ident, r);
    if Short(types, ContentOf(types, ident), r) {
      var least, most := MovedBoundsAttained(types, ident, r, 0);
    } else {
      LongContent(types, ident, r, s);
      var least := LeastParticle(types, e, Anything, r + 1, r + 1);
      assert ComplexAccepts(types, ident, least);
      LongMinimum(ci.minOccurs, Least(types, kind, es, Anything, r));
      forall w | ComplexAccepts(types, ident, w)
        ensures |w| >= LeastOf(types, e, Anything, r + 1)
      {
        AtLeast(types, ident, r, w);
      }
    }
  }

  lemma LongMinimum(min: nat, least: nat)
    requires least >= 2
    ensures min == 0 ==> min * least == 0
    ensures min > 0 ==> min * least > min * 1
  {
    MulMono(min, 2, min, least);
  }

  lemma AtLeast(types: MetaTypes, ident: TypeIdent, r: nat, w: Word)
    requires Finite(types, ident, r) && ComplexAccepts(types, ident, w)
    ensures |w| >= LeastOf(types, ContentParticle(types[ident].variant.complex), Anything, r + 1)
  {
    var e := ContentParticle(types[ident].variant.complex);
    assert FiniteElements(types, [e], r + 1) by {
      assert FiniteTree(types, e.variant.type_, r);
    }
    var d: nat :| Particle(types, e, w, d);
    ParticleBetween(types, e, w, d, Anything, r + 1);
  }

  /** The minimum of a choice of longer alternatives counts it as one child. */
  lemma LongContent(types: MetaTypes, ident: TypeIdent, r: nat, s: Flat)
    requires WellFormed(types, ident, r) && UsableContent(types, ident, r)
    requires ShortBelow(types, ContentElements(types, ident), r) && !Short(types, ContentOf(types, ident), r)
    requires ExecElements(Config(types, MAX_DEPTH, true), ContentKind(types, ident),
                          types[ContentOf(types, ident)].variant.group.isMixed, ContentElements(types, ident), 0) == Ok(s)
    ensures LengthOf(s).min == 1
  {
    var c := Config(types, MAX_DEPTH, true);
    var kind, es := ContentKind(types, ident), ContentElements(types, ident);
    ContentUsable(types, ident, r);
    assert LengthRun(c, kind, es, 0, r);
    ElementsLength(c, kind, types[ContentOf(types, ident)].variant.group.isMixed, es, 0, r);
  }

  lemma LeavesSame(types: MetaTypes, kind: Kind, es: seq<ElementMeta>, r: nat)
    requires AllLeaves(es)
    ensures SameKind(types, kind, es, r)
  {
    forall i | 0 <= i < |es|
      ensures SameKindElement(types, kind, es[i], r)
    {
    }
  }

  lemma ContentLength(types: MetaTypes, ident: TypeIdent, r: nat, s: Flat)
    requires WellFormed(types, ident, r) && UsableContent(types, ident, r) && ShortContent(types, ident, r)
    requires ExecElements(Config(types, MAX_DEPTH, true), ContentKind(types, ident),
                          types[ContentOf(types, ident)].variant.group.isMixed, ContentElements(types, ident), 0) == Ok(s)
    ensures var kind, es := ContentKind(types, ident), ContentElements(types, ident);
            LengthOf(s) == Range(Least(types, kind, es, Anything, r), Most(types, kind, es, Anything, r))
  {
    var c := Config(types, MAX_DEPTH, true);
    var kind, es := ContentKind(types, ident), ContentElements(types, ident);
    ContentUsable(types, ident, r);
    assert LengthRun(c, kind, es, 0, r);
    ElementsLength(c, kind, types[ContentOf(types, ident)].variant.group.isMixed, es, 0, r);
    MostIsSome(types, kind, es, r);
  }

  lemma MovedBounds(types: MetaTypes, types': MetaTypes, ident: TypeIdent, r: nat, s: Flat)
    requires HasContent(types, ident) && IsGroupType(types, ContentOf(types, ident))
    requires s.mode.Mixed? && IsWritten(types, types', ident, s)
    requires var kind, es := ContentKind(types, ident), ContentElements(types, ident);
             && LengthOf(s) == Range(Least(types, kind, es, Anything, r), Most(types, kind, es, Anything, r))
             && Most(types, kind, es, Anything, r) != Bounded(0)
    ensures var e := ContentParticle(types[ident].variant.complex);
            && types'[ident].variant.complex.minOccurs == LeastOf(types, e, Anything, r + 1)
            && types'[ident].variant.complex.maxOccurs == MostOf(types, e, Anything, r + 1)
  {
    var ci := types[ident].variant.complex;
    MulSwap(ci.maxOccurs, s.mode.occurs.max);
  }

  lemma MulSwap(a: MaxOccurs, b: MaxOccurs)
    ensures a.Mul(b) == b.Mul(a)
  {
    if a.Bounded? && b.Bounded? {
      assert a.limit * b.limit == b.limit * a.limit;
    }
  }

  // ---------- Bounds that stay with the elements

  /**
    Where a sequence or an `all` group keeps its kind, the bounds of each
    identifier `x` are attained by words of the content before.
   */
  lemma KeptCountsAttained(types: MetaTypes, ident: TypeIdent, r: nat, x: PropertyIdent, n: nat)
    returns (least: Word, most: Word)
    requires Finite(types, ident, r) && UsableContent(types, ident, r) && ContentKind(types, ident) != ChoiceKind
    requires SameKind(types, ContentKind(types, ident), ContentElements(types, ident), r)
    requires !AllLeaves(ContentElements(types, ident)) && FlattenComplexType(types, ident).Ok?
    ensures var types' := FlattenComplexType(types, ident).value;
            && HasContent(types', ident) && IsGroupType(types', ContentOf(types', ident))
            && GroupAccepts(types, ContentOf(types, ident), least, r) && GroupAccepts(types, ContentOf(types, ident), most, r)
            && var bounds := CountRange(ContentElements(types', ident), Only(x));
               && multiset(least)[x] == bounds.min
               && (if bounds.max.Bounded? then multiset(most)[x] == bounds.max.limit else multiset(most)[x] >= n)
  {
    var kind, es := ContentKind(types, ident), ContentElements(types, ident);
    var v := types[ContentOf(types, ident)].variant;
    var s := Written(types, ident, r);
    ContentUsable(types, ident, r);
    ElementsCountsTight(Config(types, MAX_DEPTH, true), kind, v.group.isMixed, es, 0, r);
    assert CountTight(types, s, kind, es, r, Only(x));
    least := LeastWord(types, kind, es, Only(x), r, r);
    most := MostWord(types, kind, es, Only(x), r, r, n);
    assert VariantAccepts(types, v, least, r) && VariantAccepts(types, v, most, r);
  }

  /** Where a choice keeps its kind, both bounds of each alternative are attained. */
  lemma KeptAlternativesAttained(types: MetaTypes, ident: TypeIdent, r: nat, j: nat, n: nat) returns (m: nat)
    requires WellFormed(types, ident, r) && UsableContent(types, ident, r) && ContentKind(types, ident) == ChoiceKind
    requires SameKind(types, ChoiceKind, ContentElements(types, ident), r)
    requires !AllLeaves(ContentElements(types, ident)) && FlattenComplexType(types, ident).Ok?
    requires var types' := FlattenComplexType(types, ident).value;
             && HasContent(types', ident) && IsGroupType(types', ContentOf(types', ident))
             && j < |ContentElements(types', ident)|
    ensures var f := ContentElements(FlattenComplexType(types, ident).value, ident)[j];
            var t := ContentOf(types, ident);
            && GroupAccepts(types, t, Power(f.ident, f.minOccurs), r) && GroupAccepts(types, t, Power(f.ident, m), r)
            && if f.maxOccurs.Bounded? then m == f.maxOccurs.limit else m >= n
  {
    var es := ContentElements(types, ident);
    var v := types[ContentOf(types, ident)].variant;
    var s := Written(types, ident, r);
    var f := s.elements[j];
    ContentUsable(types, ident, r);
    assert ChoiceRun(Config(types, MAX_DEPTH, true), es, 0, r);
    ElementsAlternativesTight(Config(types, MAX_DEPTH, true), v.group.isMixed, es, 0, r, r);
    assert AlternativeTight(types, es, f, r);
    if f.maxOccurs.Bounded? {
      m := f.maxOccurs.limit;
    } else {
      assert AcceptsMore(types, es, f.ident, n, r);
      m :| m >= n && AcceptsPower(types, es, f.ident, m, r);
    }
    assert VariantAccepts(types, v, Power(f.ident, f.minOccurs), r) && VariantAccepts(types, v, Power(f.ident, m), r);
  }
}
