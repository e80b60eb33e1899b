/**
  Contents made of nested sequences: exactly when flattening keeps every word.

  The leading leaves of a content, up to the first nested group, are copied as
  they are. Every leaf behind them is added to the first one of its identifier.
 */
module FlattenSequences {
  import opened Wrappers
  import opened Occurs
  import opened Meta
  import opened ContentModel
  import opened Flatten
  import opened FlattenWords
  import opened FlattenTheorems
  import opened FlattenLimits
  import opened GroupFrames
  import opened FlatSequences

  predicate IsSequence(types: MetaTypes, t: TypeIdent) {
    t in types && types[t].variant.Sequence?
  }

  /** A leaf that may occur, or a sequence nested exactly once, over at most `r` levels. */
  ghost predicate Nested(types: MetaTypes, e: ElementMeta, r: nat)
    decreases r, 0
  {
    if e.IsGroup() then
      && e.Bounds() == Exactly(1) && r > 0 && IsSequence(types, e.variant.type_)
      && AllNested(types, types[e.variant.type_].variant.group.elements, r - 1)
    else
      e.maxOccurs != Bounded(0) && e.maxOccurs.Allows(e.minOccurs)
  }

  ghost predicate AllNested(types: MetaTypes, es: seq<ElementMeta>, r: nat)
    decreases r, 1
  {
    forall i | 0 <= i < |es| :: Nested(types, es[i], r)
  }

  /** The leaves in document order. */
  function Leaves(types: MetaTypes, es: seq<ElementMeta>, r: nat): seq<ElementMeta>
    decreases r, 1, |es|
  {
    if es == [] then [] else Leaves(types, es[..|es| - 1], r) + LeavesOf(types, es[|es| - 1], r)
  }

  function LeavesOf(types: MetaTypes, e: ElementMeta, r: nat): seq<ElementMeta>
    decreases r, 0
  {
    if !e.IsGroup() then [e]
    else if r > 0 && IsSequence(types, e.variant.type_) then
      Leaves(types, types[e.variant.type_].variant.group.elements, r - 1)
    else []
  }

  /** How many leaves come before the first nested group. */
  function Leading(es: seq<ElementMeta>): (n: nat)
    ensures n <= |es|
  {
    if es == [] then 0
    else
      var n := Leading(es[..|es| - 1]);
      if n == |es| - 1 && !es[n].IsGroup() then n + 1 else n
  }

  /** The leaves behind the leading ones. */
  function Rest(types: MetaTypes, es: seq<ElementMeta>, r: nat): seq<ElementMeta> {
    if Leading(es) == |es| then [] else Rest(types, es[..|es| - 1], r) + LeavesOf(types, es[|es| - 1], r)
  }

  lemma LeadingStep(es: seq<ElementMeta>)
    requires es != []
    ensures var n := Leading(es[..|es| - 1]);
            Leading(es) == (if n == |es| - 1 && !es[|es| - 1].IsGroup() then |es| else n)
    ensures Leading(es) < |es| ==> es[..Leading(es)] == es[..|es| - 1][..Leading(es)]
  {
  }

  lemma {:induction false} LeadingLeaves(types: MetaTypes, es: seq<ElementMeta>, r: nat)
    ensures Leaves(types, es, r) == es[..Leading(es)] + Rest(types, es, r)
    decreases |es|
  {
    if es != [] {
      var n := |es| - 1;
      LeadingStep(es);
      LeadingLeaves(types, es[..n], r);
      if Leading(es) == |es| {
        assert es[..n][..n] == es[..n] && es == es[..n] + [es[n]];
      } else {
        Associative(es[..Leading(es)], Rest(types, es[..n], r), LeavesOf(types, es[n], r));
      }
    }
  }

  lemma {:induction false} LeadingAll(es: seq<ElementMeta>)
    ensures Leading(es) == |es| <==> AllLeaves(es)
    decreases |es|
  {
    if es != [] {
      var n := |es| - 1;
      LeadingStep(es);
      LeadingAll(es[..n]);
      assert es == es[..n] + [es[n]];
    }
  }

  /** These are the identifiers `KindLeaves` lists. */
  lemma {:induction false} LeavesIdents(types: MetaTypes, es: seq<ElementMeta>, r: nat)
    requires AllNested(types, es, r)
    ensures IdentsOf(Leaves(types, es, r)) == KindLeaves(types, SequenceKind, es, r)
    ensures MayOccur(Leaves(types, es, r))
    decreases r, 1, |es|
  {
    if es != [] {
      var n := |es| - 1;
      LeavesIdents(types, es[..n], r);
      assert Nested(types, es[n], r);
      LastIdents(types, es[n], r);
      AppendIdents(Leaves(types, es[..n], r), LeavesOf(types, es[n], r));
      AppendMayOccur(Leaves(types, es[..n], r), LeavesOf(types, es[n], r));
    }
  }

  lemma {:induction false} LastIdents(types: MetaTypes, e: ElementMeta, r: nat)
    requires Nested(types, e, r)
    ensures IdentsOf(LeavesOf(types, e, r)) == ElementLeaves(types, SequenceKind, e, r)
    ensures MayOccur(LeavesOf(types, e, r))
    decreases r, 0, 0
  {
    if e.IsGroup() {
      LeavesIdents(types, types[e.variant.type_].variant.group.elements, r - 1);
    } else {
      assert [e][..0] == [];
    }
  }

  lemma AppendMayOccur(a: seq<ElementMeta>, b: seq<ElementMeta>)
    requires MayOccur(a) && MayOccur(b)
    ensures MayOccur(a + b)
  {
  }

  // ---------- The words before

  lemma {:induction false} SplitSequence(a: seq<ElementMeta>, b: seq<ElementMeta>, w: Word) returns (u: Word, v: Word)
    requires SequenceOf(map[], a + b, w, 0)
    ensures w == u + v && SequenceOf(map[], a, u, 0) && SequenceOf(map[], b, v, 0)
    decreases |b|
  {
    if b == [] {
      assert a + b == a;
      u, v := w, [];
    } else {
      var n := |b| - 1;
      AppendLast(a, b);
      var w1, x := CutWord(a + b[..n], b[n], w);
      u, v := SplitSequence(a, b[..n], w1);
      SequenceStep(b[..n], b[n], v, x);
      assert b == b[..n] + [b[n]];
      Associative(u, v, x);
      v := v + x;
    }
  }

  lemma CutParticles(types: MetaTypes, es: seq<ElementMeta>, w: Word, d: nat) returns (u: Word, v: Word)
    requires es != [] && SequenceOf(types, es, w, d)
    ensures w == u + v && SequenceOf(types, es[..|es| - 1], u, d) && Particle(types, es[|es| - 1], v, d)
  {
    var n := |es| - 1;
    var i :| 0 <= i <= |w| && SequenceOf(types, es[..n], w[..i], d) && Particle(types, es[n], w[i..], d);
    u, v := w[..i], w[i..];
  }

  /** Nested sequences accept what their leaves, in order, accept. */
  lemma {:induction false} LeavesAccept(types: MetaTypes, es: seq<ElementMeta>, r: nat, w: Word, d: nat)
    requires AllNested(types, es, r) && SequenceOf(types, es, w, d)
    ensures SequenceOf(map[], Leaves(types, es, r), w, 0)
    decreases r, 1, |es|
  {
    if es != [] {
      var n := |es| - 1;
      var u, v := CutParticles(types, es, w, d);
      LeavesAccept(types, es[..n], r, u, d);
      assert Nested(types, es[n], r);
      ParticleLeaves(types, es[n], r, v, d);
      AppendSequence(Leaves(types, es[..n], r), LeavesOf(types, es[n], r), u, v);
    }
  }

  lemma {:induction false} ParticleLeaves(types: MetaTypes, e: ElementMeta, r: nat, v: Word, d: nat)
    requires Nested(types, e, r) && Particle(types, e, v, d)
    ensures SequenceOf(map[], LeavesOf(types, e, r), v, 0)
    decreases r, 0, 0
  {
    if e.IsGroup() {
      AtMostOnce(types, e, v, d);
      assert VariantAccepts(types, types[e.variant.type_].variant, v, d - 1);
      LeavesAccept(types, types[e.variant.type_].variant.group.elements, r - 1, v, d - 1);
    } else {
      LeafParticle(types, e, v, d);
      SingleSequence(e, v);
    }
  }

  lemma {:induction false} AcceptedByNesting(types: MetaTypes, es: seq<ElementMeta>, r: nat, w: Word, d: nat)
    requires AllNested(types, es, r) && SequenceOf(map[], Leaves(types, es, r), w, 0) && d >= r
    ensures SequenceOf(types, es, w, d)
    decreases r, |es|
  {
    if es != [] {
      var n := |es| - 1;
      var u, v := SplitSequence(Leaves(types, es[..n], r), LeavesOf(types, es[n], r), w);
      AcceptedByNesting(types, es[..n], r, u, d);
      LastAccepted(types, es, r, v, d);
      assert w[..|u|] == u && w[|u|..] == v;
    }
  }

  lemma {:induction false} LastAccepted(types: MetaTypes, es: seq<ElementMeta>, r: nat, v: Word, d: nat)
    requires es != [] && AllNested(types, es, r) && d >= r
    requires SequenceOf(map[], LeavesOf(types, es[|es| - 1], r), v, 0)
    ensures Particle(types, es[|es| - 1], v, d)
    decreases r, 0
  {
    var e := es[|es| - 1];
    assert Nested(types, e, r);
    if e.IsGroup() {
      AcceptedByNesting(types, types[e.variant.type_].variant.group.elements, r - 1, v, d - 1);
      assert VariantAccepts(types, types[e.variant.type_].variant, v, d - 1);
      SingleOccurrence(types, e, v, d);
    } else {
      var u, x := CutWord([], e, v);
      assert [] + [e] == [e];
      LeafParticle(map[], e, x, 0);
      LeafParticle(types, e, x, d);
      assert u + x == x;
    }
  }

  // ---------- The flattened content

  /** Adding to a plain, materialised group sums up. */
  lemma AddedLeaf(s: Flat, e: ElementMeta)
    requires s.touched && s.mode.Plain? && Added(s, true, e).Ok?
    ensures Added(s, true, e).value == s.(elements := AddLeaf(s.elements, e))
  {
  }

  lemma {:induction false} AddedLeaves(s: Flat, es: seq<ElementMeta>)
    requires s.touched && s.mode.Plain? && AddAll(s, true, es).Ok?
    ensures AddAll(s, true, es).value == s.(elements := Tallied(s.elements, es))
    decreases |es|
  {
    if es != [] {
      AddedLeaves(s, es[..|es| - 1]);
      AddedLeaf(AddAll(s, true, es[..|es| - 1]).value, es[|es| - 1]);
    }
  }

  /** The state the builder reaches for the elements `es`. */
  ghost predicate Summed(types: MetaTypes, s: Flat, es: seq<ElementMeta>, r: nat) {
    && s.kind == SequenceKind && s.mode == Plain(SequenceKind)
    && s.touched == !AllLeaves(es)
    && s.elements == Tallied(es[..Leading(es)], Rest(types, es, r))
  }

  ghost predicate RunsNested(c: Config, es: seq<ElementMeta>, depth: nat, r: nat) {
    c.flattenNamedGroups && depth + r < c.maxDepth && AllNested(c.types, es, r)
  }

  lemma {:induction false} ElementsSummed(c: Config, isMixed: bool, es: seq<ElementMeta>, depth: nat, r: nat)
    requires RunsNested(c, es, depth, r)
    requires ExecElements(c, SequenceKind, isMixed, es, depth).Ok?
    ensures Summed(c.types, ExecElements(c, SequenceKind, isMixed, es, depth).value, es, r)
    decreases r, |es|
  {
    if es != [] {
      var s := BeforeStep(c, isMixed, es, depth);
      var e := es[|es| - 1];
      ElementsSummed(c, isMixed, es[..|es| - 1], depth, r);
      assert Nested(c.types, e, r);
      if e.IsGroup() {
        var v := c.types[e.variant.type_].variant;
        if ExecElements(c, SequenceKind, v.group.isMixed, v.group.elements, depth + 1).Ok? {
          ElementsSummed(c, v.group.isMixed, v.group.elements, depth + 1, r - 1);
        }
        SummedGroup(c, s, es, depth, r);
      } else {
        SummedLeaf(c, s, es, depth, r);
      }
    }
  }

  lemma BeforeStep(c: Config, isMixed: bool, es: seq<ElementMeta>, depth: nat) returns (s: Flat)
    requires depth < c.maxDepth && es != [] && ExecElements(c, SequenceKind, isMixed, es, depth).Ok?
    ensures ExecElements(c, SequenceKind, isMixed, es[..|es| - 1], depth) == Ok(s)
    ensures Step(c, s, es[|es| - 1], depth) == ExecElements(c, SequenceKind, isMixed, es, depth)
  {
    s := ExecElements(c, SequenceKind, isMixed, es[..|es| - 1], depth).value;
  }

  lemma SummedLeaf(c: Config, s: Flat, es: seq<ElementMeta>, depth: nat, r: nat)
    requires es != [] && RunsNested(c, es, depth, r) && Summed(c.types, s, es[..|es| - 1], r)
    requires !es[|es| - 1].IsGroup() && Step(c, s, es[|es| - 1], depth).Ok?
    ensures Summed(c.types, Step(c, s, es[|es| - 1], depth).value, es, r)
  {
    var n := |es| - 1;
    LeadingStep(es);
    LeadingAll(es);
    LeadingAll(es[..n]);
    if s.touched {
      AddedLeaf(s, es[n]);
      SnocTallied(es[..Leading(es)], Rest(c.types, es[..n], r), es[n]);
    } else {
      assert es[..n][..n] == es[..n] && es == es[..n] + [es[n]] && es[..|es|] == es;
    }
  }

  lemma SummedGroup(c: Config, s: Flat, es: seq<ElementMeta>, depth: nat, r: nat)
    requires es != [] && RunsNested(c, es, depth, r) && Summed(c.types, s, es[..|es| - 1], r)
    requires es[|es| - 1].IsGroup() && Step(c, s, es[|es| - 1], depth).Ok?
    requires r > 0 && IsSequence(c.types, es[|es| - 1].variant.type_)
    requires var inner := Exec(c, es[|es| - 1].variant.type_, depth + 1);
             inner.Ok? ==> Summed(c.types, inner.value, c.types[es[|es| - 1].variant.type_].variant.group.elements, r - 1)
    ensures Summed(c.types, Step(c, s, es[|es| - 1], depth).value, es, r)
  {
    var n := |es| - 1;
    var inner := Exec(c, es[n].variant.type_, depth + 1).value;
    assert Nested(c.types, es[n], r);
    LeadingStep(es);
    LeadingAll(es);
    MergedSum(s, es[n], inner);
    AddedGroup(c.types, s.elements, inner, es, r);
  }

  lemma AddedGroup(types: MetaTypes, before: seq<ElementMeta>, inner: Flat, es: seq<ElementMeta>, r: nat)
    requires es != [] && es[|es| - 1].IsGroup() && r > 0 && IsSequence(types, es[|es| - 1].variant.type_)
    requires before == Tallied(es[..Leading(es)], Rest(types, es[..|es| - 1], r))
    requires Summed(types, inner, types[es[|es| - 1].variant.type_].variant.group.elements, r - 1)
    ensures Tallied(before, inner.elements) == Tallied(es[..Leading(es)], Rest(types, es, r))
  {
    var n := |es| - 1;
    var els := types[es[n].variant.type_].variant.group.elements;
    LeadingStep(es);
    LeadingLeaves(types, els, r - 1);
    TalliedNested(before, els[..Leading(els)], Rest(types, els, r - 1));
    TalliedAppend(es[..Leading(es)], Rest(types, es[..n], r), LeavesOf(types, es[n], r));
  }

  lemma MergedSum(s: Flat, e: ElementMeta, inner: Flat)
    requires s.mode == Plain(SequenceKind) && inner.mode == s.mode && e.Bounds() == Exactly(1) && Merged(s, e, inner).Ok?
    ensures var s' := Merged(s, e, inner).value;
            s'.touched && s'.kind == s.kind && s'.mode == s.mode && s'.elements == Tallied(s.elements, inner.elements)
  {
    ScaledOnce(inner.elements);
    AddedLeaves(s.(touched := true, isMixed := s.isMixed || inner.isMixed), inner.elements);
  }

  // ---------- One complex type

  /** A content of nested sequences. */
  ghost predicate NestedContent(types: MetaTypes, ident: TypeIdent, r: nat) {
    && HasContent(types, ident) && r < MAX_DEPTH && IsSequence(types, ContentOf(types, ident))
    && AllNested(types, Particles(types, ident), r)
  }

  function Particles(types: MetaTypes, ident: TypeIdent): seq<ElementMeta>
    requires HasContent(types, ident) && IsSequence(types, ContentOf(types, ident))
  {
    types[ContentOf(types, ident)].variant.group.elements
  }

  /** Flattening puts the summed leaves in place of the nested ones. */
  lemma ContentSummed(types: MetaTypes, ident: TypeIdent, r: nat)
    requires NestedContent(types, ident, r) && FlattenComplexType(types, ident).Ok?
    ensures var types' := FlattenComplexType(types, ident).value;
            && HasContent(types', ident) && ContentOf(types', ident) == ContentOf(types, ident)
            && types'[ident].variant.complex.Bounds() == types[ident].variant.complex.Bounds()
            && IsSequence(types', ContentOf(types, ident))
            && Particles(types', ident) == Sum(types, ident, r)
  {
    var c := Config(types, MAX_DEPTH, true);
    var v := types[ContentOf(types, ident)].variant;
    var es := Particles(types, ident);
    ElementsSummed(c, v.group.isMixed, es, 0, r);
    var s := Exec(c, ContentOf(types, ident), 0).value;
    LeadingAll(es);
    if s.touched {
      RewrittenTypes(types, ident, s);
      var ci := types[ident].variant.complex;
      assert ci.maxOccurs.Mul(Bounded(1)) == ci.maxOccurs;
    } else {
      assert es[..|es|] == es;
    }
  }

  /** A flat sequence accepts the same words wherever it stands. */
  lemma {:induction false} LeafSequenceBack(types: MetaTypes, es: seq<ElementMeta>, w: Word, d: nat)
    requires AllLeaves(es) && SequenceOf(types, es, w, d)
    ensures SequenceOf(map[], es, w, 0)
    decreases |es|
  {
    if es != [] {
      var n := |es| - 1;
      var u, v := CutParticles(types, es, w, d);
      LeafSequenceBack(types, es[..n], u, d);
      LeafParticle(types, es[n], v, d);
      LeafParticle(map[], es[n], v, 0);
      SequenceStep(es[..n], es[n], u, v);
      assert es[..n] + [es[n]] == es;
    }
  }

  /** What the content becomes. */
  function Sum(types: MetaTypes, ident: TypeIdent, r: nat): seq<ElementMeta>
    requires HasContent(types, ident) && IsSequence(types, ContentOf(types, ident))
  {
    var es := Particles(types, ident);
    Tallied(es[..Leading(es)], Rest(types, es, r))
  }

  lemma SumLeaves(types: MetaTypes, ident: TypeIdent, r: nat)
    requires NestedContent(types, ident, r)
    ensures AllLeaves(Sum(types, ident, r))
  {
    var es := Particles(types, ident);
    LeadingLeaves(types, es, r);
    LeavesIdents(types, es, r);
    TalliedIdents(es[..Leading(es)], Rest(types, es, r), PropertyIdent(UNKNOWN, Named("")));
  }

  /** The identifiers of the leaves in document order, and the number of leading ones. */
  function LeafIdents(types: MetaTypes, ident: TypeIdent, r: nat): seq<PropertyIdent>
    requires HasContent(types, ident) && IsSequence(types, ContentOf(types, ident))
  {
    KindLeaves(types, SequenceKind, Particles(types, ident), r)
  }

  /**
    No word is lost if each leaf behind the leading ones has an identifier that
    is new or the same as all leaves from its first occurrence on. This holds
    for all bounds of the leaves and of the type.
   */
  lemma GroupedSequencesKeepWords(types: MetaTypes, ident: TypeIdent, r: nat)
    requires NestedContent(types, ident, r) && FlattenComplexType(types, ident).Ok?
    requires GroupedFrom(LeafIdents(types, ident, r), Leading(Particles(types, ident)))
    ensures WordsKept(types, FlattenComplexType(types, ident).value, ident)
  {
    var types' := FlattenComplexType(types, ident).value;
    var t := ContentOf(types, ident);
    ContentSummed(types, ident, r);
    SumLeaves(types, ident, r);
    var e, e' := ContentParticle(types[ident].variant.complex), ContentParticle(types'[ident].variant.complex);
    forall w | ComplexAccepts(types, ident, w)
      ensures ComplexAccepts(types', ident, w)
    {
      var d: nat :| Particle(types, e, w, d);
      var k: nat :| e.Bounds().Has(k) && Times(types, e, k, w, d);
      forall u | Once(types, e, u, d)
        ensures Once(types', e', u, 1)
      {
        OccurrenceKept(types, ident, r, u, d - 1);
        LeafSequence(types', Sum(types, ident, r), u, 0);
        assert VariantAccepts(types', types'[t].variant, u, 0);
      }
      TimesTransfer(types, e, types', e', k, w, d, 1);
      assert Particle(types', e', w, 1);
    }
  }

  lemma OccurrenceKept(types: MetaTypes, ident: TypeIdent, r: nat, u: Word, d: nat)
    requires NestedContent(types, ident, r) && GroupAccepts(types, ContentOf(types, ident), u, d)
    requires GroupedFrom(LeafIdents(types, ident, r), Leading(Particles(types, ident)))
    ensures SequenceOf(map[], Sum(types, ident, r), u, 0)
  {
    var es := Particles(types, ident);
    assert VariantAccepts(types, types[ContentOf(types, ident)].variant, u, d);
    LeavesAccept(types, es, r, u, d);
    LeadingLeaves(types, es, r);
    LeavesIdents(types, es, r);
    GroupedKeeps(es[..Leading(es)], Rest(types, es, r), u);
  }

  /** A word with every leaf in it: accepted before. */
  lemma FullWordBefore(types: MetaTypes, ident: TypeIdent, r: nat)
    requires NestedContent(types, ident, r) && types[ident].variant.complex.Bounds().Has(1)
    ensures ComplexAccepts(types, ident, FullWord(Leaves(types, Particles(types, ident), r)))
  {
    var es := Particles(types, ident);
    var w := FullWord(Leaves(types, es, r));
    LeavesIdents(types, es, r);
    FullWordAccepted(Leaves(types, es, r));
    AcceptedByNesting(types, es, r, w, r);
    assert VariantAccepts(types, types[ContentOf(types, ident)].variant, w, r);
    SingleOccurrence(types, ContentParticle(types[ident].variant.complex), w, r + 1);
  }

  /** And not accepted any more, if equal identifiers are apart. */
  lemma FullWordAfter(types: MetaTypes, ident: TypeIdent, r: nat)
    requires NestedContent(types, ident, r) && FlattenComplexType(types, ident).Ok?
    requires types[ident].variant.complex.maxOccurs == Bounded(1)
    requires Adjacent(IdentsOf(Particles(types, ident)[..Leading(Particles(types, ident))]))
    requires !Adjacent(LeafIdents(types, ident, r))
    ensures !ComplexAccepts(FlattenComplexType(types, ident).value, ident,
                            FullWord(Leaves(types, Particles(types, ident), r)))
  {
    var types' := FlattenComplexType(types, ident).value;
    var es := Particles(types, ident);
    var w := FullWord(Leaves(types, es, r));
    ContentSummed(types, ident, r);
    LeadingLeaves(types, es, r);
    LeavesIdents(types, es, r);
    SumLeaves(types, ident, r);
    FullWordLost(es[..Leading(es)], Rest(types, es, r));
    if w == [] {
      FullWordAdjacent(Leaves(types, es, r));
    }
    var e' := ContentParticle(types'[ident].variant.complex);
    forall d: nat
      ensures !Particle(types', e', w, d)
    {
      if Particle(types', e', w, d) {
        AtMostOnce(types', e', w, d);
        assert VariantAccepts(types', types'[ContentOf(types, ident)].variant, w, d - 1);
        LeafSequenceBack(types', Sum(types, ident, r), w, d - 1);
      }
    }
  }

  /**
    Flattening nested sequences keeps every word of a type exactly if equal
    identifiers are adjacent among the leaves: for a content that occurs at
    most once, and whose leading leaves, which are copied as they are, have no
    equal identifiers apart.
   */
  lemma SequencesKeepAllIff(types: MetaTypes, ident: TypeIdent, r: nat)
    requires NestedContent(types, ident, r) && FlattenComplexType(types, ident).Ok?
    requires types[ident].variant.complex.minOccurs <= 1 && types[ident].variant.complex.maxOccurs == Bounded(1)
    requires Adjacent(IdentsOf(Particles(types, ident)[..Leading(Particles(types, ident))]))
    ensures WordsKept(types, FlattenComplexType(types, ident).value, ident) <==> Adjacent(LeafIdents(types, ident, r))
  {
    var es := Particles(types, ident);
    if Adjacent(LeafIdents(types, ident, r)) {
      LeadingLeaves(types, es, r);
      LeavesIdents(types, es, r);
      AppendIdents(es[..Leading(es)], Rest(types, es, r));
      IdentsLength(es[..Leading(es)]);
      AdjacentGrouped(LeafIdents(types, ident, r), Leading(es));
      GroupedSequencesKeepWords(types, ident, r);
    } else {
      FullWordBefore(types, ident, r);
      FullWordAfter(types, ident, r);
    }
  }
}
