/**
  The main results about flattening one complex type: it accepts every word of
  children it accepted before.
 */
module FlattenTheorems {
  import opened Wrappers
  import opened Occurs
  import opened Meta
  import opened ContentModel
  import opened Flatten
  import opened FlattenWords

  // ---------- One complex type

  predicate HasContent(types: MetaTypes, ident: TypeIdent) {
    ident in types && types[ident].variant.ComplexType? && types[ident].variant.complex.content.Some?
  }

  function ContentOf(types: MetaTypes, ident: TypeIdent): TypeIdent
    requires HasContent(types, ident)
  {
    types[ident].variant.complex.content.value
  }

  /** The groups below the content form a tree. */
  ghost predicate Finite(types: MetaTypes, ident: TypeIdent, r: nat) {
    HasContent(types, ident) && r < MAX_DEPTH && FiniteTree(types, ContentOf(types, ident), r)
  }

  /** The groups below the content form a tree, and choices repeat no identifier. */
  ghost predicate WellFormed(types: MetaTypes, ident: TypeIdent, r: nat) {
    Finite(types, ident, r) && ChoicesOk(types, ContentOf(types, ident), r)
  }

  /** A content that is still a sequence after something was merged into it had no repeated identifiers. */
  ghost predicate OrderKept(types: MetaTypes, types': MetaTypes, t: TypeIdent, r: nat) {
    && t in types && t in types' && types[t].variant.IsGroup()
    && (types'[t].variant.Sequence? && types' != types ==>
          NoRepeat(KindLeaves(types, SequenceKind, types[t].variant.group.elements, r)))
  }

  lemma {:induction false} TimesTransfer(
    types: MetaTypes, e: ElementMeta, types': MetaTypes, e': ElementMeta, k: nat, w: Word, d: nat, d': nat)
    requires Times(types, e, k, w, d)
    requires forall u | Once(types, e, u, d) :: Once(types', e', u, d')
    ensures Times(types', e', k, w, d')
    decreases k
  {
    if k > 0 {
      var i :| 0 <= i <= |w| && Times(types, e, k - 1, w[..i], d) && Once(types, e, w[i..], d);
      TimesTransfer(types, e, types', e', k - 1, w[..i], d, d');
    }
  }

  lemma SingleOccurrence(types: MetaTypes, e: ElementMeta, w: Word, d: nat)
    requires Once(types, e, w, d) && e.Bounds().Has(1)
    ensures Particle(types, e, w, d)
  {
    assert w[..0] == [] && w[0..] == w;
    assert Times(types, e, 0, w[..0], d);
    assert Times(types, e, 1, w, d);
  }

  /** A word of single letters is a repetition of a group that accepts each of them. */
  lemma {:induction false} TimesLetterwise(types: MetaTypes, e: ElementMeta, w: Word, d: nat)
    requires forall x | x in w :: Once(types, e, [x], d)
    ensures Times(types, e, |w|, w, d)
    decreases |w|
  {
    if w != [] {
      var n := |w| - 1;
      TimesLetterwise(types, e, w[..n], d);
      assert w[n..] == [w[n]] && w[n] in w;
    }
  }

  lemma SingleAlternative(types: MetaTypes, es: seq<ElementMeta>, x: PropertyIdent, d: nat)
    requires AllLeaves(es) && AllSingle(es) && x in IdentsOf(es)
    ensures ChoiceOf(types, es, [x], d)
  {
    if es != [] {
      IdentAt(es, 0);
    }
    var j :| 0 <= j < |IdentsOf(es)| && IdentsOf(es)[j] == x;
    IdentAt(es, j);
    LeafParticle(types, es[j], [x], d);
    assert es[j].Bounds().Has(1);
    assert Power(x, 1) == [x];
  }

  /** The eager flattener on the content group of a complex type. */
  lemma ContentFlattened(types: MetaTypes, ident: TypeIdent, r: nat) returns (g: MetaTypeVariant, s: Flat)
    requires WellFormed(types, ident, r) && FlattenComplexType(types, ident).Ok?
    ensures g == types[ContentOf(types, ident)].variant && g.IsGroup()
    ensures Exec(Config(types, MAX_DEPTH, true), ContentOf(types, ident), 0) == Ok(s)
    ensures Shaped(types, s, KindOf(g), g.group.elements, r)
    ensures var tidy := NoRepeat(KindLeaves(types, KindOf(g), g.group.elements, r));
            forall w, d | GroupAccepts(types, ContentOf(types, ident), w, d) :: Represents(s, w, tidy)
  {
    var c := Config(types, MAX_DEPTH, true);
    var t := ContentOf(types, ident);
    g := types[t].variant;
    s := Exec(c, t, 0).value;
    var es := g.group.elements;
    assert Runs(c, es, 0, r);
    ElementsShape(c, KindOf(g), g.group.isMixed, es, 0, r);
    forall w, d | GroupAccepts(types, t, w, d)
      ensures Represents(s, w, NoRepeat(KindLeaves(types, KindOf(g), es, r)))
    {
      assert VariantAccepts(types, g, w, d);
      ElementsRepresented(c, KindOf(g), g.group.isMixed, es, 0, r, w, d);
    }
  }

  /** The rewritten type graph: the new content, and the complex type with scaled bounds. */
  lemma RewrittenTypes(types: MetaTypes, ident: TypeIdent, s: Flat)
    requires HasContent(types, ident) && ContentOf(types, ident) in types
    requires types[ContentOf(types, ident)].variant.IsGroup()
    requires Exec(Config(types, MAX_DEPTH, true), ContentOf(types, ident), 0) == Ok(s) && s.touched
    ensures FlattenComplexType(types, ident).Ok?
    ensures var types' := FlattenComplexType(types, ident).value;
            var (occurs, variant) := VariantOf(s).value;
            && HasContent(types', ident) && ContentOf(types', ident) == ContentOf(types, ident)
            && ContentOf(types, ident) in types' && types'[ContentOf(types, ident)].variant == variant
            && ContentParticle(types'[ident].variant.complex)
                 == Scale(ContentParticle(types[ident].variant.complex), occurs)
  {
  }

  lemma PlainWord(types: MetaTypes, s: Flat, kind: Kind, u: Word)
    requires s.mode == Plain(kind) && AllLeaves(s.elements)
    requires Represents(s, u, true)
    ensures KindAccepts(types, kind, s.elements, u, 0)
  {
    match kind
    case AllKind =>
      forall id: PropertyIdent
        ensures CountRange(s.elements, Only(id)).Has(multiset(u)[id])
      {
        assert CountRange(s.elements, Only(id)).Has(Count(u, Only(id)));
      }
      AllCounts(types, s.elements, u, 0);
    case ChoiceKind => LeafChoice(types, s.elements, u, 0);
    case SequenceKind => LeafSequence(types, s.elements, u, 0);
  }

  /** The state the content of a complex type is flattened to. */
  function FlatContent(types: MetaTypes, ident: TypeIdent): Result<Flat, Error>
    requires HasContent(types, ident)
  {
    Exec(Config(types, MAX_DEPTH, true), ContentOf(types, ident), 0)
  }

  /** Where the groups keep their kind, the flattened group accepts each word of the nested ones, repetition by repetition. */
  lemma PlainLosesNoWord(types: MetaTypes, ident: TypeIdent, r: nat, w: Word)
    requires WellFormed(types, ident, r) && FlattenComplexType(types, ident).Ok?
    requires FlatContent(types, ident).value.touched && FlatContent(types, ident).value.mode.Plain?
    requires var v := types[ContentOf(types, ident)].variant;
             v.Sequence? ==> NoRepeat(KindLeaves(types, SequenceKind, v.group.elements, r))
    requires ComplexAccepts(types, ident, w)
    ensures ComplexAccepts(FlattenComplexType(types, ident).value, ident, w)
  {
    var g, s := ContentFlattened(types, ident, r);
    var t := ContentOf(types, ident);
    var types' := FlattenComplexType(types, ident).value;
    RewrittenTypes(types, ident, s);
    var e, e' := ContentParticle(types[ident].variant.complex), ContentParticle(types'[ident].variant.complex);
    var d: nat :| Particle(types, e, w, d);
    var k: nat :| e.Bounds().Has(k) && Times(types, e, k, w, d);
    forall u | Once(types, e, u, d)
      ensures Once(types', e', u, 1)
    {
      assert GroupAccepts(types, t, u, d - 1);
      PlainWord(types', s, KindOf(g), u);
      assert VariantAccepts(types', types'[t].variant, u, 0);
    }
    TimesTransfer(types, e, types', e', k, w, d, 1);
    assert Particle(types', e', w, 1);
  }

  /**
    Where the groups become one mixed choice, each word of the type consists of
    flattened identifiers, and its length lies in the updated bounds.
   */
  lemma MixedBounds(types: MetaTypes, ident: TypeIdent, r: nat, w: Word)
    requires WellFormed(types, ident, r) && FlattenComplexType(types, ident).Ok?
    requires FlatContent(types, ident).value.mode.Mixed?
    requires ComplexAccepts(types, ident, w)
    ensures var types' := FlattenComplexType(types, ident).value;
            && HasContent(types', ident) && ContentOf(types', ident) in types'
            && types'[ContentOf(types', ident)].variant.Choice?
            && LettersIn(types'[ContentOf(types', ident)].variant.group.elements, w)
            && types'[ident].variant.complex.Bounds().Has(|w|)
  {
    var g, s := ContentFlattened(types, ident, r);
    var t := ContentOf(types, ident);
    RewrittenTypes(types, ident, s);
    var e := ContentParticle(types[ident].variant.complex);
    var o := s.mode.occurs;
    var d: nat :| Particle(types, e, w, d);
    forall u | Once(types, e, u, d)
      ensures o.Has(|u|) && LettersIn(s.elements, u)
    {
      assert GroupAccepts(types, t, u, d - 1);
    }
    ParticleLength(types, e, o, w, d);
    var k: nat :| e.Bounds().Has(k) && Times(types, e, k, w, d);
    TimesLetters(types, e, k, w, d, s.elements);
    assert o.min * e.minOccurs == e.minOccurs * o.min;
  }

  /** So the mixed choice, child by child, accepts it. */
  lemma MixedLosesNoWord(types: MetaTypes, ident: TypeIdent, r: nat, w: Word)
    requires WellFormed(types, ident, r) && FlattenComplexType(types, ident).Ok?
    requires FlatContent(types, ident).value.mode.Mixed?
    requires ComplexAccepts(types, ident, w)
    ensures ComplexAccepts(FlattenComplexType(types, ident).value, ident, w)
  {
    var g, s := ContentFlattened(types, ident, r);
    var t := ContentOf(types, ident);
    var types' := FlattenComplexType(types, ident).value;
    RewrittenTypes(types, ident, s);
    MixedBounds(types, ident, r, w);
    var e' := ContentParticle(types'[ident].variant.complex);
    forall x | x in w
      ensures Once(types', e', [x], 1)
    {
      SingleAlternative(types', s.elements, x, 0);
      assert VariantAccepts(types', types'[t].variant, [x], 0);
    }
    TimesLetterwise(types', e', w, 1);
    assert e'.Bounds().Has(|w|);
    assert Particle(types', e', w, 1);
  }

  /**
    Flattening a complex type loses no word: neither when the groups keep their
    kind nor when they become one mixed choice whose bounds move to the complex
    type.
   */
  lemma FlattenLosesNoWord(types: MetaTypes, ident: TypeIdent, r: nat, w: Word)
    requires WellFormed(types, ident, r)
    requires FlattenComplexType(types, ident).Ok?
    requires OrderKept(types, FlattenComplexType(types, ident).value, ContentOf(types, ident), r)
    requires ComplexAccepts(types, ident, w)
    ensures ComplexAccepts(FlattenComplexType(types, ident).value, ident, w)
  {
    var g, s := ContentFlattened(types, ident, r);
    if s.touched && FlattenComplexType(types, ident).value != types {
      if s.mode.Mixed? {
        MixedLosesNoWord(types, ident, r, w);
      } else {
        RewrittenTypes(types, ident, s);
        PlainLosesNoWord(types, ident, r, w);
      }
    }
  }

  /**
    Also with repeated identifiers a content that stays a sequence admits every
    identifier as often as before; only the order may be lost.
   */
  lemma SequenceKeepsCounts(types: MetaTypes, ident: TypeIdent, r: nat, u: Word, d: nat)
    requires WellFormed(types, ident, r)
    requires FlattenComplexType(types, ident).Ok? && FlattenComplexType(types, ident).value != types
    requires var t := ContentOf(types, ident);
             GroupAccepts(types, t, u, d) && t in FlattenComplexType(types, ident).value
             && FlattenComplexType(types, ident).value[t].variant.Sequence?
    ensures CountsWithin(FlattenComplexType(types, ident).value[ContentOf(types, ident)].variant.group.elements, u)
  {
    var g, s := ContentFlattened(types, ident, r);
  }

  // ---------- Conditions on the groups before

  /** Well-formed content; a sequence that has something to flatten repeats no identifier. */
  ghost predicate Flattenable(types: MetaTypes, ident: TypeIdent, r: nat) {
    && WellFormed(types, ident, r)
    && var v := types[ContentOf(types, ident)].variant;
    v.Sequence? && !AllLeaves(v.group.elements) ==> NoRepeat(KindLeaves(types, SequenceKind, v.group.elements, r))
  }

  /** No nested group is one that is flattened: one with a generated name, or any if named groups are flattened, too. */
  ghost predicate NothingToFlatten(c: Config, es: seq<ElementMeta>) {
    forall i | 0 <= i < |es| && es[i].IsGroup() :: es[i].ident.name.Named? && !c.flattenNamedGroups
  }

  /** Then a content is not touched, in particular one without nested groups. */
  lemma {:induction false} LeavesUntouched(c: Config, kind: Kind, isMixed: bool, es: seq<ElementMeta>, depth: nat)
    requires depth < c.maxDepth && (AllLeaves(es) || NothingToFlatten(c, es))
    ensures ExecElements(c, kind, isMixed, es, depth) == Ok(Flat(kind, Plain(kind), isMixed, es, false))
    decreases |es|
  {
    if es != [] {
      var n := |es| - 1;
      LeavesUntouched(c, kind, isMixed, es[..n], depth);
      assert es == es[..n] + [es[n]];
    }
  }

  /** At the depth limit a group is taken as it is. */
  lemma DepthLimit(c: Config, ident: TypeIdent)
    requires ident in c.types && c.types[ident].variant.IsGroup()
    ensures var v := c.types[ident].variant;
            Exec(c, ident, c.maxDepth) == Ok(Flat(KindOf(v), Plain(KindOf(v)), v.group.isMixed, v.group.elements, false))
  {
  }

  lemma FlattenableLosesNoWord(types: MetaTypes, ident: TypeIdent, r: nat, w: Word)
    requires Flattenable(types, ident, r) && FlattenComplexType(types, ident).Ok?
    requires ComplexAccepts(types, ident, w)
    ensures ComplexAccepts(FlattenComplexType(types, ident).value, ident, w)
  {
    var t := ContentOf(types, ident);
    var v := types[t].variant;
    if AllLeaves(v.group.elements) {
      LeavesUntouched(Config(types, MAX_DEPTH, true), KindOf(v), v.group.isMixed, v.group.elements, 0);
    } else {
      var g, s := ContentFlattened(types, ident, r);
      FlattenLosesNoWord(types, ident, r, w);
    }
  }
}
