/**
  The meaning of content models: which words of children an `all`, `choice` or
  `sequence` group accepts (sections 3.8.4 and 3.9.4 of XML Schema Part 1:
  Structures). A word lists, child by child, the identifier of the element
  declaration (or wildcard) the child is matched with.

  A group may reach other groups through its elements, so acceptance carries
  the number `d` of nested groups a derivation may pass through; a word belongs
  to the group if some `d` derives it.
 */
module ContentModel {
  import opened Wrappers
  import opened Occurs
  import opened Meta

  type Word = seq<PropertyIdent>

  /** One occurrence of `e`: the child itself, or one word of the nested group. */
  ghost predicate Once(types: MetaTypes, e: ElementMeta, w: Word, d: nat)
    decreases d, 0
  {
    if e.IsGroup() then d > 0 && GroupAccepts(types, e.variant.type_, w, d - 1)
    else w == [e.ident]
  }

  /** `k` occurrences of `e`, one after the other. */
  ghost predicate Times(types: MetaTypes, e: ElementMeta, k: nat, w: Word, d: nat)
    decreases d, 1, k
  {
    if k == 0 then w == []
    else exists i | 0 <= i <= |w| :: Times(types, e, k - 1, w[..i], d) && Once(types, e, w[i..], d)
  }

  /** A particle: as many occurrences of `e` as its bounds admit. */
  ghost predicate Particle(types: MetaTypes, e: ElementMeta, w: Word, d: nat)
    decreases d, 2
  {
    exists k: nat :: e.Bounds().Has(k) && Times(types, e, k, w, d)
  }

  /** The particles in order. */
  ghost predicate SequenceOf(types: MetaTypes, es: seq<ElementMeta>, w: Word, d: nat)
    decreases d, 3, |es|
  {
    if es == [] then w == []
    else exists i | 0 <= i <= |w| ::
      SequenceOf(types, es[..|es| - 1], w[..i], d) && Particle(types, es[|es| - 1], w[i..], d)
  }

  /** Exactly one of the particles. */
  ghost predicate ChoiceOf(types: MetaTypes, es: seq<ElementMeta>, w: Word, d: nat)
    decreases d, 3, |es|
  {
    exists j | 0 <= j < |es| :: Particle(types, es[j], w, d)
  }

  /** `w` is a merge of `u` and `v` that keeps the order inside each of them. */
  ghost predicate Interleaves(u: Word, v: Word, w: Word)
    decreases |w|
  {
    if w == [] then u == [] && v == []
    else
      || (u != [] && u[|u| - 1] == w[|w| - 1] && Interleaves(u[..|u| - 1], v, w[..|w| - 1]))
      || (v != [] && v[|v| - 1] == w[|w| - 1] && Interleaves(u, v[..|v| - 1], w[..|w| - 1]))
  }

  /** All of the particles, in any order. */
  ghost predicate AllOf(types: MetaTypes, es: seq<ElementMeta>, w: Word, d: nat)
    decreases d, 3, |es|
  {
    if es == [] then w == []
    else exists u, v ::
      AllOf(types, es[..|es| - 1], u, d) && Particle(types, es[|es| - 1], v, d) && Interleaves(u, v, w)
  }

  ghost predicate GroupAccepts(types: MetaTypes, t: TypeIdent, w: Word, d: nat)
    decreases d, 5
  {
    t in types && VariantAccepts(types, types[t].variant, w, d)
  }

  ghost predicate VariantAccepts(types: MetaTypes, variant: MetaTypeVariant, w: Word, d: nat)
    decreases d, 4
  {
    match variant
    case All(g) => AllOf(types, g.elements, w, d)
    case Choice(g) => ChoiceOf(types, g.elements, w, d)
    case Sequence(g) => SequenceOf(types, g.elements, w, d)
    case _ => false
  }

  /** The content of a complex type, seen as a particle: its content group, `minOccurs..maxOccurs` times. */
  function ContentParticle(ci: ComplexMeta): ElementMeta
    requires ci.content.Some?
  {
    ElementMeta(PropertyIdent(UNKNOWN, Named("content")), Typed(ci.content.value, GroupMode), "", false,
                ci.minOccurs, ci.maxOccurs, None, [])
  }

  /** The language of a complex type. */
  ghost predicate ComplexAccepts(types: MetaTypes, ident: TypeIdent, w: Word) {
    && ident in types
    && types[ident].variant.ComplexType?
    && types[ident].variant.complex.content.Some?
    && exists d: nat :: Particle(types, ContentParticle(types[ident].variant.complex), w, d)
  }

  // ---------- Leaf particles

  function Power(x: PropertyIdent, k: nat): (w: Word)
    ensures |w| == k
  {
    seq(k, _ => x)
  }

  /** What a leaf particle accepts, without reference to the type graph. */
  ghost predicate LeafAccepts(e: ElementMeta, w: Word) {
    e.Bounds().Has(|w|) && w == Power(e.ident, |w|)
  }

  lemma PowerSnoc(x: PropertyIdent, k: nat)
    requires k > 0
    ensures Power(x, k)[..k - 1] == Power(x, k - 1) && Power(x, k)[k - 1..] == [x]
    ensures Power(x, k) == Power(x, k - 1) + [x]
  {
  }

  /** One more occurrence of a leaf is one more letter. */
  lemma LeafStep(types: MetaTypes, e: ElementMeta, k: nat, w: Word, i: nat, d: nat)
    requires !e.IsGroup() && k > 0 && i <= |w|
    ensures w[..i] == Power(e.ident, k - 1) && Once(types, e, w[i..], d) ==> w == Power(e.ident, k)
    ensures w == Power(e.ident, k) && i == k - 1 ==> w[..i] == Power(e.ident, k - 1) && Once(types, e, w[i..], d)
  {
    PowerSnoc(e.ident, k);
    assert w == w[..i] + w[i..];
  }

  lemma {:induction false} LeafTimes(types: MetaTypes, e: ElementMeta, k: nat, w: Word, d: nat)
    requires !e.IsGroup()
    ensures Times(types, e, k, w, d) <==> w == Power(e.ident, k)
    decreases k
  {
    if k == 0 {
      assert Power(e.ident, 0) == [];
    } else {
      if Times(types, e, k, w, d) {
        var i :| 0 <= i <= |w| && Times(types, e, k - 1, w[..i], d) && Once(types, e, w[i..], d);
        LeafTimes(types, e, k - 1, w[..i], d);
        LeafStep(types, e, k, w, i, d);
      }
      if w == Power(e.ident, k) {
        LeafStep(types, e, k, w, k - 1, d);
        LeafTimes(types, e, k - 1, w[..k - 1], d);
      }
    }
  }

  lemma LeafParticle(types: MetaTypes, e: ElementMeta, w: Word, d: nat)
    requires !e.IsGroup()
    ensures Particle(types, e, w, d) <==> LeafAccepts(e, w)
  {
    forall k: nat {
      LeafTimes(types, e, k, w, d);
    }
  }

  // ---------- Repetition

  function Repeat(u: Word, k: nat): Word {
    if k == 0 then [] else Repeat(u, k - 1) + u
  }

  lemma {:induction false} TimesRepeat(types: MetaTypes, e: ElementMeta, u: Word, k: nat, d: nat)
    requires k > 0 ==> Once(types, e, u, d)
    ensures Times(types, e, k, Repeat(u, k), d)
    decreases k
  {
    if k > 0 {
      TimesRepeat(types, e, u, k - 1, d);
      var v := Repeat(u, k - 1);
      var w := Repeat(u, k);
      assert w[..|v|] == v && w[|v|..] == u;
    }
  }

  // ---------- Interleaving

  lemma LastCounted(w: Word)
    requires w != []
    ensures multiset(w) == multiset(w[..|w| - 1]) + multiset{w[|w| - 1]}
  {
    assert w == w[..|w| - 1] + [w[|w| - 1]];
  }

  lemma {:induction false} InterleavesCounts(u: Word, v: Word, w: Word)
    requires Interleaves(u, v, w)
    ensures |w| == |u| + |v| && multiset(w) == multiset(u) + multiset(v)
    decreases |w|
  {
    if w != [] {
      LastCounted(w);
      if u != [] && u[|u| - 1] == w[|w| - 1] && Interleaves(u[..|u| - 1], v, w[..|w| - 1]) {
        InterleavesCounts(u[..|u| - 1], v, w[..|w| - 1]);
        LastCounted(u);
      } else {
        InterleavesCounts(u, v[..|v| - 1], w[..|w| - 1]);
        LastCounted(v);
      }
    }
  }

  lemma {:induction false} InterleavesAppend(u: Word, v: Word)
    ensures Interleaves(u, v, u + v)
    decreases |u| + |v|
  {
    var w := u + v;
    if v != [] {
      InterleavesAppend(u, v[..|v| - 1]);
      assert w[..|w| - 1] == u + v[..|v| - 1];
    } else if u != [] {
      InterleavesAppend(u[..|u| - 1], v);
      assert w[..|w| - 1] == u[..|u| - 1] + v;
    }
  }
}
