/**
  What a content model depends on: two type graphs that have the same groups,
  as far as nesting leads, give the same words, trees and identifiers.
 */
module GroupFrames {
  import opened Wrappers
  import opened Occurs
  import opened Meta
  import opened Relations
  import opened GroupGraph
  import opened ContentModel
  import opened Flatten
  import opened FlattenWords
  import opened FlattenTheorems

  type Types = iset<TypeIdent>

  /** The elements refer to no group outside of `keep`. */
  ghost predicate Within(es: seq<ElementMeta>, keep: Types) {
    forall i | 0 <= i < |es| && es[i].IsGroup() :: es[i].variant.type_ in keep
  }

  /** Nesting does not lead out of `keep`. */
  ghost predicate ClosedUnder(types: MetaTypes, keep: Types) {
    forall x | x in keep && IsGroupType(types, x) :: Within(Elements(types, x), keep)
  }

  ghost predicate SameGroup(types: MetaTypes, types': MetaTypes, x: TypeIdent) {
    && (IsGroupType(types, x) <==> IsGroupType(types', x))
    && (IsGroupType(types, x) ==> types'[x].variant == types[x].variant)
  }

  /** Both have the same groups in `keep`. */
  ghost predicate SameOn(types: MetaTypes, types': MetaTypes, keep: Types) {
    ClosedUnder(types, keep) && forall x | x in keep :: SameGroup(types, types', x)
  }

  lemma SameElements(types: MetaTypes, types': MetaTypes, keep: Types, x: TypeIdent)
    requires SameOn(types, types', keep) && x in keep && IsGroupType(types, x)
    ensures IsGroupType(types', x) && types'[x].variant == types[x].variant && Within(Elements(types, x), keep)
  {
    assert SameGroup(types, types', x);
  }

  lemma {:induction false} FrameTree(types: MetaTypes, types': MetaTypes, keep: Types, es: seq<ElementMeta>, r: nat)
    requires SameOn(types, types', keep) && Within(es, keep) && FiniteElements(types, es, r)
    ensures FiniteElements(types', es, r)
    decreases r
  {
    forall i | 0 <= i < |es| && es[i].IsGroup()
      ensures r > 0 && FiniteTree(types', es[i].variant.type_, r - 1)
    {
      assert FiniteTree(types, es[i].variant.type_, r - 1);
      SameElements(types, types', keep, es[i].variant.type_);
      FrameTree(types, types', keep, types[es[i].variant.type_].variant.group.elements, r - 1);
    }
  }

  lemma {:induction false} FrameLeaves(
    types: MetaTypes, types': MetaTypes, keep: Types, kind: Kind, es: seq<ElementMeta>, r: nat)
    requires SameOn(types, types', keep) && Within(es, keep)
    ensures KindLeaves(types', kind, es, r) == KindLeaves(types, kind, es, r)
    decreases r, |es|
  {
    if es != [] {
      FrameLeaves(types, types', keep, kind, es[..|es| - 1], r);
      var e := es[|es| - 1];
      if e.IsGroup() {
        assert SameGroup(types, types', e.variant.type_);
        if r > 0 && HasKind(types, e.variant.type_, kind) {
          SameElements(types, types', keep, e.variant.type_);
          FrameLeaves(types, types', keep, kind, types[e.variant.type_].variant.group.elements, r - 1);
        }
      }
    }
  }

  lemma {:induction false} FrameChoices(
    types: MetaTypes, types': MetaTypes, keep: Types, kind: Kind, es: seq<ElementMeta>, r: nat)
    requires SameOn(types, types', keep) && Within(es, keep) && ChoiceElementsOk(types, kind, es, r)
    ensures ChoiceElementsOk(types', kind, es, r)
    decreases r
  {
    FrameLeaves(types, types', keep, kind, es, r);
    forall i | 0 <= i < |es| && es[i].IsGroup() && r > 0
      ensures ChoicesOk(types', es[i].variant.type_, r - 1)
      ensures types'[es[i].variant.type_].variant == types[es[i].variant.type_].variant
    {
      assert ChoicesOk(types, es[i].variant.type_, r - 1);
      SameElements(types, types', keep, es[i].variant.type_);
      var v := types[es[i].variant.type_].variant;
      FrameChoices(types, types', keep, KindOf(v), v.group.elements, r - 1);
    }
  }

  /** Acceptance does not look beyond the groups nesting leads to. */
  lemma {:induction false} FrameGroup(types: MetaTypes, types': MetaTypes, keep: Types, x: TypeIdent, w: Word, d: nat)
    requires SameOn(types, types', keep) && x in keep && GroupAccepts(types, x, w, d)
    ensures GroupAccepts(types', x, w, d)
    decreases d, 1, 0
  {
    var v := types[x].variant;
    assert VariantAccepts(types, v, w, d);
    SameElements(types, types', keep, x);
    FrameElements(types, types', keep, KindOf(v), v.group.elements, w, d);
    assert VariantAccepts(types', v, w, d);
  }

  lemma {:induction false} FrameElements(
    types: MetaTypes, types': MetaTypes, keep: Types, kind: Kind, es: seq<ElementMeta>, w: Word, d: nat)
    requires SameOn(types, types', keep) && Within(es, keep) && KindAccepts(types, kind, es, w, d)
    ensures KindAccepts(types', kind, es, w, d)
    decreases d, 0, |es|
  {
    if kind.ChoiceKind? {
      var j :| 0 <= j < |es| && Particle(types, es[j], w, d);
      FrameParticle(types, types', keep, es[j], w, d);
    } else if es != [] {
      var n := |es| - 1;
      if kind.SequenceKind? {
        var i :| 0 <= i <= |w| && SequenceOf(types, es[..n], w[..i], d) && Particle(types, es[n], w[i..], d);
        FrameElements(types, types', keep, kind, es[..n], w[..i], d);
        FrameParticle(types, types', keep, es[n], w[i..], d);
      } else {
        var u, v :| AllOf(types, es[..n], u, d) && Particle(types, es[n], v, d) && Interleaves(u, v, w);
        FrameElements(types, types', keep, kind, es[..n], u, d);
        FrameParticle(types, types', keep, es[n], v, d);
      }
    }
  }

  lemma {:induction false} FrameParticle(types: MetaTypes, types': MetaTypes, keep: Types, e: ElementMeta, w: Word, d: nat)
    requires SameOn(types, types', keep) && (e.IsGroup() ==> e.variant.type_ in keep) && Particle(types, e, w, d)
    ensures Particle(types', e, w, d)
    decreases d, 0, 0
  {
    var k: nat :| e.Bounds().Has(k) && Times(types, e, k, w, d);
    forall u | Once(types, e, u, d)
      ensures Once(types', e, u, d)
    {
      if e.IsGroup() {
        FrameGroup(types, types', keep, e.variant.type_, u, d - 1);
      }
    }
    TimesTransfer(types, e, types', e, k, w, d, d);
  }

  // ---------- The groups below a group

  /** The groups nesting leads to from `t`, over at least `least` steps. */
  ghost function Below(types: MetaTypes, t: TypeIdent, least: nat): Types {
    iset x | ReachesAfter(NestGraph(types), t, x, least)
  }

  lemma BelowClosed(types: MetaTypes, t: TypeIdent, least: nat)
    ensures ClosedUnder(types, Below(types, t, least))
  {
    forall x, i | x in Below(types, t, least) && IsGroupType(types, x)
                  && 0 <= i < |Elements(types, x)| && Elements(types, x)[i].IsGroup()
      ensures Elements(types, x)[i].variant.type_ in Below(types, t, least)
    {
      NestedBelow(types, t, least, x, i);
    }
  }

  lemma NestedBelow(types: MetaTypes, t: TypeIdent, least: nat, x: TypeIdent, i: nat)
    requires x in Below(types, t, least) && IsGroupType(types, x)
    requires i < |Elements(types, x)| && Elements(types, x)[i].IsGroup()
    ensures Elements(types, x)[i].variant.type_ in Below(types, t, least)
  {
    var y := Elements(types, x)[i].variant.type_;
    NestedEdge(types, x, i);
    EdgeReaches(NestGraph(types), x, y);
    ReachesJoin(NestGraph(types), t, x, y, least, 1);
    var n: nat :| n >= least + 1 && Steps(NestGraph(types), t, y, n);
    assert n >= least;
  }

  lemma SelfBelow(types: MetaTypes, t: TypeIdent)
    ensures t in Below(types, t, 0)
  {
    assert Steps(NestGraph(types), t, t, 0);
  }

  // ---------- Steps of a pass over complex types

  /** Groups stay groups, and complex types keep their content type. */
  ghost predicate KindsKept(types: MetaTypes, types': MetaTypes) {
    && types'.Keys == types.Keys
    && forall x | x in types :: KindKept(types, types', x)
  }

  ghost predicate KindKept(types: MetaTypes, types': MetaTypes, x: TypeIdent)
    requires x in types && x in types'
  {
    && (types'[x].variant.IsGroup() <==> types[x].variant.IsGroup())
    && (HasContent(types', x) <==> HasContent(types, x))
    && (HasContent(types, x) ==> ContentOf(types', x) == ContentOf(types, x))
  }

  /** A step for one complex type writes that type and its content. */
  ghost predicate WritesOnly(types: MetaTypes, types': MetaTypes, j: TypeIdent) {
    && KindsKept(types, types')
    && (types' != types ==> HasContent(types, j) && IsGroupType(types, ContentOf(types, j)))
    && forall x | x in types && x != j && (HasContent(types, j) ==> x != ContentOf(types, j)) :: types'[x] == types[x]
  }

  /** The contents of the other listed types are none of the groups in `keep`. */
  ghost predicate Elsewhere(types: MetaTypes, idents: seq<TypeIdent>, ident: TypeIdent, keep: Types) {
    forall i | 0 <= i < |idents| && idents[i] != ident && HasContent(types, idents[i]) :: ContentOf(types, idents[i]) !in keep
  }

  /** A step for another type leaves the groups in `keep`, and the type itself, as they were. */
  lemma StepElsewhere(types0: MetaTypes, from: MetaTypes, types: MetaTypes, types': MetaTypes,
                      j: TypeIdent, ident: TypeIdent, keep: Types)
    requires KindsKept(types0, types) && WritesOnly(types, types', j)
    requires ident in types && types[ident].variant.ComplexType? && j != ident
    requires HasContent(types0, j) ==> ContentOf(types0, j) !in keep
    requires SameOn(from, types, keep) && ident in from && types[ident] == from[ident]
    ensures KindsKept(types0, types') && SameOn(from, types', keep) && types'[ident] == from[ident]
  {
    forall x | x in types0
      ensures KindKept(types0, types', x)
    {
      assert KindKept(types0, types, x) && KindKept(types, types', x);
    }
    assert j in types ==> KindKept(types0, types, j) && KindKept(types, types', j);
    forall x | x in keep
      ensures SameGroup(from, types', x)
    {
      assert SameGroup(from, types, x);
      if x in types {
        assert KindKept(types, types', x);
      }
    }
  }

  /** The graphs a pass goes through, one step for each listed type. */
  ghost predicate Trace(graphs: seq<MetaTypes>, idents: seq<TypeIdent>) {
    && |graphs| == |idents| + 1
    && forall i | 0 <= i < |idents| :: WritesOnly(graphs[i], graphs[i + 1], idents[i])
  }

  /** Steps for other types, from the `from`-th on, leave the type and the groups in `keep` as they were. */
  lemma {:induction false} StepsElsewhere(
    types: MetaTypes, graphs: seq<MetaTypes>, idents: seq<TypeIdent>, from: nat, k: nat, ident: TypeIdent, keep: Types)
    requires Trace(graphs, idents) && from <= k <= |idents|
    requires KindsKept(types, graphs[from]) && ClosedUnder(graphs[from], keep)
    requires ident in graphs[from] && graphs[from][ident].variant.ComplexType?
    requires Elsewhere(types, idents, ident, keep) && forall i | from <= i < k :: idents[i] != ident
    ensures KindsKept(types, graphs[k]) && SameOn(graphs[from], graphs[k], keep)
    ensures ident in graphs[k] && graphs[k][ident] == graphs[from][ident]
    decreases k
  {
    if from == k {
      SameOnSelf(graphs[from], keep);
    } else {
      StepsElsewhere(types, graphs, idents, from, k - 1, ident, keep);
      StepElsewhere(types, graphs[from], graphs[k - 1], graphs[k], idents[k - 1], ident, keep);
    }
  }

  lemma KindsKeptSelf(types: MetaTypes)
    ensures KindsKept(types, types)
  {
    forall x | x in types
      ensures KindKept(types, types, x)
    {
    }
  }

  lemma SameOnSelf(types: MetaTypes, keep: Types)
    requires ClosedUnder(types, keep)
    ensures SameOn(types, types, keep)
  {
  }

  /** Every word `types` accepts for `ident` is accepted by `types'`. */
  ghost predicate WordsKept(types: MetaTypes, types': MetaTypes, ident: TypeIdent) {
    forall w | ComplexAccepts(types, ident, w) :: ComplexAccepts(types', ident, w)
  }

  /** The same type with the same groups below accepts the same words. */
  lemma FrameComplex(types: MetaTypes, types': MetaTypes, keep: Types, ident: TypeIdent)
    requires SameOn(types, types', keep) && HasContent(types, ident) && ContentOf(types, ident) in keep
    requires ident in types' && types'[ident] == types[ident]
    ensures WordsKept(types, types', ident)
  {
    forall w | ComplexAccepts(types, ident, w)
      ensures ComplexAccepts(types', ident, w)
    {
      var e := ContentParticle(types[ident].variant.complex);
      var d: nat :| Particle(types, e, w, d);
      FrameParticle(types, types', keep, e, w, d);
    }
  }
}
