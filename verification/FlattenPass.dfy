/**
  The whole flattening pass (`flatten_complex_types`): what it keeps of each
  type, although the other types are rewritten, too, and what it costs a type
  that shares its content.
 */
module FlattenPass {
  import opened Wrappers
  import opened Occurs
  import opened Meta
  import opened GroupGraph
  import opened ContentModel
  import opened Flatten
  import opened FlattenWords
  import opened FlattenTheorems
  import opened GroupFrames
  import opened Samples

  /** Flattening one type writes that type and its content, nothing else. */
  lemma StepWrites(types: MetaTypes, j: TypeIdent)
    requires FlattenComplexType(types, j).Ok?
    ensures WritesOnly(types, FlattenComplexType(types, j).value, j)
  {
    var types' := FlattenComplexType(types, j).value;
    forall x | x in types
      ensures KindKept(types, types', x)
    {
    }
  }

  /** The graph after the step for one type; an error leaves it alone. */
  function AfterStep(types: MetaTypes, j: TypeIdent): MetaTypes {
    if FlattenComplexType(types, j).Ok? then FlattenComplexType(types, j).value else types
  }

  ghost predicate Steps(graphs: seq<MetaTypes>, idents: seq<TypeIdent>) {
    && |graphs| == |idents| + 1
    && forall k | 0 <= k < |idents| :: graphs[k + 1] == AfterStep(graphs[k], idents[k])
  }

  lemma StepsSnoc(graphs: seq<MetaTypes>, idents: seq<TypeIdent>, types: MetaTypes)
    requires idents != [] && Steps(graphs, idents[..|idents| - 1])
    requires types == AfterStep(graphs[|idents| - 1], idents[|idents| - 1])
    ensures Steps(graphs + [types], idents)
  {
  }

  lemma FlattenAllLast(types: MetaTypes, idents: seq<TypeIdent>)
    requires idents != []
    ensures FlattenAll(types, idents) == AfterStep(FlattenAll(types, idents[..|idents| - 1]), idents[|idents| - 1])
  {
  }

  lemma {:induction false} PassSteps(types: MetaTypes, idents: seq<TypeIdent>) returns (graphs: seq<MetaTypes>)
    ensures Steps(graphs, idents) && graphs[0] == types && graphs[|idents|] == FlattenAll(types, idents)
    decreases |idents|
  {
    if idents == [] {
      graphs := [types];
    } else {
      var before := PassSteps(types, idents[..|idents| - 1]);
      FlattenAllLast(types, idents);
      StepsSnoc(before, idents, FlattenAll(types, idents));
      graphs := before + [FlattenAll(types, idents)];
    }
  }

  lemma StepsTrace(graphs: seq<MetaTypes>, idents: seq<TypeIdent>)
    requires Steps(graphs, idents)
    ensures Trace(graphs, idents)
  {
    forall k | 0 <= k < |idents|
      ensures WritesOnly(graphs[k], graphs[k + 1], idents[k])
    {
      AfterStepWrites(graphs[k], idents[k]);
    }
  }

  lemma AfterStepWrites(types: MetaTypes, j: TypeIdent)
    ensures WritesOnly(types, AfterStep(types, j), j)
  {
    if FlattenComplexType(types, j).Ok? {
      StepWrites(types, j);
    } else {
      KindsKeptSelf(types);
    }
  }

  /** The conditions on the groups before the step are those at the start of the pass. */
  lemma StillFlattenable(types: MetaTypes, before: MetaTypes, ident: TypeIdent, r: nat, keep: Types)
    requires Flattenable(types, ident, r) && keep == Below(types, ContentOf(types, ident), 0)
    requires SameOn(types, before, keep) && ident in before && before[ident] == types[ident]
    ensures Flattenable(before, ident, r)
  {
    var t := ContentOf(types, ident);
    SelfBelow(types, t);
    SameElements(types, before, keep, t);
    var v := types[t].variant;
    FrameTree(types, before, keep, v.group.elements, r);
    FrameChoices(types, before, keep, KindOf(v), v.group.elements, r);
    FrameLeaves(types, before, keep, SequenceKind, v.group.elements, r);
  }

  /** The content that is written has no groups nested in it, or is the old one. */
  lemma WrittenContent(types: MetaTypes, ident: TypeIdent, r: nat)
    requires WellFormed(types, ident, r) && FlattenComplexType(types, ident).Ok?
    ensures var types' := FlattenComplexType(types, ident).value;
            var t := ContentOf(types, ident);
            IsGroupType(types', t) && (types'[t] == types[t] || AllLeaves(Elements(types', t)))
  {
    var g, s := ContentFlattened(types, ident, r);
    if s.touched {
      RewrittenTypes(types, ident, s);
    }
  }

  /** The step for the type itself, after those for others. */
  lemma StepOwn(types: MetaTypes, before: MetaTypes, ident: TypeIdent, r: nat, keep: Types, w: Word)
    requires Flattenable(types, ident, r) && keep == Below(types, ContentOf(types, ident), 0)
    requires KindsKept(types, before) && SameOn(types, before, keep) && ident in before && before[ident] == types[ident]
    requires FlattenComplexType(before, ident).Ok? && ComplexAccepts(before, ident, w)
    ensures var mid := FlattenComplexType(before, ident).value;
            && KindsKept(types, mid) && ClosedUnder(mid, keep) && ident in mid && mid[ident].variant.ComplexType?
            && HasContent(mid, ident) && ContentOf(mid, ident) in keep && ComplexAccepts(mid, ident, w)
  {
    var t := ContentOf(types, ident);
    var mid := FlattenComplexType(before, ident).value;
    StillFlattenable(types, before, ident, r, keep);
    FlattenableLosesNoWord(before, ident, r, w);
    StepWrites(before, ident);
    WrittenContent(before, ident, r);
    SelfBelow(types, t);
    forall x | x in types
      ensures KindKept(types, mid, x)
    {
      assert KindKept(types, before, x) && KindKept(before, mid, x);
    }
    forall x | x in keep && IsGroupType(mid, x)
      ensures Within(Elements(mid, x), keep)
    {
      assert KindKept(before, mid, x);
      assert SameGroup(types, before, x);
      SameElements(types, before, keep, x);
    }
  }

  /**
    The whole pass loses no word of a type with well-formed content: whatever
    the order of the types and whatever the others are like, as long as their
    contents are not among the groups below its own content.
   */
  lemma FlattenAllLosesNoWord(types: MetaTypes, idents: seq<TypeIdent>, r: nat, ident: TypeIdent, w: Word)
    requires NoRepeat(idents) && ident in idents && Flattenable(types, ident, r)
    requires Elsewhere(types, idents, ident, Below(types, ContentOf(types, ident), 0))
    requires ComplexAccepts(types, ident, w)
    ensures ComplexAccepts(FlattenAll(types, idents), ident, w)
  {
    var t := ContentOf(types, ident);
    var keep := Below(types, t, 0);
    var p :| 0 <= p < |idents| && idents[p] == ident;
    BelowClosed(types, t, 0);
    SelfBelow(types, t);
    KindsKeptSelf(types);
    var graphs := PassSteps(types, idents);
    StepsTrace(graphs, idents);
    StepsElsewhere(types, graphs, idents, 0, p, ident, keep);
    FrameComplex(types, graphs[p], keep, ident);
    if FlattenComplexType(graphs[p], ident).Ok? {
      StepOwn(types, graphs[p], ident, r, keep, w);
    } else {
      StillClosed(types, graphs[p], keep);
    }
    StepsElsewhere(types, graphs, idents, p + 1, |idents|, ident, keep);
    FrameComplex(graphs[p + 1], graphs[|idents|], keep, ident);
  }

  lemma StillClosed(types: MetaTypes, before: MetaTypes, keep: Types)
    requires SameOn(types, before, keep)
    ensures ClosedUnder(before, keep)
  {
    forall x | x in keep && IsGroupType(before, x)
      ensures Within(Elements(before, x), keep)
    {
      assert SameGroup(types, before, x);
      SameElements(types, before, keep, x);
    }
  }

  // ---------- A shared content

  /** `main` and `other` both have the content `sequence(sequence(a){1,2})`. */
  function Shared(): MetaTypes {
    map[
      Id("main") := Complex(Id("outer")),
      Id("other") := Complex(Id("outer")),
      Id("outer") := MetaType.New(Sequence(GroupMeta(false, [Child("inner", GroupMode, 2)]))),
      Id("inner") := MetaType.New(Sequence(GroupMeta(false, [Child("a", ElementMode, 1)])))
    ]
  }

  lemma DistinctNames()
    ensures Id("main") != Id("other") && Id("main") != Id("outer") && Id("main") != Id("inner")
    ensures Id("other") != Id("outer") && Id("other") != Id("inner") && Id("outer") != Id("inner")
  {
    assert "main"[0] != "other"[0] && "main"[0] != "outer"[0] && "main"[0] != "inner"[0];
    assert "other"[1] != "outer"[1] && "other"[0] != "inner"[0] && "outer"[0] != "inner"[0];
  }

  /** The first group of a content is merged into what is flattened of nothing. */
  lemma OnlyGroup(c: Config, kind: Kind, g: ElementMeta, depth: nat, inner: Flat)
    requires depth < c.maxDepth && c.flattenNamedGroups && g.IsGroup() && Exec(c, g.variant.type_, depth + 1) == Ok(inner)
    ensures ExecElements(c, kind, false, [g], depth) == Merged(Flat(kind, Plain(kind), false, [], false), g, inner)
  {
    assert [g][..0] == [];
    assert ExecElements(c, kind, false, [], depth) == Ok(Flat(kind, Plain(kind), false, [], false));
  }

  /** The nested sequence becomes a choice of `a`, once or twice. */
  lemma SharedFlattened()
    ensures Exec(Config(Shared(), MAX_DEPTH, true), Id("outer"), 0)
         == Ok(Flat(SequenceKind, Mixed(Range(1, Bounded(2))), false, [Child("a", ElementMode, 1)], true))
  {
    DistinctNames();
    var c := Config(Shared(), MAX_DEPTH, true);
    var a, g := Child("a", ElementMode, 1), Child("inner", GroupMode, 2);
    var s := Flat(SequenceKind, Plain(SequenceKind), false, [], false);
    LeavesUntouched(c, SequenceKind, false, [a], 1);
    OnlyGroup(c, SequenceKind, g, 0, s.(elements := [a]));
    MixedMerge(s, s.(elements := [a]), a, g);
  }

  lemma MixedMerge(s: Flat, inner: Flat, a: ElementMeta, g: ElementMeta)
    requires s == Flat(SequenceKind, Plain(SequenceKind), false, [], false) && inner == s.(elements := [a])
    requires a.Bounds() == Exactly(1) && g.Bounds() == Range(1, Bounded(2))
    ensures Merged(s, g, inner) == Ok(Flat(SequenceKind, Mixed(Range(1, Bounded(2))), false, [a], true))
  {
    assert [a][..0] == [];
    assert LengthRange(SequenceKind, []) == Exactly(0);
    assert LengthRange(SequenceKind, [a]) == Exactly(1);
    assert ResetAll([a]) == [a] && ResetAll([]) == [];
    var start := Flat(SequenceKind, Mixed(Range(1, Bounded(2))), false, [], true);
    assert ToMixed(inner).elements == [a] && ResetAll(ToMixed(inner).elements) == [a];
    assert AddAll(start, false, []) == Ok(start);
    assert IndexOf(start.elements, a.ident) == 0;
    assert [] + [a] == [a];
    assert Added(start, false, a) == Ok(start.(elements := [a]));
    assert AddAll(start, false, [a]) == Added(start, false, a);
  }

  /** After `main` is flattened: its own bounds have changed, those of `other` have not. */
  function SharedAfter(): MetaTypes {
    Shared()[Id("outer") := MetaType.New(Choice(GroupMeta(false, [Child("a", ElementMode, 1)])))]
            [Id("main") := MetaType.New(ComplexType(ComplexMeta(NoBase, Some(Id("outer")), 1, Bounded(2), false, false, [])))]
  }

  lemma FlattenTwo(types: MetaTypes, i: TypeIdent, j: TypeIdent)
    ensures FlattenAll(types, [i, j]) == AfterStep(AfterStep(types, i), j)
  {
    assert [i, j][..1] == [i] && [i][..0] == [];
    FlattenAllLast(types, [i, j]);
    FlattenAllLast(types, [i]);
    assert FlattenAll(types, []) == types;
  }

  lemma FirstFlattened()
    ensures FlattenComplexType(Shared(), Id("main")) == Ok(SharedAfter())
  {
    DistinctNames();
    SharedFlattened();
  }

  lemma SecondUntouched()
    ensures FlattenComplexType(SharedAfter(), Id("other")) == Ok(SharedAfter())
  {
    DistinctNames();
    LeavesUntouched(Config(SharedAfter(), MAX_DEPTH, true), ChoiceKind, false, [Child("a", ElementMode, 1)], 0);
  }

  lemma SharedPass()
    ensures FlattenAll(Shared(), [Id("main"), Id("other")]) == SharedAfter()
  {
    FirstFlattened();
    SecondUntouched();
    FlattenTwo(Shared(), Id("main"), Id("other"));
  }

  lemma OneParticle(types: MetaTypes, e: ElementMeta, w: Word, d: nat)
    requires Particle(types, e, w, d)
    ensures SequenceOf(types, [e], w, d)
  {
    assert [e][..0] == [] && w[..0] == [] && w[0..] == w;
    assert SequenceOf(types, [e][..0], w[..0], d);
  }

  /** A sequence of one single leaf accepts it. */
  lemma SingleLeafSequence(types: MetaTypes, t: TypeIdent, a: ElementMeta, d: nat)
    requires t in types && types[t].variant == Sequence(GroupMeta(false, [a]))
    requires !a.IsGroup() && a.Bounds() == Exactly(1)
    ensures GroupAccepts(types, t, [a.ident], d)
  {
    LeafParticle(types, a, [a.ident], d);
    assert Power(a.ident, 1) == [a.ident];
    OneParticle(types, a, [a.ident], d);
    assert VariantAccepts(types, types[t].variant, [a.ident], d);
  }

  lemma InnerOnce()
    ensures Once(Shared(), Child("inner", GroupMode, 2), [Child("a", ElementMode, 1).ident], 1)
  {
    DistinctNames();
    SingleLeafSequence(Shared(), Id("inner"), Child("a", ElementMode, 1), 0);
  }

  /** Two letters are two occurrences of an element that accepts each of them. */
  lemma TwoLetters(types: MetaTypes, g: ElementMeta, x: PropertyIdent, d: nat)
    requires Once(types, g, [x], d) && g.Bounds().Has(2)
    ensures Particle(types, g, [x, x], d)
  {
    TimesLetterwise(types, g, [x, x], d);
  }

  lemma OuterOnce()
    ensures var x := Child("a", ElementMode, 1).ident; GroupAccepts(Shared(), Id("outer"), [x, x], 1)
  {
    DistinctNames();
    InnerOnce();
    var types := Shared();
    var x, g := Child("a", ElementMode, 1).ident, Child("inner", GroupMode, 2);
    TwoLetters(types, g, x, 1);
    OneParticle(types, g, [x, x], 1);
    assert VariantAccepts(types, types[Id("outer")].variant, [x, x], 1);
  }

  lemma SharedBefore()
    ensures ComplexAccepts(Shared(), Id("other"), [Child("a", ElementMode, 1).ident, Child("a", ElementMode, 1).ident])
  {
    DistinctNames();
    OuterOnce();
    var types := Shared();
    var x := Child("a", ElementMode, 1).ident;
    var e := ContentParticle(types[Id("other")].variant.complex);
    assert Once(types, e, [x, x], 2);
    SingleOccurrence(types, e, [x, x], 2);
  }

  /** A single choice of a single child accepts no two children. */
  lemma NotTwo(types: MetaTypes, e: ElementMeta, a: ElementMeta, w: Word, d: nat)
    requires e.IsGroup() && e.maxOccurs == Bounded(1) && e.variant.type_ in types
    requires types[e.variant.type_].variant == Choice(GroupMeta(false, [a])) && !a.IsGroup() && a.maxOccurs == Bounded(1)
    requires |w| == 2
    ensures !Particle(types, e, w, d)
  {
    if Particle(types, e, w, d) {
      AtMostOnce(types, e, w, d);
      assert GroupAccepts(types, e.variant.type_, w, d - 1);
      var v := types[e.variant.type_].variant;
      assert VariantAccepts(types, v, w, d - 1);
      assert ChoiceOf(types, v.group.elements, w, d - 1);
      LeafParticle(types, a, w, d - 1);
    }
  }

  /** A type that shares its content with one flattened before it loses words: here two children `a`. */
  lemma SharedContentLosesWord()
    ensures var w := [Child("a", ElementMode, 1).ident, Child("a", ElementMode, 1).ident];
            && ComplexAccepts(Shared(), Id("other"), w)
            && !ComplexAccepts(FlattenAll(Shared(), [Id("main"), Id("other")]), Id("other"), w)
  {
    DistinctNames();
    SharedBefore();
    SharedPass();
    var types := SharedAfter();
    var a := Child("a", ElementMode, 1);
    var w := [a.ident, a.ident];
    forall d: nat
      ensures !Particle(types, ContentParticle(types[Id("other")].variant.complex), w, d)
    {
      NotTwo(types, ContentParticle(types[Id("other")].variant.complex), a, w, d);
    }
  }
}
