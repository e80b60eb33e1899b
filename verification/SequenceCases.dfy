/** Concrete contents made of nested sequences. */
module SequenceCases {
  import opened Wrappers
  import opened Occurs
  import opened Meta
  import opened ContentModel
  import opened Flatten
  import opened FlattenWords
  import opened FlattenTheorems
  import opened GroupFrames
  import opened FlatSequences
  import opened FlattenElements
  import opened FlattenSequences
  import opened Samples

  /** `main` has the content `es`, and the sequence `inner` may be nested in it. */
  function Schema(es: seq<ElementMeta>, inner: seq<ElementMeta>): MetaTypes {
    map[
      Id("main") := Complex(Id("outer")),
      Id("outer") := MetaType.New(Sequence(GroupMeta(false, es))),
      Id("inner") := MetaType.New(Sequence(GroupMeta(false, inner)))
    ]
  }

  lemma SchemaTypes(es: seq<ElementMeta>, inner: seq<ElementMeta>)
    ensures var types := Schema(es, inner);
            && HasContent(types, Id("main")) && ContentOf(types, Id("main")) == Id("outer")
            && types[Id("outer")].variant == Sequence(GroupMeta(false, es))
            && types[Id("inner")].variant == Sequence(GroupMeta(false, inner))
  {
    assert "main"[0] != "outer"[0] && "main"[0] != "inner"[0] && "outer"[0] != "inner"[0];
    assert Id("main") != Id("outer") && Id("main") != Id("inner") && Id("outer") != Id("inner");
  }

  /** Leaves, and behind them one nested sequence of leaves. */
  lemma SchemaLeaves(a: seq<ElementMeta>, b: seq<ElementMeta>)
    requires AllLeaves(a) && AllLeaves(b) && MayOccur(a) && MayOccur(b)
    ensures var types := Schema(a + [Child("inner", GroupMode, 1)], b);
            && NestedContent(types, Id("main"), 1)
            && Leading(Particles(types, Id("main"))) == |a|
            && Leaves(types, Particles(types, Id("main")), 1) == a + b
  {
    var g := Child("inner", GroupMode, 1);
    var es := a + [g];
    var types := Schema(es, b);
    SchemaTypes(es, b);
    OnlyLeaves(types, a, 1);
    OnlyLeaves(types, b, 0);
    assert es[..|a|] == a && es[|a|] == g;
    assert AllNested(types, es, 1) by {
      assert AllNested(types, b, 0);
    }
  }

  lemma {:induction false} OnlyLeaves(types: MetaTypes, es: seq<ElementMeta>, r: nat)
    requires MayOccur(es)
    ensures Leaves(types, es, r) == es && Leading(es) == |es| && AllNested(types, es, r)
    decreases |es|
  {
    if es != [] {
      OnlyLeaves(types, es[..|es| - 1], r);
      assert es == es[..|es| - 1] + [es[|es| - 1]];
    }
  }

  /** A valid content that loses a word: `sequence(a, sequence(b, a))` becomes `sequence(a{2,2}, b)`. */
  lemma SequenceLosesWord()
    ensures var a, b := Child("a", ElementMode, 1), Child("b", ElementMode, 1);
            var types := Schema([a] + [Child("inner", GroupMode, 1)], [b, a]);
            && FlattenComplexType(types, Id("main")).Ok?
            && ComplexAccepts(types, Id("main"), [a.ident, b.ident, a.ident])
            && !ComplexAccepts(FlattenComplexType(types, Id("main")).value, Id("main"), [a.ident, b.ident, a.ident])
  {
    var a, b := Child("a", ElementMode, 1), Child("b", ElementMode, 1);
    var types := Schema([a] + [Child("inner", GroupMode, 1)], [b, a]);
    assert "a"[0] != "b"[0];
    SchemaReady([a], [b, a]);
    ThreeLeaves(a, b);
    FullWordBefore(types, Id("main"), 1);
    FullWordAfter(types, Id("main"), 1);
  }

  /** The leading leaves are copied: `sequence(a, b, a, sequence(c))` keeps every word, with `a` on both sides of `b`. */
  lemma LeadingLeavesMayRepeat()
    ensures var a, b, c := Child("a", ElementMode, 1), Child("b", ElementMode, 1), Child("c", ElementMode, 1);
            var types := Schema([a, b, a] + [Child("inner", GroupMode, 1)], [c]);
            && NestedContent(types, Id("main"), 1) && FlattenComplexType(types, Id("main")).Ok?
            && WordsKept(types, FlattenComplexType(types, Id("main")).value, Id("main"))
            && !Adjacent(LeafIdents(types, Id("main"), 1))
  {
    var a, b, c := Child("a", ElementMode, 1), Child("b", ElementMode, 1), Child("c", ElementMode, 1);
    var types := Schema([a, b, a] + [Child("inner", GroupMode, 1)], [c]);
    assert "a"[0] != "b"[0] && "a"[0] != "c"[0] && "b"[0] != "c"[0];
    SchemaReady([a, b, a], [c]);
    FourLeaves(a, b, c);
    GroupedSequencesKeepWords(types, Id("main"), 1);
  }

  ghost predicate ConsistentList(es: seq<ElementMeta>) {
    forall i, j | 0 <= i < |es| && 0 <= j < |es| && es[i].ident == es[j].ident :: SameVariant(es[i].variant, es[j].variant)
  }

  lemma SchemaConsistent(x: seq<ElementMeta>, y: seq<ElementMeta>)
    requires MayOccur(x) && MayOccur(y) && ConsistentList(x + y)
    ensures var types := Schema(x + [Child("inner", GroupMode, 1)], y);
            Finite(types, Id("main"), 1) && Consistent(LeavesBelow(types, Id("outer")))
  {
    var g := Child("inner", GroupMode, 1);
    var es := x + [g];
    var types := Schema(es, y);
    SchemaTypes(es, y);
    assert es[|x|] == g;
    assert FiniteElements(types, y, 0);
    assert FiniteElements(types, es, 1) by {
      assert FiniteTree(types, Id("inner"), 0);
    }
    forall f | f in LeavesBelow(types, Id("outer"))
      ensures f in x + y
    {
      LeavesUnfold(types, Id("outer"), f);
      LeavesUnfold(types, Id("inner"), f);
    }
  }

  lemma SchemaReady(x: seq<ElementMeta>, y: seq<ElementMeta>)
    requires MayOccur(x) && MayOccur(y) && ConsistentList(x + y)
    ensures var types := Schema(x + [Child("inner", GroupMode, 1)], y);
            && NestedContent(types, Id("main"), 1) && FlattenComplexType(types, Id("main")).Ok?
            && Particles(types, Id("main"))[..Leading(Particles(types, Id("main")))] == x
            && Leading(Particles(types, Id("main"))) == |x|
            && Leaves(types, Particles(types, Id("main")), 1) == x + y
            && LeafIdents(types, Id("main"), 1) == IdentsOf(x + y)
            && types[Id("main")].variant.complex.Bounds() == Exactly(1)
  {
    var types := Schema(x + [Child("inner", GroupMode, 1)], y);
    SchemaLeaves(x, y);
    SchemaTypes(x + [Child("inner", GroupMode, 1)], y);
    SchemaConsistent(x, y);
    ConsistentFlattens(types, Id("main"), 1);
    LeavesIdents(types, Particles(types, Id("main")), 1);
  }

  lemma SnocFullWord(es: seq<ElementMeta>, e: ElementMeta)
    requires Needed(e) == 1
    ensures FullWord(es + [e]) == FullWord(es) + [e.ident]
  {
    assert (es + [e])[..|es|] == es && Power(e.ident, 1) == [e.ident];
  }

  lemma OneLeaf(a: ElementMeta)
    ensures IdentsOf([a]) == [a.ident] && (Needed(a) == 1 ==> FullWord([a]) == [a.ident])
  {
    assert [a][..0] == [] && Power(a.ident, 1) == [a.ident];
  }

  lemma TwoLeaves(a: ElementMeta, b: ElementMeta)
    ensures IdentsOf([a, b]) == [a.ident, b.ident]
    ensures Needed(a) == Needed(b) == 1 ==> FullWord([a, b]) == [a.ident, b.ident]
  {
    OneLeaf(a);
    SnocIdents([a], b);
    if Needed(b) == 1 {
      SnocFullWord([a], b);
    }
    assert [a, b] == [a] + [b];
  }

  lemma ThreeInOrder(a: ElementMeta, b: ElementMeta)
    ensures IdentsOf([a, b, a]) == [a.ident, b.ident, a.ident]
    ensures Needed(a) == Needed(b) == 1 ==> FullWord([a, b, a]) == [a.ident, b.ident, a.ident]
  {
    TwoLeaves(a, b);
    SnocIdents([a, b], a);
    if Needed(a) == 1 {
      SnocFullWord([a, b], a);
    }
    assert [a, b, a] == [a, b] + [a];
  }

  lemma NotAdjacent<T(!new)>(x: T, y: T)
    requires x != y
    ensures !Adjacent([x, y, x]) && Adjacent([x])
  {
    assert [x, y, x][..2] == [x, y] && [x, y][0] == x;
    assert [x][..0] == [] && AtEnd([], x) && GroupedFrom<T>([], 0);
  }

  lemma ThreeLeaves(a: ElementMeta, b: ElementMeta)
    requires a.ident != b.ident && Needed(a) == Needed(b) == 1
    ensures FullWord([a] + [b, a]) == [a.ident, b.ident, a.ident]
    ensures !Adjacent(IdentsOf([a] + [b, a])) && Adjacent(IdentsOf([a]))
  {
    assert [a] + [b, a] == [a, b, a];
    OneLeaf(a);
    ThreeInOrder(a, b);
    NotAdjacent(a.ident, b.ident);
  }

  lemma FourLeaves(a: ElementMeta, b: ElementMeta, c: ElementMeta)
    requires a.ident != b.ident && a.ident != c.ident && b.ident != c.ident && Needed(a) == Needed(b) == 1
    ensures !Adjacent(IdentsOf([a, b, a] + [c])) && GroupedFrom(IdentsOf([a, b, a] + [c]), 3)
  {
    ThreeLeaves(a, b);
    assert [a] + [b, a] == [a, b, a];
    var s := IdentsOf([a, b, a]);
    SnocIdents([a, b, a], c);
    SnocGrouped(s, c.ident, 0);
    SnocGrouped(s, c.ident, 3);
    IdentsLength([a, b, a]);
    forall i | 0 <= i < |s|
      ensures s[i] != c.ident
    {
      IdentAt([a, b, a], i);
    }
    NotInAtEnd(s, c.ident);
  }
}
