/**
  What flattening costs when an identifier is repeated: the exact condition
  under which adding an already known identifier to a plain group keeps every
  word, for choices and for sequences.
 */
module FlattenLimits {
  import opened Wrappers
  import opened Occurs
  import opened Meta
  import opened ContentModel
  import opened Flatten
  import opened FlattenWords
  import opened FlattenTheorems
  import opened Samples

  /** A plain group of leaves with distinct identifiers and proper bounds, and a further leaf `e` it already knows at `j`. */
  ghost predicate Repeated(s: Flat, e: ElementMeta, j: nat) {
    && s.touched && s.mode.Plain?
    && AllLeaves(s.elements) && Proper(s.elements) && NoRepeat(IdentsOf(s.elements))
    && !e.IsGroup() && Proper([e])
    && j < |s.elements| && s.elements[j].ident == e.ident && SameVariant(s.elements[j].variant, e.variant)
  }

  function AfterAdd(s: Flat, e: ElementMeta): seq<ElementMeta> {
    match Added(s, true, e)
    case Ok(s') => s'.elements
    case Err(_) => s.elements
  }

  lemma DistinctIdents(es: seq<ElementMeta>, i: nat, j: nat)
    requires NoRepeat(IdentsOf(es)) && i < |es| && j < |es| && i != j
    ensures es[i].ident != es[j].ident
  {
    IdentAt(es, i);
    IdentAt(es, j);
    var a, b := if i < j then i else j, if i < j then j else i;
    assert IdentsOf(es)[a] != IdentsOf(es)[b];
  }

  lemma AddedAt(s: Flat, e: ElementMeta, j: nat)
    requires Repeated(s, e, j)
    ensures AfterAdd(s, e) == s.elements[j := SumBounds(s.elements[j], e)]
  {
    var i := IndexOf(s.elements, e.ident);
    if i != j {
      DistinctIdents(s.elements, i, j);
    }
  }

  // ---------- Choices

  /** An alternative other than `j` may be empty. */
  ghost predicate OtherEmpty(es: seq<ElementMeta>, j: nat) {
    exists i | 0 <= i < |es| && i != j :: es[i].minOccurs == 0
  }

  /** The guard: bounds of the known and of the repeated alternative, readable before the call. */
  ghost predicate SumIsHarmless(es: seq<ElementMeta>, j: nat, e: ElementMeta)
    requires j < |es|
  {
    var a := es[j];
    || (a.minOccurs == 0 && e.minOccurs == 0)
    || (OtherEmpty(es, j) && a.minOccurs == 0 && (e.minOccurs <= 1 || a.maxOccurs == Bounded(0)))
    || (OtherEmpty(es, j) && e.minOccurs == 0 && (a.minOccurs <= 1 || e.maxOccurs == Bounded(0)))
  }

  ghost predicate ChoiceKeepsAll(s: Flat, e: ElementMeta) {
    forall w | ChoiceOf(map[], s.elements + [e], w, 0) :: ChoiceOf(map[], AfterAdd(s, e), w, 0)
  }

  /** `x` repeated `n` times is accepted exactly by an alternative `x` or, for `n == 0`, by any optional one. */
  lemma PowerInChoice(es: seq<ElementMeta>, x: PropertyIdent, n: nat)
    requires AllLeaves(es)
    ensures ChoiceOf(map[], es, Power(x, n), 0) <==>
              exists i | 0 <= i < |es| :: es[i].Bounds().Has(n) && (n == 0 || es[i].ident == x)
  {
    var w := Power(x, n);
    forall i | 0 <= i < |es|
      ensures Particle(map[], es[i], w, 0) <==> es[i].Bounds().Has(n) && (n == 0 || es[i].ident == x)
    {
      LeafParticle(map[], es[i], w, 0);
      if n > 0 {
        assert w[0] == x && Power(es[i].ident, n)[0] == es[i].ident;
      } else {
        assert Power(es[i].ident, 0) == w;
      }
    }
  }

  /** Summing the bounds of a repeated alternative keeps every word exactly when the guard holds. */
  lemma RepeatedAlternative(s: Flat, e: ElementMeta, j: nat)
    requires Repeated(s, e, j)
    ensures ChoiceKeepsAll(s, e) <==> SumIsHarmless(s.elements, j, e)
  {
    AddedAt(s, e, j);
    if SumIsHarmless(s.elements, j, e) {
      forall w | ChoiceOf(map[], s.elements + [e], w, 0)
        ensures ChoiceOf(map[], AfterAdd(s, e), w, 0)
      {
        HarmlessWord(s, e, j, w);
      }
    } else {
      var n := LostCount(s, e, j);
      LostWord(s, e, j, n);
    }
  }

  /** Every count that one of the two alternatives admits is left to their sum, or to another optional one. */
  lemma HarmlessCount(es: seq<ElementMeta>, j: nat, e: ElementMeta, n: nat)
    requires j < |es| && SumIsHarmless(es, j, e) && (es[j].Bounds().Has(n) || e.Bounds().Has(n))
    ensures SumBounds(es[j], e).Bounds().Has(n) || (n == 0 && OtherEmpty(es, j))
  {
  }

  lemma HarmlessWord(s: Flat, e: ElementMeta, j: nat, w: Word)
    requires Repeated(s, e, j) && SumIsHarmless(s.elements, j, e)
    requires ChoiceOf(map[], s.elements + [e], w, 0)
    ensures ChoiceOf(map[], AfterAdd(s, e), w, 0)
  {
    AddedAt(s, e, j);
    var es, es', all := s.elements, AfterAdd(s, e), s.elements + [e];
    var i :| 0 <= i < |all| && Particle(map[], all[i], w, 0);
    if i < |es| && i != j {
      assert es'[i] == all[i];
    } else {
      LeafParticle(map[], all[i], w, 0);
      assert all[i] == if i == j then es[j] else e;
      HarmlessCount(es, j, e, |w|);
      HarmlessRest(s, e, j, |w|);
    }
  }

  lemma HarmlessRest(s: Flat, e: ElementMeta, j: nat, n: nat)
    requires Repeated(s, e, j)
    requires SumBounds(s.elements[j], e).Bounds().Has(n) || (n == 0 && OtherEmpty(s.elements, j))
    ensures ChoiceOf(map[], AfterAdd(s, e), Power(e.ident, n), 0)
  {
    AddedAt(s, e, j);
    var es, es' := s.elements, AfterAdd(s, e);
    PowerInChoice(es', e.ident, n);
    if es'[j].Bounds().Has(n) {
      assert es'[j].ident == e.ident;
    } else {
      var o :| 0 <= o < |es| && o != j && es[o].minOccurs == 0;
      assert es'[o] == es[o];
    }
  }

  /** A count one of the two alternatives admits and their sum does not. */
  ghost function LostCount(s: Flat, e: ElementMeta, j: nat): nat
    requires Repeated(s, e, j)
  {
    var a := s.elements[j];
    if a.minOccurs > 0 && e.minOccurs > 0 then a.minOccurs
    else if !OtherEmpty(s.elements, j) then 0
    else 1
  }

  lemma LostWord(s: Flat, e: ElementMeta, j: nat, n: nat)
    requires Repeated(s, e, j) && !SumIsHarmless(s.elements, j, e) && n == LostCount(s, e, j)
    ensures ChoiceOf(map[], s.elements + [e], Power(e.ident, n), 0)
    ensures !ChoiceOf(map[], AfterAdd(s, e), Power(e.ident, n), 0)
  {
    AddedAt(s, e, j);
    var es, es', all := s.elements, AfterAdd(s, e), s.elements + [e];
    PowerInChoice(all, e.ident, n);
    PowerInChoice(es', e.ident, n);
    assert all[j] == es[j] && all[|es|] == e;
    assert e.maxOccurs.Allows(e.minOccurs) by {
      assert [e][0] == e;
    }
    assert all[j].Bounds().Has(n) || all[|es|].Bounds().Has(n);
    forall i | 0 <= i < |es'|
      ensures !(es'[i].Bounds().Has(n) && (n == 0 || es'[i].ident == e.ident))
    {
      if i != j {
        DistinctIdents(es, i, j);
      }
    }
  }

  // ---------- Sequences

  ghost predicate SequenceKeepsAll(s: Flat, e: ElementMeta) {
    forall w | SequenceOf(map[], s.elements + [e], w, 0) :: SequenceOf(map[], AfterAdd(s, e), w, 0)
  }

  /** The guard: the repeated particle, or all particles after the first one, never occur. */
  ghost predicate NothingBetween(es: seq<ElementMeta>, j: nat, e: ElementMeta) {
    e.maxOccurs == Bounded(0) || forall i | j < i < |es| :: es[i].maxOccurs == Bounded(0)
  }

  /** Summing the bounds of a repeated particle keeps every word exactly when nothing may come in between. */
  lemma RepeatedInSequence(s: Flat, e: ElementMeta, j: nat)
    requires Repeated(s, e, j)
    ensures SequenceKeepsAll(s, e) <==> NothingBetween(s.elements, j, e)
  {
    AddedAt(s, e, j);
    var es := s.elements;
    if NothingBetween(es, j, e) {
      forall w | SequenceOf(map[], es + [e], w, 0)
        ensures SequenceOf(map[], AfterAdd(s, e), w, 0)
      {
        var i := CutLast(es, e, w);
        LeafParticle(map[], e, w[i..], 0);
        if e.maxOccurs == Bounded(0) {
          NeverRepeated(es, j, e, w[i..]);
          assert w[..i] == w;
        } else {
          MoveBack(es, j, e, w[..i], w[i..]);
        }
      }
    } else {
      var i :| j < i < |es| && es[i].maxOccurs != Bounded(0);
      var w := WordAcross(es, e, i);
      SameIdents(AfterAdd(s, e), es);
      if SequenceOf(map[], AfterAdd(s, e), w, 0) {
        NoLaterLetter(AfterAdd(s, e), w, j, i);
      }
    }
  }

  /** A repeated particle that never occurs adds nothing. */
  lemma NeverRepeated(es: seq<ElementMeta>, j: nat, e: ElementMeta, v: Word)
    requires j < |es| && e.maxOccurs == Bounded(0) && LeafAccepts(e, v)
    ensures v == [] && es[j := SumBounds(es[j], e)] == es
  {
    assert SumBounds(es[j], e) == es[j];
  }

  /** A word in which a letter of the particle at `i` comes before the repeated identifier. */
  lemma WordAcross(es: seq<ElementMeta>, e: ElementMeta, i: nat) returns (w: Word)
    requires AllLeaves(es) && Proper(es) && !e.IsGroup() && Proper([e]) && e.maxOccurs != Bounded(0)
    requires i < |es| && es[i].maxOccurs != Bounded(0)
    ensures SequenceOf(map[], es + [e], w, 0) && w != [] && w[|w| - 1] == e.ident && es[i].ident in w
  {
    var u := SomeWord(es, i);
    var v := Power(e.ident, if e.minOccurs == 0 then 1 else e.minOccurs);
    assert [e][0] == e;
    LeafParticle(map[], e, v, 0);
    SequenceStep(es, e, u, v);
    w := u + v;
  }

  /** Occurrences of one leaf and of another of the same identifier are occurrences of their sum. */
  lemma JoinOccurrences(a: ElementMeta, e: ElementMeta, u: Word, v: Word)
    requires !a.IsGroup() && a.ident == e.ident && Particle(map[], a, u, 0) && LeafAccepts(e, v)
    ensures Particle(map[], SumBounds(a, e), u + v, 0)
  {
    LeafParticle(map[], a, u, 0);
    AddAllows(a.maxOccurs, e.maxOccurs, |u|, |v|);
    LeafParticle(map[], SumBounds(a, e), u + v, 0);
  }

  /** A particle that never occurs leaves nothing. */
  lemma NoOccurrence(a: ElementMeta, u: Word)
    requires !a.IsGroup() && a.maxOccurs == Bounded(0) && Particle(map[], a, u, 0)
    ensures u == []
  {
    LeafParticle(map[], a, u, 0);
  }

  /** The occurrences `v` of the repeated particle join those of the last one. */
  lemma MoveToLast(before: seq<ElementMeta>, a: ElementMeta, e: ElementMeta, u: Word, v: Word)
    requires !a.IsGroup() && a.ident == e.ident && LeafAccepts(e, v) && SequenceOf(map[], before + [a], u, 0)
    ensures SequenceOf(map[], before + [SumBounds(a, e)], u + v, 0)
  {
    var i := CutLast(before, a, u);
    JoinOccurrences(a, e, u[i..], v);
    SequenceStep(before, SumBounds(a, e), u[..i], u[i..] + v);
    assert u[..i] + (u[i..] + v) == u + v;
  }

  /** Behind particles that never occur, a sequence accepts what it accepts in front of them. */
  lemma SkipLast(before: seq<ElementMeta>, a: ElementMeta, u: Word)
    requires !a.IsGroup() && a.maxOccurs == Bounded(0) && SequenceOf(map[], before + [a], u, 0)
    ensures SequenceOf(map[], before, u, 0) && Particle(map[], a, [], 0)
  {
    var i := CutLast(before, a, u);
    NoOccurrence(a, u[i..]);
    assert u[..i] == u;
  }

  /** The same for a particle behind which nothing occurs. */
  lemma {:induction false} MoveBack(es: seq<ElementMeta>, j: nat, e: ElementMeta, u: Word, v: Word)
    requires j < |es| && AllLeaves(es) && es[j].ident == e.ident && LeafAccepts(e, v)
    requires (forall i | j < i < |es| :: es[i].maxOccurs == Bounded(0)) && SequenceOf(map[], es, u, 0)
    ensures SequenceOf(map[], es[j := SumBounds(es[j], e)], u + v, 0)
    decreases |es|
  {
    var n := |es| - 1;
    var before, a := es[..n], es[n];
    assert before + [a] == es;
    if j == n {
      MoveToLast(before, a, e, u, v);
      assert before + [SumBounds(a, e)] == es[j := SumBounds(es[j], e)];
    } else {
      SkipLast(before, a, u);
      MoveBack(before, j, e, u, v);
      SequenceStep(before[j := SumBounds(es[j], e)], a, u + v, []);
      assert before[j := SumBounds(es[j], e)] + [a] == es[j := SumBounds(es[j], e)];
      assert u + v + [] == u + v;
    }
  }

  /** A word of the sequence in which the particle at `i`, which may occur, does occur. */
  lemma {:induction false} SomeWord(es: seq<ElementMeta>, i: nat) returns (w: Word)
    requires AllLeaves(es) && Proper(es) && (i < |es| ==> es[i].maxOccurs != Bounded(0))
    ensures SequenceOf(map[], es, w, 0) && (i < |es| ==> es[i].ident in w)
    decreases |es|
  {
    if es == [] {
      w := [];
    } else {
      var n := |es| - 1;
      var u := SomeWord(es[..n], i);
      var k := if i == n && es[n].minOccurs == 0 then 1 else es[n].minOccurs;
      var v := Power(es[n].ident, k);
      LeafParticle(map[], es[n], v, 0);
      w := u + v;
      assert w[..|u|] == u && w[|u|..] == v;
      if i == n {
        assert v[0] == es[n].ident && w[|u|] == v[0];
      }
    }
  }

  /** In a flat sequence of distinct identifiers no letter comes after one of a later particle. */
  lemma {:induction false} NoLaterLetter(es: seq<ElementMeta>, w: Word, j: nat, i: nat)
    requires AllLeaves(es) && NoRepeat(IdentsOf(es)) && j < i < |es|
    requires SequenceOf(map[], es, w, 0) && w != [] && w[|w| - 1] == es[j].ident
    ensures es[i].ident !in w
    decreases |es|
  {
    var n := |es| - 1;
    var m :| 0 <= m <= |w| && SequenceOf(map[], es[..n], w[..m], 0) && Particle(map[], es[n], w[m..], 0);
    LeafParticle(map[], es[n], w[m..], 0);
    assert m < |w| ==> w[|w| - 1] == es[n].ident by {
      if m < |w| {
        assert w[m..][|w| - m - 1] == Power(es[n].ident, |w| - m)[|w| - m - 1];
      }
    }
    DistinctIdents(es, j, n);
    assert w[..m] == w;
    PrefixNoRepeat(IdentsOf(es[..n]), [es[n].ident]);
    assert es[n].ident in [es[n].ident];
    if i < n {
      NoLaterLetter(es[..n], w, j, i);
    } else {
      SequenceLetters(es[..n], w);
    }
  }

  lemma {:induction false} SequenceLetters(es: seq<ElementMeta>, w: Word)
    requires AllLeaves(es) && SequenceOf(map[], es, w, 0)
    ensures LettersIn(es, w)
    decreases |es|
  {
    if es != [] {
      var n := |es| - 1;
      var m :| 0 <= m <= |w| && SequenceOf(map[], es[..n], w[..m], 0) && Particle(map[], es[n], w[m..], 0);
      LeafParticle(map[], es[n], w[m..], 0);
      SequenceLetters(es[..n], w[..m]);
      forall x | x in w
        ensures x in IdentsOf(es)
      {
        var p :| 0 <= p < |w| && w[p] == x;
        if p < m {
          assert w[..m][p] == x;
        } else {
          assert w[m..][p - m] == Power(es[n].ident, |w| - m)[p - m];
        }
      }
    }
  }

  // ---------- A word lost by the whole transformation

  /** `main` has the content `choice(a | inner)`, and the nested group is `choice(a)`. */
  function TwiceTheSame(): MetaTypes {
    map[
      Id("main") := Complex(Id("outer")),
      Id("outer") := MetaType.New(Choice(GroupMeta(false, [Child("a", ElementMode, 1), Child("inner", GroupMode, 1)]))),
      Id("inner") := MetaType.New(Choice(GroupMeta(false, [Child("a", ElementMode, 1)])))
    ]
  }

  lemma TwiceTheSameFlattened()
    ensures Exec(Config(TwiceTheSame(), MAX_DEPTH, true), Id("outer"), 0)
         == Ok(Flat(ChoiceKind, Plain(ChoiceKind), false, [SumBounds(Child("a", ElementMode, 1), Child("a", ElementMode, 1))], true))
  {
    var c := Config(TwiceTheSame(), MAX_DEPTH, true);
    var a, g := Child("a", ElementMode, 1), Child("inner", GroupMode, 1);
    assert Id("outer") in c.types && Id("inner") in c.types by {
      assert Id("inner").name != Id("outer").name;
    }
    var es := [a, g];
    assert es[..1] == [a] && [a][..0] == [];
    var s := Flat(ChoiceKind, Plain(ChoiceKind), false, [a], false);
    assert [] + [a] == [a] && [a][|[a]| - 1] == a;
    assert ExecElements(c, ChoiceKind, false, [], 0) == Ok(s.(elements := []));
    assert Step(c, s.(elements := []), a, 0) == Ok(s);
    assert ExecElements(c, ChoiceKind, false, [a], 0) == Ok(s);
    assert ExecElements(c, ChoiceKind, false, [], 1) == Ok(s.(elements := []));
    assert ExecElements(c, ChoiceKind, false, [a], 1) == Ok(s);
    assert Exec(c, Id("inner"), 1) == Ok(s);
    var scaled := ScaleAll([a], g.Bounds());
    assert scaled == [a];
    assert scaled[..0] == [];
    var t := s.(touched := true);
    assert AddAll(t, true, []) == Ok(t);
    assert AddAll(t, true, scaled) == Added(t, true, a);
    assert IndexOf(t.elements, a.ident) == 0;
    assert [a][0 := SumBounds(a, a)] == [SumBounds(a, a)];
    assert Step(c, s, g, 0) == Added(t, true, a);
  }

  lemma AcceptedBefore()
    ensures ComplexAccepts(TwiceTheSame(), Id("main"), [Child("a", ElementMode, 1).ident])
  {
    var types := TwiceTheSame();
    var a := Child("a", ElementMode, 1);
    var w := [a.ident];
    assert Power(a.ident, 1) == w;
    var e := ContentParticle(types[Id("main")].variant.complex);
    LeafParticle(types, a, w, 0);
    var v := types[Id("outer")].variant;
    assert v.group.elements[0] == a;
    assert VariantAccepts(types, v, w, 0);
    assert Once(types, e, w, 1);
    SingleOccurrence(types, e, w, 1);
  }

  lemma NotAcceptedAfter(types: MetaTypes, e: ElementMeta, d: nat)
    requires e.IsGroup() && e.maxOccurs == Bounded(1) && e.variant.type_ in types
    requires types[e.variant.type_].variant
          == Choice(GroupMeta(false, [SumBounds(Child("a", ElementMode, 1), Child("a", ElementMode, 1))]))
    ensures !Particle(types, e, [Child("a", ElementMode, 1).ident], d)
  {
    var w := [Child("a", ElementMode, 1).ident];
    var twice := SumBounds(Child("a", ElementMode, 1), Child("a", ElementMode, 1));
    var g := types[e.variant.type_].variant;
    forall d': nat
      ensures !GroupAccepts(types, e.variant.type_, w, d')
    {
      LeafParticle(types, twice, w, d');
      assert !Particle(types, g.group.elements[0], w, d');
      assert !VariantAccepts(types, g, w, d');
    }
    if Particle(types, e, w, d) {
      AtMostOnce(types, e, w, d);
    }
  }

  /** Without distinct identifiers in nested choices a word can be lost: here the single `a`. */
  lemma RepeatedAlternativeLosesWord()
    ensures FlattenComplexType(TwiceTheSame(), Id("main")).Ok?
    ensures ComplexAccepts(TwiceTheSame(), Id("main"), [Child("a", ElementMode, 1).ident])
    ensures !ComplexAccepts(FlattenComplexType(TwiceTheSame(), Id("main")).value, Id("main"), [Child("a", ElementMode, 1).ident])
  {
    TwiceTheSameFlattened();
    AcceptedBefore();
    var types := TwiceTheSame();
    var s := Exec(Config(types, MAX_DEPTH, true), Id("outer"), 0).value;
    assert HasContent(types, Id("main")) && ContentOf(types, Id("main")) == Id("outer");
    RewrittenTypes(types, Id("main"), s);
    var types' := FlattenComplexType(types, Id("main")).value;
    var e' := ContentParticle(types'[Id("main")].variant.complex);
    forall d: nat
      ensures !Particle(types', e', [Child("a", ElementMode, 1).ident], d)
    {
      NotAcceptedAfter(types', e', d);
    }
  }
}
