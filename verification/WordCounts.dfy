/**
  The fewest and the most children a content model asks for: of one identifier,
  or of all together. For groups in which everything may occur, both are
  attained by some word.
 */
module WordCounts {
  import opened Wrappers
  import opened Occurs
  import opened Meta
  import opened GroupGraph
  import opened ContentModel
  import opened Flatten
  import opened FlattenWords

  /** The fewest: of a choice those of the best alternative, otherwise those of all particles together. */
  function Least(types: MetaTypes, kind: Kind, es: seq<ElementMeta>, pick: Pick, r: nat): nat
    decreases r, 1, |es|
  {
    if es == [] then 0
    else
      var n := |es| - 1;
      var last := LeastOf(types, es[n], pick, r);
      if !kind.ChoiceKind? then Least(types, kind, es[..n], pick, r) + last
      else if n == 0 || last < Least(types, kind, es[..n], pick, r) then last
      else Least(types, kind, es[..n], pick, r)
  }

  function LeastOf(types: MetaTypes, e: ElementMeta, pick: Pick, r: nat): nat
    decreases r, 0
  {
    if !e.IsGroup() then (if Picks(e, pick) then e.minOccurs else 0)
    else if r > 0 && IsGroupType(types, e.variant.type_) then
      var v := types[e.variant.type_].variant;
      e.minOccurs * Least(types, KindOf(v), v.group.elements, pick, r - 1)
    else 0
  }

  /** The most, in the same way. */
  function Most(types: MetaTypes, kind: Kind, es: seq<ElementMeta>, pick: Pick, r: nat): MaxOccurs
    decreases r, 1, |es|
  {
    if es == [] then Bounded(0)
    else
      var n := |es| - 1;
      var last := MostOf(types, es[n], pick, r);
      if kind.ChoiceKind? then Most(types, kind, es[..n], pick, r).Max(last)
      else Most(types, kind, es[..n], pick, r).Add(last)
  }

  function MostOf(types: MetaTypes, e: ElementMeta, pick: Pick, r: nat): MaxOccurs
    decreases r, 0
  {
    if !e.IsGroup() then (if Picks(e, pick) then e.maxOccurs else Bounded(0))
    else if r > 0 && IsGroupType(types, e.variant.type_) then
      var v := types[e.variant.type_].variant;
      Repeated(Most(types, KindOf(v), v.group.elements, pick, r - 1), e.maxOccurs)
    else Bounded(0)
  }

  /** Repeating nothing gives nothing, however often. */
  function Repeated(m: MaxOccurs, times: MaxOccurs): MaxOccurs {
    if m == Bounded(0) then m else m.Mul(times)
  }

  /** Everything may occur: bounds admit some occurrence, and no group below is without elements. */
  ghost predicate Usable(types: MetaTypes, es: seq<ElementMeta>, r: nat)
    decreases r, 2
  {
    es != [] && AllUsable(types, es, r)
  }

  ghost predicate AllUsable(types: MetaTypes, es: seq<ElementMeta>, r: nat)
    decreases r, 1
  {
    forall i {:trigger UsableElement(types, es[i], r)} | 0 <= i < |es| :: UsableElement(types, es[i], r)
  }

  ghost predicate UsableElement(types: MetaTypes, e: ElementMeta, r: nat)
    decreases r, 0
  {
    && e.maxOccurs != Bounded(0) && e.maxOccurs.Allows(e.minOccurs)
    && (e.IsGroup() ==>
          && r > 0 && IsGroupType(types, e.variant.type_)
          && Usable(types, types[e.variant.type_].variant.group.elements, r - 1))
  }

  lemma UsableSnoc(types: MetaTypes, es: seq<ElementMeta>, r: nat)
    requires es != [] && AllUsable(types, es, r)
    ensures AllUsable(types, es[..|es| - 1], r) && UsableElement(types, es[|es| - 1], r)
  {
    forall i | 0 <= i < |es|
      ensures UsableElement(types, es[i], r)
    {
    }
  }

  // ---------- Counting

  lemma CountAppend(u: Word, v: Word, pick: Pick)
    ensures Count(u + v, pick) == Count(u, pick) + Count(v, pick)
  {
  }

  lemma {:induction false} CountRepeat(u: Word, k: nat, pick: Pick)
    ensures Count(Repeat(u, k), pick) == k * Count(u, pick)
    decreases k
  {
    if k > 0 {
      CountRepeat(u, k - 1, pick);
      CountAppend(Repeat(u, k - 1), u, pick);
      OnceMore(k, Count(u, pick));
    }
  }

  lemma OnceMore(k: nat, n: nat)
    requires k > 0
    ensures k * n == (k - 1) * n + n
  {
  }

  /** Two words, one after the other, are a word of particles in order and in any order. */
  lemma JoinWords(types: MetaTypes, kind: Kind, es: seq<ElementMeta>, u: Word, v: Word, d: nat)
    requires es != [] && !kind.ChoiceKind?
    requires KindAccepts(types, kind, es[..|es| - 1], u, d) && Particle(types, es[|es| - 1], v, d)
    ensures KindAccepts(types, kind, es, u + v, d)
  {
    var w := u + v;
    assert w[..|u|] == u && w[|u|..] == v;
    InterleavesAppend(u, v);
  }

  /** An alternative of a choice, the last one or an earlier one. */
  lemma AnAlternative(types: MetaTypes, es: seq<ElementMeta>, w: Word, d: nat)
    requires es != []
    requires Particle(types, es[|es| - 1], w, d) || KindAccepts(types, ChoiceKind, es[..|es| - 1], w, d)
    ensures KindAccepts(types, ChoiceKind, es, w, d)
  {
    if !Particle(types, es[|es| - 1], w, d) {
      var j :| 0 <= j < |es| - 1 && Particle(types, es[..|es| - 1][j], w, d);
      assert Particle(types, es[j], w, d);
    }
  }

  /** `k` times the same word. */
  lemma RepeatedParticle(types: MetaTypes, e: ElementMeta, u: Word, k: nat, d: nat) returns (w: Word)
    requires e.Bounds().Has(k) && (k > 0 ==> Once(types, e, u, d))
    ensures Particle(types, e, w, d) && forall pick: Pick :: Count(w, pick) == k * Count(u, pick)
  {
    w := Repeat(u, k);
    TimesRepeat(types, e, u, k, d);
    forall pick: Pick
      ensures Count(w, pick) == k * Count(u, pick)
    {
      CountRepeat(u, k, pick);
    }
  }

  // ---------- The fewest

  lemma {:induction false} LeastWord(types: MetaTypes, kind: Kind, es: seq<ElementMeta>, pick: Pick, r: nat, d: nat) returns (w: Word)
    requires AllUsable(types, es, r) && (kind.ChoiceKind? ==> es != []) && r <= d
    ensures KindAccepts(types, kind, es, w, d) && Count(w, pick) == Least(types, kind, es, pick, r)
    decreases r, 1, |es|
  {
    if es == [] {
      w := [];
    } else {
      var n := |es| - 1;
      UsableSnoc(types, es, r);
      var v := LeastParticle(types, es[n], pick, r, d);
      if !kind.ChoiceKind? {
        var u := LeastWord(types, kind, es[..n], pick, r, d);
        JoinWords(types, kind, es, u, v, d);
        CountAppend(u, v, pick);
        w := u + v;
      } else if n == 0 || LeastOf(types, es[n], pick, r) < Least(types, kind, es[..n], pick, r) {
        w := v;
        AnAlternative(types, es, w, d);
      } else {
        w := LeastWord(types, kind, es[..n], pick, r, d);
        AnAlternative(types, es, w, d);
      }
    }
  }

  lemma {:induction false} LeastParticle(types: MetaTypes, e: ElementMeta, pick: Pick, r: nat, d: nat) returns (w: Word)
    requires UsableElement(types, e, r) && r <= d
    ensures Particle(types, e, w, d) && Count(w, pick) == LeastOf(types, e, pick, r)
    decreases r, 0, 0
  {
    var u := [e.ident];
    if e.IsGroup() {
      var v := types[e.variant.type_].variant;
      u := LeastWord(types, KindOf(v), v.group.elements, pick, r - 1, d - 1);
      assert VariantAccepts(types, v, u, d - 1);
    }
    w := RepeatedParticle(types, e, u, e.minOccurs, d);
  }

  // ---------- The most

  /** The count is the maximum, or beyond `n` if there is none. */
  ghost predicate Attains(count: nat, max: MaxOccurs, n: nat) {
    if max.Bounded? then count == max.limit else count >= n
  }

  lemma AttainsSum(c: nat, a: MaxOccurs, d: nat, b: MaxOccurs, n: nat)
    requires Attains(c, a, n) && Attains(d, b, n)
    ensures Attains(c + d, a.Add(b), n)
  {
  }

  lemma MostStep(types: MetaTypes, kind: Kind, es: seq<ElementMeta>, pick: Pick, r: nat)
    requires es != []
    ensures var before, last := Most(types, kind, es[..|es| - 1], pick, r), MostOf(types, es[|es| - 1], pick, r);
            Most(types, kind, es, pick, r) ==
              if !kind.ChoiceKind? then before.Add(last)
              else if |es| == 1 || before.Le(last) then last
              else before
  {
  }

  lemma {:induction false} MostWord(types: MetaTypes, kind: Kind, es: seq<ElementMeta>, pick: Pick, r: nat, d: nat, n: nat)
    returns (w: Word)
    requires AllUsable(types, es, r) && (kind.ChoiceKind? ==> es != []) && r <= d
    ensures KindAccepts(types, kind, es, w, d) && Attains(Count(w, pick), Most(types, kind, es, pick, r), n)
    decreases r, 1, |es|
  {
    if es == [] {
      w := [];
    } else {
      var m := |es| - 1;
      UsableSnoc(types, es, r);
      var v := MostParticle(types, es[m], pick, r, d, n);
      MostStep(types, kind, es, pick, r);
      if !kind.ChoiceKind? {
        var u := MostWord(types, kind, es[..m], pick, r, d, n);
        JoinWords(types, kind, es, u, v, d);
        CountAppend(u, v, pick);
        AttainsSum(Count(u, pick), Most(types, kind, es[..m], pick, r), Count(v, pick), MostOf(types, es[m], pick, r), n);
        w := u + v;
      } else if m == 0 || Most(types, kind, es[..m], pick, r).Le(MostOf(types, es[m], pick, r)) {
        w := v;
        AnAlternative(types, es, w, d);
      } else {
        w := MostWord(types, kind, es[..m], pick, r, d, n);
        AnAlternative(types, es, w, d);
      }
    }
  }

  lemma {:induction false} MostParticle(types: MetaTypes, e: ElementMeta, pick: Pick, r: nat, d: nat, n: nat) returns (w: Word)
    requires UsableElement(types, e, r) && r <= d
    ensures Particle(types, e, w, d) && Attains(Count(w, pick), MostOf(types, e, pick, r), n)
    decreases r, 0, 0
  {
    var u := [e.ident];
    var once := if Picks(e, pick) then Bounded(1) else Bounded(0);
    if e.IsGroup() {
      var v := types[e.variant.type_].variant;
      u := MostWord(types, KindOf(v), v.group.elements, pick, r - 1, d - 1, n);
      once := Most(types, KindOf(v), v.group.elements, pick, r - 1);
      assert VariantAccepts(types, v, u, d - 1);
    }
    var k := if e.maxOccurs.Bounded? then e.maxOccurs.limit else e.minOccurs + n + 1;
    w := RepeatedParticle(types, e, u, k, d);
    assert Attains(Count(u, pick), once, n);
    EnoughTimes(Count(u, pick), once, e.maxOccurs, k, n);
  }

  lemma EnoughTimes(count: nat, once: MaxOccurs, times: MaxOccurs, k: nat, n: nat)
    requires Attains(count, once, n) && times != Bounded(0)
    requires if times.Bounded? then k == times.limit else k > n
    ensures Attains(k * count, Repeated(once, times), n)
  {
    if once != Bounded(0) && (once.Unbounded? || times.Unbounded?) {
      if once.Unbounded? {
        MulMono(k, count, 1, count);
      } else {
        MulMono(k, 1, k, count);
      }
    }
  }

  /** Where something may occur, the most is not nothing. */
  lemma {:induction false} MostIsSome(types: MetaTypes, kind: Kind, es: seq<ElementMeta>, r: nat)
    requires Usable(types, es, r)
    ensures Most(types, kind, es, Anything, r) != Bounded(0)
    decreases r, 1, |es|
  {
    var n := |es| - 1;
    UsableSnoc(types, es, r);
    MostOfIsSome(types, es[n], r);
    if n > 0 {
      MostIsSome(types, kind, es[..n], r);
    }
  }

  lemma {:induction false} MostOfIsSome(types: MetaTypes, e: ElementMeta, r: nat)
    requires UsableElement(types, e, r)
    ensures MostOf(types, e, Anything, r) != Bounded(0)
    decreases r, 0, 0
  {
    if e.IsGroup() {
      var v := types[e.variant.type_].variant;
      MostIsSome(types, KindOf(v), v.group.elements, r - 1);
      var m := Most(types, KindOf(v), v.group.elements, Anything, r - 1);
      if m.Bounded? && e.maxOccurs.Bounded? {
        MulMono(m.limit, 1, 1, e.maxOccurs.limit);
      }
    }
  }

  // ---------- Nothing in excess

  /** Every word has at least the fewest and at most the most. */
  lemma {:induction false} CountsBetween(types: MetaTypes, kind: Kind, es: seq<ElementMeta>, w: Word, d: nat, pick: Pick, r: nat)
    requires FiniteElements(types, es, r) && KindAccepts(types, kind, es, w, d)
    ensures Range(Least(types, kind, es, pick, r), Most(types, kind, es, pick, r)).Has(Count(w, pick))
    decreases r, 1, |es|
  {
    if es != [] {
      var front, e := es[..|es| - 1], es[|es| - 1];
      FiniteSnoc(types, es, r);
      MostStep(types, kind, es, pick, r);
      if kind.ChoiceKind? {
        if Particle(types, e, w, d) {
          ParticleBetween(types, e, w, d, pick, r);
        }
        if KindAccepts(types, kind, front, w, d) {
          CountsBetween(types, kind, front, w, d, pick, r);
        }
        EarlierOrLast(types, es, w, d);
      } else {
        var u, v := SplitLast(types, kind, es, w, d);
        CountsBetween(types, kind, front, u, d, pick, r);
        ParticleBetween(types, e, v, d, pick, r);
        JoinedCount(u, v, w, pick);
        AddAllows(Most(types, kind, front, pick, r), MostOf(types, e, pick, r), Count(u, pick), Count(v, pick));
      }
    }
  }

  lemma EarlierOrLast(types: MetaTypes, es: seq<ElementMeta>, w: Word, d: nat)
    requires es != [] && ChoiceOf(types, es, w, d)
    ensures Particle(types, es[|es| - 1], w, d) || (|es| > 1 && ChoiceOf(types, es[..|es| - 1], w, d))
  {
    var j :| 0 <= j < |es| && Particle(types, es[j], w, d);
    if j < |es| - 1 {
      assert Particle(types, es[..|es| - 1][j], w, d);
    }
  }

  lemma FiniteSnoc(types: MetaTypes, es: seq<ElementMeta>, r: nat)
    requires es != [] && FiniteElements(types, es, r)
    ensures FiniteElements(types, es[..|es| - 1], r) && FiniteElements(types, [es[|es| - 1]], r)
  {
    assert es[|es| - 1] == [es[|es| - 1]][0];
  }

  lemma {:induction false} ParticleBetween(types: MetaTypes, e: ElementMeta, w: Word, d: nat, pick: Pick, r: nat)
    requires FiniteElements(types, [e], r) && Particle(types, e, w, d)
    ensures Range(LeastOf(types, e, pick, r), MostOf(types, e, pick, r)).Has(Count(w, pick))
    decreases r, 0, 0
  {
    if e.IsGroup() {
      assert [e][0] == e;
      assert FiniteTree(types, e.variant.type_, r - 1);
      var v := types[e.variant.type_].variant;
      var once := Range(Least(types, KindOf(v), v.group.elements, pick, r - 1), Most(types, KindOf(v), v.group.elements, pick, r - 1));
      forall u | Once(types, e, u, d)
        ensures once.Has(Count(u, pick))
      {
        assert GroupAccepts(types, e.variant.type_, u, d - 1);
        assert VariantAccepts(types, v, u, d - 1);
        CountsBetween(types, KindOf(v), v.group.elements, u, d - 1, pick, r - 1);
      }
      var k: nat :| e.Bounds().Has(k) && Times(types, e, k, w, d);
      TimesCount(types, e, k, w, d, pick, once);
      RepeatRange(e.Bounds(), once, k, Count(w, pick));
      RepeatedAllows(e.maxOccurs, once.max, k, Count(w, pick));
    } else {
      LeafParticle(types, e, w, d);
      PowerCount(e.ident, |w|, pick);
    }
  }

  lemma RepeatedAllows(times: MaxOccurs, once: MaxOccurs, k: nat, count: nat)
    requires times.Mul(once).Allows(count) && (once.Bounded? ==> count <= k * once.limit)
    ensures Repeated(once, times).Allows(count)
  {
    if times.Bounded? && once.Bounded? {
      assert times.limit * once.limit == once.limit * times.limit;
    }
    if once == Bounded(0) {
      assert k * 0 == 0;
    }
  }
}
