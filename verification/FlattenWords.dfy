/**
  Flattening loses no word: every word of children a complex type accepts
  before its content is flattened is still accepted afterwards.
 */
module FlattenWords {
  import opened Wrappers
  import opened Occurs
  import opened Meta
  import opened ContentModel
  import opened Flatten

  // ---------- Shape of the input

  ghost predicate AllLeaves(es: seq<ElementMeta>) {
    forall i | 0 <= i < |es| :: !es[i].IsGroup()
  }

  function IdentsOf(es: seq<ElementMeta>): seq<PropertyIdent> {
    if es == [] then [] else IdentsOf(es[..|es| - 1]) + [es[|es| - 1].ident]
  }

  lemma {:induction false} IdentAt(es: seq<ElementMeta>, i: nat)
    requires i < |es|
    ensures |IdentsOf(es)| == |es| && IdentsOf(es)[i] == es[i].ident
    decreases |es|
  {
    if |es| > 1 {
      IdentAt(es[..|es| - 1], if i < |es| - 1 then i else 0);
    }
  }

  lemma {:induction false} SameIdents(a: seq<ElementMeta>, b: seq<ElementMeta>)
    requires |a| == |b| && forall i | 0 <= i < |a| :: a[i].ident == b[i].ident
    ensures IdentsOf(a) == IdentsOf(b)
    decreases |a|
  {
    if a != [] {
      SameIdents(a[..|a| - 1], b[..|a| - 1]);
    }
  }

  ghost predicate NoRepeat<T(!new)>(s: seq<T>) {
    forall i, j | 0 <= i < j < |s| :: s[i] != s[j]
  }

  /** The groups below `t` form a tree of at most `r` further levels (section 3.8.6 forbids circular groups). */
  ghost predicate FiniteTree(types: MetaTypes, t: TypeIdent, r: nat)
    decreases r, 1
  {
    t in types && types[t].variant.IsGroup() && FiniteElements(types, types[t].variant.group.elements, r)
  }

  ghost predicate FiniteElements(types: MetaTypes, es: seq<ElementMeta>, r: nat)
    decreases r, 0
  {
    forall i | 0 <= i < |es| && es[i].IsGroup() :: r > 0 && FiniteTree(types, es[i].variant.type_, r - 1)
  }

  /** The leaf identifiers met in `es` and in the groups of the same kind nested directly in it. */
  function KindLeaves(types: MetaTypes, kind: Kind, es: seq<ElementMeta>, r: nat): seq<PropertyIdent>
    decreases r, 1, |es|
  {
    if es == [] then []
    else KindLeaves(types, kind, es[..|es| - 1], r) + ElementLeaves(types, kind, es[|es| - 1], r)
  }

  function ElementLeaves(types: MetaTypes, kind: Kind, e: ElementMeta, r: nat): seq<PropertyIdent>
    decreases r, 0
  {
    if !e.IsGroup() then [e.ident]
    else if r > 0 && HasKind(types, e.variant.type_, kind) then
      KindLeaves(types, kind, types[e.variant.type_].variant.group.elements, r - 1)
    else []
  }

  predicate HasKind(types: MetaTypes, t: TypeIdent, kind: Kind) {
    t in types && types[t].variant.IsGroup() && KindOf(types[t].variant) == kind
  }

  /**
    No identifier is repeated across directly nested choices (the unique
    particle attribution rule, section 3.8.6) and no choice nested directly in
    a choice is without alternatives.
   */
  ghost predicate ChoicesOk(types: MetaTypes, t: TypeIdent, r: nat)
    decreases r, 1
  {
    t in types && types[t].variant.IsGroup()
    && ChoiceElementsOk(types, KindOf(types[t].variant), types[t].variant.group.elements, r)
  }

  ghost predicate ChoiceElementsOk(types: MetaTypes, kind: Kind, es: seq<ElementMeta>, r: nat)
    decreases r, 0
  {
    && (kind.ChoiceKind? ==> NoRepeat(KindLeaves(types, kind, es, r)))
    && forall i | 0 <= i < |es| && es[i].IsGroup() && r > 0 ::
         && ChoicesOk(types, es[i].variant.type_, r - 1)
         && (kind.ChoiceKind? && types[es[i].variant.type_].variant.Choice? ==>
               types[es[i].variant.type_].variant.group.elements != [])
  }

  // ---------- Counting bounds of flat groups

  /** What is counted: the occurrences of one identifier, or all letters. */
  datatype Pick = Anything | Only(id: PropertyIdent)

  ghost function Count(w: Word, pick: Pick): nat {
    if pick.Anything? then |w| else multiset(w)[pick.id]
  }

  function SumRange(a: Range, b: Range): Range {
    Range(a.min + b.min, a.max.Add(b.max))
  }

  predicate Picks(e: ElementMeta, pick: Pick) {
    pick.Anything? || e.ident == pick.id
  }

  /** Adds the bounds of `e`, if it is counted, to `r`. */
  function Tally(r: Range, e: ElementMeta, pick: Pick): Range {
    if Picks(e, pick) then SumRange(r, e.Bounds()) else r
  }

  /** How often `pick` may occur in a word of the leaf list `es`. */
  function CountRange(es: seq<ElementMeta>, pick: Pick): Range {
    if es == [] then Exactly(0) else Tally(CountRange(es[..|es| - 1], pick), es[|es| - 1], pick)
  }

  ghost predicate CountsWithin(es: seq<ElementMeta>, w: Word) {
    forall pick: Pick :: CountRange(es, pick).Has(Count(w, pick))
  }

  ghost predicate LettersIn(es: seq<ElementMeta>, w: Word) {
    forall x | x in w :: x in IdentsOf(es)
  }

  /** What the flattened group `s` still says about the word `w`. */
  ghost predicate Represents(s: Flat, w: Word, tidy: bool) {
    match s.mode
    case Mixed(o) => LettersIn(s.elements, w) && o.Has(|w|)
    case Plain(ChoiceKind) => ChoiceOf(map[], s.elements, w, 0)
    case Plain(AllKind) => CountsWithin(s.elements, w) && Proper(s.elements)
    case Plain(SequenceKind) =>
      CountsWithin(s.elements, w) && Proper(s.elements) && (tidy ==> SequenceOf(map[], s.elements, w, 0))
  }

  /** Outside choices, the range `into_mixed` computes counts all letters. */
  lemma {:induction false} LengthIsCount(kind: Kind, es: seq<ElementMeta>)
    requires !kind.ChoiceKind?
    ensures LengthRange(kind, es) == CountRange(es, Anything)
    decreases |es|
  {
    if es != [] {
      LengthIsCount(kind, es[..|es| - 1]);
    }
  }

  lemma {:induction false} UnlistedCount(es: seq<ElementMeta>, id: PropertyIdent)
    requires id !in IdentsOf(es)
    ensures CountRange(es, Only(id)) == Exactly(0)
    decreases |es|
  {
    if es != [] {
      UnlistedCount(es[..|es| - 1], id);
    }
  }

  lemma CountsGiveLetters(es: seq<ElementMeta>, w: Word)
    requires CountsWithin(es, w)
    ensures LettersIn(es, w)
  {
    forall x | x in w
      ensures x in IdentsOf(es)
    {
      assert CountRange(es, Only(x)).Has(Count(w, Only(x)));
      if x !in IdentsOf(es) {
        UnlistedCount(es, x);
      }
    }
  }

  /** The range `into_mixed` computes for alternatives covers each of them. */
  lemma {:induction false} AlternativeInRange(es: seq<ElementMeta>, j: nat, n: nat)
    requires j < |es| && es[j].Bounds().Has(n)
    ensures LengthRange(ChoiceKind, es).Has(n)
    decreases |es|
  {
    if j < |es| - 1 {
      AlternativeInRange(es[..|es| - 1], j, n);
    }
  }

  /** Switching to mixed mode keeps every represented word. */
  lemma MixedKeeps(s: Flat, w: Word, tidy: bool)
    requires AllLeaves(s.elements) && Represents(s, w, tidy)
    requires s.mode.Plain? ==> s.mode.kind == s.kind
    ensures Represents(ToMixed(s), w, tidy)
  {
    if s.mode.Plain? {
      if s.kind.ChoiceKind? {
        var j :| 0 <= j < |s.elements| && Particle(map[], s.elements[j], w, 0);
        LeafParticle(map[], s.elements[j], w, 0);
        AlternativeInRange(s.elements, j, |w|);
        IdentAt(s.elements, j);
        forall x | x in w
          ensures x in IdentsOf(s.elements)
        {
          var i :| 0 <= i < |w| && w[i] == x;
          assert Power(s.elements[j].ident, |w|)[i] == x;
        }
      } else {
        CountsGiveLetters(s.elements, w);
        LengthIsCount(s.kind, s.elements);
        assert CountRange(s.elements, Anything).Has(Count(w, Anything));
      }
      SameIdents(ResetAll(s.elements), s.elements);
    }
  }

  // ---------- Adding elements

  lemma SumSwap(r: Range, a: Range, b: Range)
    ensures SumRange(SumRange(r, a), b) == SumRange(SumRange(r, b), a)
  {
  }

  lemma TallySwap(r: Range, a: ElementMeta, b: ElementMeta, pick: Pick)
    ensures Tally(Tally(r, a, pick), b, pick) == Tally(Tally(r, b, pick), a, pick)
  {
    SumSwap(r, a.Bounds(), b.Bounds());
  }

  lemma TallyMerged(r: Range, a: ElementMeta, b: ElementMeta, pick: Pick)
    requires a.ident == b.ident
    ensures Tally(r, SumBounds(a, b), pick) == Tally(Tally(r, a, pick), b, pick)
  {
  }

  lemma {:induction false} UpdatedCounts(es: seq<ElementMeta>, j: nat, e: ElementMeta, pick: Pick)
    requires j < |es| && es[j].ident == e.ident
    ensures CountRange(es[j := SumBounds(es[j], e)], pick) == Tally(CountRange(es, pick), e, pick)
    decreases |es|
  {
    var n := |es| - 1;
    var sum := SumBounds(es[j], e);
    var init := CountRange(es[..n], pick);
    var es' := es[j := sum];
    if j < n {
      UpdatedCounts(es[..n], j, e, pick);
      assert es'[..n] == es[..n][j := sum];
      TallySwap(init, e, es[n], pick);
    } else {
      assert es'[..n] == es[..n];
      TallyMerged(init, es[n], e, pick);
    }
  }

  /** Adding `e` to a plain group adds its bounds, whether its identifier is new or not. */
  lemma AddedCounts(s: Flat, e: ElementMeta, pick: Pick)
    requires s.mode.Plain? && Added(s, true, e).Ok?
    ensures CountRange(Added(s, true, e).value.elements, pick) == Tally(CountRange(s.elements, pick), e, pick)
  {
    var i := IndexOf(s.elements, e.ident);
    if s.touched && i < |s.elements| {
      UpdatedCounts(s.elements, i, e, pick);
    } else {
      assert (s.elements + [e])[..|s.elements|] == s.elements;
    }
  }

  lemma {:induction false} AddAllCounts(s: Flat, es: seq<ElementMeta>, pick: Pick)
    requires s.mode.Plain? && AddAll(s, true, es).Ok?
    ensures AddAll(s, true, es).value.mode == s.mode
    ensures CountRange(AddAll(s, true, es).value.elements, pick) == CountRange(s.elements + es, pick)
    decreases |es|
  {
    if es == [] {
      assert s.elements + es == s.elements;
    } else {
      var n := |es| - 1;
      AddAllCounts(s, es[..n], pick);
      var m := AddAll(s, true, es[..n]).value;
      AddedCounts(m, es[n], pick);
      AppendedCounts(s.elements, es, pick);
    }
  }

  lemma AppendedCounts(a: seq<ElementMeta>, b: seq<ElementMeta>, pick: Pick)
    requires b != []
    ensures CountRange(a + b, pick) == Tally(CountRange(a + b[..|b| - 1], pick), b[|b| - 1], pick)
  {
    assert (a + b)[..|a + b| - 1] == a + b[..|b| - 1];
  }

  /** Every element occurs exactly once, as in a mixed group. */
  ghost predicate AllSingle(es: seq<ElementMeta>) {
    forall i | 0 <= i < |es| :: es[i].Bounds() == Exactly(1)
  }

  /** The element list of a group after a single addition, and the element that was added or updated in it. */
  lemma AddedList(s: Flat, updateOccurs: bool, e: ElementMeta) returns (i: nat, x: ElementMeta)
    requires Added(s, updateOccurs, e).Ok?
    ensures var es := Added(s, updateOccurs, e).value.elements;
            && i <= |s.elements| && x.ident == e.ident
            && (if i < |s.elements| then es == s.elements[i := x] && s.elements[i].ident == e.ident && x.variant == s.elements[i].variant
                else es == s.elements + [x] && x.variant == e.variant && (s.mode.Plain? ==> x == e))
  {
    i := if s.touched then IndexOf(s.elements, e.ident) else |s.elements|;
    var es := Added(s, updateOccurs, e).value.elements;
    x := es[i];
  }

  lemma AppendedShape(es: seq<ElementMeta>, e: ElementMeta)
    requires AllLeaves(es) && !e.IsGroup()
    ensures AllLeaves(es + [e]) && IdentsOf(es + [e]) == IdentsOf(es) + [e.ident]
  {
    assert (es + [e])[..|es|] == es;
  }

  lemma UpdatedShape(es: seq<ElementMeta>, i: nat, x: ElementMeta)
    requires AllLeaves(es) && i < |es| && x.ident == es[i].ident && x.variant == es[i].variant
    ensures AllLeaves(es[i := x]) && IdentsOf(es[i := x]) == IdentsOf(es) && x.ident in IdentsOf(es)
  {
    IdentAt(es, i);
    SameIdents(es[i := x], es);
  }

  /** Kind and mode under a single addition. */
  lemma AddedMode(s: Flat, updateOccurs: bool, e: ElementMeta)
    requires Added(s, updateOccurs, e).Ok?
    ensures var s' := Added(s, updateOccurs, e).value;
            && s'.kind == s.kind && s'.touched == s.touched
            && (s'.mode.Plain? <==> s.mode.Plain?) && (s.mode.Plain? ==> s'.mode == s.mode)
            && (!updateOccurs ==> s'.mode == s.mode)
  {
  }

  /** Identifiers and shape under a single addition. */
  lemma AddedShape(s: Flat, updateOccurs: bool, e: ElementMeta)
    requires Added(s, updateOccurs, e).Ok? && AllLeaves(s.elements) && !e.IsGroup()
    ensures var s' := Added(s, updateOccurs, e).value;
            && AllLeaves(s'.elements)
            && (forall x :: x in IdentsOf(s'.elements) <==> x in IdentsOf(s.elements) || x == e.ident)
            && (s.mode.Plain? && e.ident !in IdentsOf(s.elements) ==> s'.elements == s.elements + [e])
  {
    var i, x := AddedList(s, updateOccurs, e);
    if i < |s.elements| {
      UpdatedShape(s.elements, i, x);
    } else {
      AppendedShape(s.elements, x);
    }
  }

  lemma {:induction false} AddAllMode(s: Flat, updateOccurs: bool, es: seq<ElementMeta>)
    requires AddAll(s, updateOccurs, es).Ok?
    requires updateOccurs ==> s.mode.Plain?
    ensures var s' := AddAll(s, updateOccurs, es).value;
            s'.kind == s.kind && s'.touched == s.touched && s'.mode == s.mode
    decreases |es|
  {
    if es != [] {
      AddAllMode(s, updateOccurs, es[..|es| - 1]);
      AddedMode(AddAll(s, updateOccurs, es[..|es| - 1]).value, updateOccurs, es[|es| - 1]);
    }
  }

  lemma {:induction false} AddAllIdents(s: Flat, updateOccurs: bool, es: seq<ElementMeta>)
    requires AddAll(s, updateOccurs, es).Ok? && AllLeaves(s.elements) && AllLeaves(es)
    ensures var s' := AddAll(s, updateOccurs, es).value;
            && AllLeaves(s'.elements)
            && (forall x :: x in IdentsOf(s'.elements) <==> x in IdentsOf(s.elements) || x in IdentsOf(es))
    decreases |es|
  {
    if es != [] {
      AddAllIdents(s, updateOccurs, es[..|es| - 1]);
      AddedShape(AddAll(s, updateOccurs, es[..|es| - 1]).value, updateOccurs, es[|es| - 1]);
    }
  }

  lemma {:induction false} AddAllAppends(s: Flat, updateOccurs: bool, es: seq<ElementMeta>)
    requires AddAll(s, updateOccurs, es).Ok? && AllLeaves(s.elements) && AllLeaves(es)
    requires s.mode.Plain? && NoRepeat(IdentsOf(s.elements) + IdentsOf(es))
    ensures AddAll(s, updateOccurs, es).value.elements == s.elements + es
    ensures AddAll(s, updateOccurs, es).value.mode.Plain?
    decreases |es|
  {
    if es == [] {
      assert s.elements + es == s.elements;
    } else {
      var n := |es| - 1;
      FreshLast(IdentsOf(s.elements), IdentsOf(es[..n]), es[n].ident);
      AddAllAppends(s, updateOccurs, es[..n]);
      var m := AddAll(s, updateOccurs, es[..n]).value;
      AppendIdents(s.elements, es[..n]);
      AddedMode(m, updateOccurs, es[n]);
      AddedShape(m, updateOccurs, es[n]);
      AppendLast(s.elements, es);
    }
  }

  lemma AddAllShape(s: Flat, updateOccurs: bool, es: seq<ElementMeta>)
    requires AddAll(s, updateOccurs, es).Ok? && AllLeaves(s.elements) && AllLeaves(es)
    requires updateOccurs ==> s.mode.Plain?
    ensures var s' := AddAll(s, updateOccurs, es).value;
            && s'.kind == s.kind && s'.touched == s.touched && AllLeaves(s'.elements) && s'.mode == s.mode
            && (forall x :: x in IdentsOf(s'.elements) <==> x in IdentsOf(s.elements) || x in IdentsOf(es))
            && (s.mode.Plain? && NoRepeat(IdentsOf(s.elements) + IdentsOf(es)) ==> s'.elements == s.elements + es)
  {
    AddAllMode(s, updateOccurs, es);
    AddAllIdents(s, updateOccurs, es);
    if s.mode.Plain? && NoRepeat(IdentsOf(s.elements) + IdentsOf(es)) {
      AddAllAppends(s, updateOccurs, es);
    }
  }

  lemma AddedSingle(s: Flat, updateOccurs: bool, e: ElementMeta)
    requires Added(s, updateOccurs, e).Ok? && s.mode.Mixed? && s.touched && AllSingle(s.elements)
    requires updateOccurs || e.Bounds() == Exactly(1)
    ensures AllSingle(Added(s, updateOccurs, e).value.elements)
  {
  }

  lemma {:induction false} AddAllSingle(s: Flat, es: seq<ElementMeta>)
    requires AddAll(s, false, es).Ok? && s.mode.Mixed? && s.touched && AllSingle(s.elements)
    requires AllSingle(es) && AllLeaves(s.elements) && AllLeaves(es)
    ensures AllSingle(AddAll(s, false, es).value.elements)
    decreases |es|
  {
    if es != [] {
      var n := |es| - 1;
      AddAllSingle(s, es[..n]);
      AddAllShape(s, false, es[..n]);
      AddedSingle(AddAll(s, false, es[..n]).value, false, es[n]);
    }
  }

  /** Bounds that admit some count, as section 3.9.6 of XML Schema Part 1 demands. */
  ghost predicate Proper(es: seq<ElementMeta>) {
    forall i | 0 <= i < |es| :: es[i].maxOccurs.Allows(es[i].minOccurs)
  }

  lemma ProperAdded(s: Flat, e: ElementMeta)
    requires Added(s, true, e).Ok? && s.mode.Plain? && Proper(s.elements) && e.maxOccurs.Allows(e.minOccurs)
    ensures Proper(Added(s, true, e).value.elements)
  {
    var i := IndexOf(s.elements, e.ident);
    if s.touched && i < |s.elements| {
      AddAllows(s.elements[i].maxOccurs, e.maxOccurs, s.elements[i].minOccurs, e.minOccurs);
    }
  }

  lemma {:induction false} ProperAddAll(s: Flat, es: seq<ElementMeta>)
    requires AddAll(s, true, es).Ok? && s.mode.Plain? && Proper(s.elements) && Proper(es)
    ensures Proper(AddAll(s, true, es).value.elements)
    decreases |es|
  {
    if es != [] {
      var n := |es| - 1;
      ProperAddAll(s, es[..n]);
      AddAllCounts(s, es[..n], Anything);
      ProperAdded(AddAll(s, true, es[..n]).value, es[n]);
    }
  }

  lemma ProperScaled(es: seq<ElementMeta>, f: Range, k: nat)
    requires f.Has(k) && (k > 0 ==> Proper(es))
    ensures Proper(ScaleAll(es, f))
  {
    forall i | 0 <= i < |es|
      ensures Scale(es[i], f).maxOccurs.Allows(Scale(es[i], f).minOccurs)
    {
      if k > 0 && es[i].maxOccurs.Bounded? && f.max.Bounded? {
        MulMono(es[i].maxOccurs.limit, f.min, es[i].minOccurs, f.max.limit);
      } else if k == 0 {
        assert es[i].minOccurs * 0 == 0;
      }
    }
  }

  lemma ScaledOnce(es: seq<ElementMeta>)
    ensures ScaleAll(es, Exactly(1)) == es
  {
    forall i | 0 <= i < |es|
      ensures ScaleAll(es, Exactly(1))[i] == es[i]
    {
      assert es[i].maxOccurs.Mul(Bounded(1)) == es[i].maxOccurs;
    }
  }

  lemma {:induction false} AppendIdents(a: seq<ElementMeta>, b: seq<ElementMeta>)
    ensures IdentsOf(a + b) == IdentsOf(a) + IdentsOf(b)
    decreases |b|
  {
    if b == [] {
      assert a + b == a;
    } else {
      AppendIdents(a, b[..|b| - 1]);
      assert (a + b)[..|a + b| - 1] == a + b[..|b| - 1];
    }
  }

  lemma AppendLast<T>(a: seq<T>, b: seq<T>)
    requires b != []
    ensures a + b == a + b[..|b| - 1] + [b[|b| - 1]]
  {
  }

  lemma FreshLast<T(!new)>(a: seq<T>, b: seq<T>, x: T)
    requires NoRepeat(a + (b + [x]))
    ensures NoRepeat(a + b) && x !in a + b
  {
    var s := a + (b + [x]);
    assert s[|s| - 1] == x;
    assert s[..|s| - 1] == a + b;
    assert forall i | 0 <= i < |s| - 1 :: s[i] != s[|s| - 1];
  }

  // ---------- Shape of the output

  /** The groups flattened so far, seen from outside. */
  ghost predicate Shaped(types: MetaTypes, s: Flat, kind: Kind, es: seq<ElementMeta>, r: nat) {
    && s.kind == kind && AllLeaves(s.elements)
    && (s.mode.Plain? ==> s.mode.kind == kind)
    && (s.mode.Mixed? ==> s.touched && AllSingle(s.elements))
    && (s.mode.Plain? && NoRepeat(KindLeaves(types, kind, es, r)) ==>
          IdentsOf(s.elements) == KindLeaves(types, kind, es, r))
    && (s.mode.Plain? && kind.ChoiceKind? && es != [] && ChoiceElementsOk(types, kind, es, r) ==> s.elements != [])
  }

  ghost predicate Apart<T(!new)>(a: seq<T>, b: seq<T>) {
    forall x | x in b :: x !in a
  }

  lemma PrefixNoRepeat<T(!new)>(a: seq<T>, b: seq<T>)
    requires NoRepeat(a + b)
    ensures NoRepeat(a) && NoRepeat(b) && Apart(a, b)
  {
    var s := a + b;
    forall i, j | 0 <= i < j < |a|
      ensures a[i] != a[j]
    {
      assert s[i] == a[i] && s[j] == a[j];
    }
    forall i, j | 0 <= i < j < |b|
      ensures b[i] != b[j]
    {
      assert s[|a| + i] == b[i] && s[|a| + j] == b[j];
    }
    forall i, j | 0 <= i < |a| && 0 <= j < |b|
      ensures a[i] != b[j]
    {
      assert s[i] == a[i] && s[|a| + j] == b[j];
    }
  }

  lemma PrefixChoicesOk(types: MetaTypes, kind: Kind, es: seq<ElementMeta>, r: nat)
    requires es != [] && ChoiceElementsOk(types, kind, es, r)
    ensures ChoiceElementsOk(types, kind, es[..|es| - 1], r)
  {
    if kind.ChoiceKind? {
      PrefixNoRepeat(KindLeaves(types, kind, es[..|es| - 1], r), ElementLeaves(types, kind, es[|es| - 1], r));
    }
  }

  lemma MergedShape(s: Flat, el: ElementMeta, other: Flat)
    requires AllLeaves(s.elements) && AllLeaves(other.elements) && Merged(s, el, other).Ok?
    ensures var s' := Merged(s, el, other).value;
            && ((s.mode.Mixed? ==> AllSingle(s.elements)) && !KeepsKind(s, el, other) ==> AllSingle(s'.elements))
            && s'.kind == s.kind && AllLeaves(s'.elements) && s'.touched
            && (s'.mode.Plain? <==> KeepsKind(s, el, other))
            && (KeepsKind(s, el, other) ==> s'.mode == s.mode)
            && (!KeepsKind(s, el, other) ==> s'.mode == Mixed(MergedRange(s, el, other)))
            && (forall x :: x in IdentsOf(s'.elements) <==> x in IdentsOf(s.elements) || x in IdentsOf(other.elements))
            && (KeepsKind(s, el, other) && NoRepeat(IdentsOf(s.elements) + IdentsOf(other.elements)) ==>
                  s'.elements == s.elements + ScaleAll(other.elements, el.Bounds()))
  {
    if KeepsKind(s, el, other) {
      SameIdents(ScaleAll(other.elements, el.Bounds()), other.elements);
      AddAllShape(s.(touched := true, isMixed := s.isMixed || other.isMixed), true, ScaleAll(other.elements, el.Bounds()));
    } else {
      var a, b := ToMixed(s), ToMixed(other);
      SameIdents(a.elements, s.elements);
      SameIdents(b.elements, other.elements);
      SameIdents(ResetAll(b.elements), other.elements);
      var start := a.(mode := Mixed(MergedRange(s, el, other)), isMixed := s.isMixed || other.isMixed);
      AddAllShape(start, false, ResetAll(b.elements));
      if s.mode.Mixed? ==> AllSingle(s.elements) {
        AddAllSingle(start, ResetAll(b.elements));
      }
    }
  }

  /** The range of a mixed merge. */
  function MergedRange(s: Flat, el: ElementMeta, other: Flat): Range {
    var b := ToMixed(other).mode.occurs;
    Update(ToMixed(s).mode.occurs, s.kind, Range(b.min * el.minOccurs, b.max.Mul(el.maxOccurs)))
  }

  ghost predicate Runs(c: Config, es: seq<ElementMeta>, depth: nat, r: nat) {
    c.flattenNamedGroups && depth + r < c.maxDepth && FiniteElements(c.types, es, r)
  }

  /** The group an element refers to, one level down. */
  lemma NestedRuns(c: Config, es: seq<ElementMeta>, i: nat, depth: nat, r: nat)
    requires Runs(c, es, depth, r) && i < |es| && es[i].IsGroup()
    ensures r > 0 && es[i].variant.type_ in c.types && c.types[es[i].variant.type_].variant.IsGroup()
    ensures Runs(c, c.types[es[i].variant.type_].variant.group.elements, depth + 1, r - 1)
  {
    assert FiniteTree(c.types, es[i].variant.type_, r - 1);
  }

  lemma NestedChoicesOk(types: MetaTypes, kind: Kind, es: seq<ElementMeta>, i: nat, r: nat)
    requires ChoiceElementsOk(types, kind, es, r) && i < |es| && es[i].IsGroup() && r > 0
    ensures es[i].variant.type_ in types && types[es[i].variant.type_].variant.IsGroup()
    ensures var v := types[es[i].variant.type_].variant;
            && ChoiceElementsOk(types, KindOf(v), v.group.elements, r - 1)
            && (kind.ChoiceKind? && v.Choice? ==> v.group.elements != [])
  {
    assert ChoicesOk(types, es[i].variant.type_, r - 1);
  }

  lemma {:induction false} ElementsShape(c: Config, kind: Kind, isMixed: bool, es: seq<ElementMeta>, depth: nat, r: nat)
    requires Runs(c, es, depth, r) && ExecElements(c, kind, isMixed, es, depth).Ok?
    ensures Shaped(c.types, ExecElements(c, kind, isMixed, es, depth).value, kind, es, r)
    decreases r, |es|
  {
    if es != [] {
      var n := |es| - 1;
      ElementsShape(c, kind, isMixed, es[..n], depth, r);
      var s := ExecElements(c, kind, isMixed, es[..n], depth).value;
      if NoRepeat(KindLeaves(c.types, kind, es, r)) {
        PrefixNoRepeat(KindLeaves(c.types, kind, es[..n], r), ElementLeaves(c.types, kind, es[n], r));
      }
      if ChoiceElementsOk(c.types, kind, es, r) {
        PrefixChoicesOk(c.types, kind, es, r);
      }
      if es[n].IsGroup() {
        NestedRuns(c, es, n, depth, r);
        assert Step(c, s, es[n], depth).Ok?;
        assert Exec(c, es[n].variant.type_, depth + 1).Ok?;
        var g := c.types[es[n].variant.type_].variant;
        ElementsShape(c, KindOf(g), g.group.isMixed, g.group.elements, depth + 1, r - 1);
        GroupShape(c, s, kind, es, depth, r);
      } else {
        LeafShape(c.types, s, kind, es, r);
      }
    }
  }

  lemma LeafShape(types: MetaTypes, s: Flat, kind: Kind, es: seq<ElementMeta>, r: nat)
    requires es != [] && !es[|es| - 1].IsGroup()
    requires Shaped(types, s, kind, es[..|es| - 1], r)
    requires Added(s, true, es[|es| - 1]).Ok?
    requires NoRepeat(KindLeaves(types, kind, es, r)) ==> NoRepeat(KindLeaves(types, kind, es[..|es| - 1], r))
    ensures Shaped(types, Added(s, true, es[|es| - 1]).value, kind, es, r)
  {
    var e := es[|es| - 1];
    AddedShape(s, true, e);
    var s' := Added(s, true, e).value;
    if s.mode.Plain? && NoRepeat(KindLeaves(types, kind, es, r)) {
      PrefixNoRepeat(KindLeaves(types, kind, es[..|es| - 1], r), ElementLeaves(types, kind, e, r));
      assert e.ident in [e.ident];
      assert s'.elements[..|s.elements|] == s.elements;
    }
    assert e.ident in IdentsOf(s'.elements);
    if s.mode.Mixed? {
      AddedSingle(s, true, e);
    }
  }

  lemma GroupShape(c: Config, s: Flat, kind: Kind, es: seq<ElementMeta>, depth: nat, r: nat)
    requires es != [] && es[|es| - 1].IsGroup() && Runs(c, es, depth, r)
    requires Shaped(c.types, s, kind, es[..|es| - 1], r)
    requires Step(c, s, es[|es| - 1], depth).Ok?
    requires es[|es| - 1].variant.type_ in c.types && c.types[es[|es| - 1].variant.type_].variant.IsGroup()
    requires var g := c.types[es[|es| - 1].variant.type_].variant;
             r > 0 && Shaped(c.types, Exec(c, es[|es| - 1].variant.type_, depth + 1).value, KindOf(g), g.group.elements, r - 1)
    requires NoRepeat(KindLeaves(c.types, kind, es, r)) ==> NoRepeat(KindLeaves(c.types, kind, es[..|es| - 1], r))
    requires ChoiceElementsOk(c.types, kind, es, r) ==> ChoiceElementsOk(c.types, kind, es[..|es| - 1], r)
    ensures Shaped(c.types, Step(c, s, es[|es| - 1], depth).value, kind, es, r)
  {
    var e := es[|es| - 1];
    var inner := Exec(c, e.variant.type_, depth + 1).value;
    MergedShape(s, e, inner);
    var s' := Merged(s, e, inner).value;
    if KeepsKind(s, e, inner) {
      if NoRepeat(KindLeaves(c.types, kind, es, r)) {
        var inside := ElementLeaves(c.types, kind, e, r);
        PrefixNoRepeat(KindLeaves(c.types, kind, es[..|es| - 1], r), inside);
        SameIdents(ScaleAll(inner.elements, e.Bounds()), inner.elements);
        AppendIdents(s.elements, ScaleAll(inner.elements, e.Bounds()));
      }
      if kind.ChoiceKind? && ChoiceElementsOk(c.types, kind, es, r) {
        NestedChoicesOk(c.types, kind, es, |es| - 1, r);
        IdentAt(inner.elements, 0);
        assert IdentsOf(s'.elements) != [];
      }
    }
  }

  // ---------- Repetition

  /** `n` is a sum of `k` counts that each lie in `r`. */
  ghost predicate SumOf(k: nat, r: Range, n: nat) {
    k * r.min <= n && (r.max.Bounded? ==> n <= k * r.max.limit)
  }

  lemma {:induction false} TimesCount(types: MetaTypes, e: ElementMeta, k: nat, w: Word, d: nat, pick: Pick, r: Range)
    requires Times(types, e, k, w, d)
    requires forall u | Once(types, e, u, d) :: r.Has(Count(u, pick))
    ensures SumOf(k, r, Count(w, pick))
    decreases k
  {
    if k > 0 {
      var i :| 0 <= i <= |w| && Times(types, e, k - 1, w[..i], d) && Once(types, e, w[i..], d);
      TimesCount(types, e, k - 1, w[..i], d, pick, r);
      assert w == w[..i] + w[i..];
      assert k * r.min == (k - 1) * r.min + r.min;
      if r.max.Bounded? {
        assert k * r.max.limit == (k - 1) * r.max.limit + r.max.limit;
      }
    }
  }

  /** The bounds `r'` leave room for `k` repetitions of `r`. */
  ghost predicate Covers(k: nat, r: Range, r': Range) {
    r'.min <= k * r.min && (r'.max.Bounded? ==> r.max.Bounded? && k * r.max.limit <= r'.max.limit)
  }

  lemma CoversTally(k: nat, r: Range, r': Range, e: ElementMeta, f: Range, pick: Pick)
    requires Covers(k, r, r') && f.Has(k)
    ensures Covers(k, Tally(r, e, pick), Tally(r', Scale(e, f), pick))
  {
    MulMono(k, e.minOccurs, f.min, e.minOccurs);
    assert k * (r.min + e.minOccurs) == k * r.min + k * e.minOccurs;
    if e.maxOccurs.Bounded? && f.max.Bounded? {
      MulMono(f.max.limit, e.maxOccurs.limit, k, e.maxOccurs.limit);
      if r.max.Bounded? {
        assert k * (r.max.limit + e.maxOccurs.limit) == k * r.max.limit + k * e.maxOccurs.limit;
      }
    }
  }

  lemma {:induction false} ScaledCounts(es: seq<ElementMeta>, f: Range, k: nat, pick: Pick)
    requires f.Has(k)
    ensures Covers(k, CountRange(es, pick), CountRange(ScaleAll(es, f), pick))
    decreases |es|
  {
    if es != [] {
      var n := |es| - 1;
      ScaledCounts(es[..n], f, k, pick);
      assert ScaleAll(es, f)[..n] == ScaleAll(es[..n], f);
      CoversTally(k, CountRange(es[..n], pick), CountRange(ScaleAll(es[..n], f), pick), es[n], f, pick);
    }
  }

  /** A repeated group of counted leaves stays within its scaled bounds. */
  lemma ScaledCountsWithin(types: MetaTypes, e: ElementMeta, inner: seq<ElementMeta>, w: Word, d: nat)
    requires Particle(types, e, w, d)
    requires forall u | Once(types, e, u, d) :: CountsWithin(inner, u)
    ensures CountsWithin(ScaleAll(inner, e.Bounds()), w)
  {
    var k: nat :| e.Bounds().Has(k) && Times(types, e, k, w, d);
    forall pick: Pick
      ensures CountRange(ScaleAll(inner, e.Bounds()), pick).Has(Count(w, pick))
    {
      TimesCount(types, e, k, w, d, pick, CountRange(inner, pick));
      ScaledCounts(inner, e.Bounds(), k, pick);
    }
  }

  lemma ParticleLength(types: MetaTypes, e: ElementMeta, r: Range, w: Word, d: nat)
    requires Particle(types, e, w, d)
    requires forall u | Once(types, e, u, d) :: r.Has(|u|)
    ensures Range(r.min * e.minOccurs, r.max.Mul(e.maxOccurs)).Has(|w|)
  {
    var k: nat :| e.Bounds().Has(k) && Times(types, e, k, w, d);
    TimesCount(types, e, k, w, d, Anything, r);
    RepeatRange(e.Bounds(), r, k, |w|);
  }

  lemma {:induction false} TimesLetters(types: MetaTypes, e: ElementMeta, k: nat, w: Word, d: nat, inner: seq<ElementMeta>)
    requires Times(types, e, k, w, d)
    requires forall u | Once(types, e, u, d) :: LettersIn(inner, u)
    ensures LettersIn(inner, w)
    decreases k
  {
    if k > 0 {
      var i :| 0 <= i <= |w| && Times(types, e, k - 1, w[..i], d) && Once(types, e, w[i..], d);
      TimesLetters(types, e, k - 1, w[..i], d, inner);
      assert w == w[..i] + w[i..];
    }
  }

  // ---------- Lists of leaves

  lemma {:induction false} AppendHas(a: seq<ElementMeta>, b: seq<ElementMeta>, pick: Pick)
    ensures CountRange(a + b, pick).min == CountRange(a, pick).min + CountRange(b, pick).min
    ensures CountRange(a + b, pick).max == CountRange(a, pick).max.Add(CountRange(b, pick).max)
    decreases |b|
  {
    if b == [] {
      assert a + b == a;
    } else {
      AppendHas(a, b[..|b| - 1], pick);
      AppendedCounts(a, b, pick);
    }
  }

  /** `w` has the letters of `u` and of `v`. */
  ghost predicate Joins(u: Word, v: Word, w: Word) {
    |w| == |u| + |v| && multiset(w) == multiset(u) + multiset(v)
  }

  lemma JoinedCount(u: Word, v: Word, w: Word, pick: Pick)
    requires Joins(u, v, w)
    ensures Count(w, pick) == Count(u, pick) + Count(v, pick)
  {
  }

  lemma AppendCountsWithin(a: seq<ElementMeta>, b: seq<ElementMeta>, u: Word, v: Word, w: Word)
    requires CountsWithin(a, u) && CountsWithin(b, v) && Joins(u, v, w)
    ensures CountsWithin(a + b, w)
  {
    forall pick: Pick
      ensures CountRange(a + b, pick).Has(Count(w, pick))
    {
      AppendHas(a, b, pick);
      JoinedCount(u, v, w, pick);
      assert CountRange(a, pick).Has(Count(u, pick)) && CountRange(b, pick).Has(Count(v, pick));
      AddAllows(CountRange(a, pick).max, CountRange(b, pick).max, Count(u, pick), Count(v, pick));
    }
  }

  lemma LeafCountsWithin(e: ElementMeta, v: Word)
    requires LeafAccepts(e, v)
    ensures CountsWithin([e], v)
  {
    forall pick: Pick
      ensures CountRange([e], pick).Has(Count(v, pick))
    {
      PowerCount(e.ident, |v|, pick);
      assert CountRange([e][..0], pick) == Exactly(0);
    }
  }

  lemma {:induction false} PowerCount(x: PropertyIdent, k: nat, pick: Pick)
    ensures Count(Power(x, k), pick) == if pick.Anything? || pick.id == x then k else 0
    decreases k
  {
    if k > 0 {
      PowerCount(x, k - 1, pick);
      assert Power(x, k) == Power(x, k - 1) + [x];
    } else {
      assert Power(x, 0) == [];
    }
  }

  lemma CutLast(es: seq<ElementMeta>, e: ElementMeta, w: Word) returns (i: nat)
    requires SequenceOf(map[], es + [e], w, 0)
    ensures i <= |w| && SequenceOf(map[], es, w[..i], 0) && Particle(map[], e, w[i..], 0)
    ensures w == w[..i] + w[i..]
  {
    var all := es + [e];
    assert all[..|all| - 1] == es;
    i :| 0 <= i <= |w| && SequenceOf(map[], all[..|all| - 1], w[..i], 0) && Particle(map[], all[|all| - 1], w[i..], 0);
  }

  lemma SequenceStep(es: seq<ElementMeta>, e: ElementMeta, u: Word, v: Word)
    requires SequenceOf(map[], es, u, 0) && Particle(map[], e, v, 0)
    ensures SequenceOf(map[], es + [e], u + v, 0)
  {
    var w := u + v;
    assert (es + [e])[..|es|] == es && w[..|u|] == u && w[|u|..] == v;
  }

  lemma {:induction false} AppendSequence(a: seq<ElementMeta>, b: seq<ElementMeta>, u: Word, v: Word)
    requires SequenceOf(map[], a, u, 0) && SequenceOf(map[], b, v, 0)
    ensures SequenceOf(map[], a + b, u + v, 0)
    decreases |b|
  {
    if b == [] {
      assert a + b == a && u + v == u;
    } else {
      var n := |b| - 1;
      var i :| 0 <= i <= |v| && SequenceOf(map[], b[..n], v[..i], 0) && Particle(map[], b[n], v[i..], 0);
      AppendSequence(a, b[..n], u, v[..i]);
      SequenceStep(a + b[..n], b[n], u + v[..i], v[i..]);
      AppendLast(a, b);
      AppendCut(u, v, i);
    }
  }

  lemma AppendCut<T>(u: seq<T>, v: seq<T>, i: nat)
    requires i <= |v|
    ensures u + v == u + v[..i] + v[i..]
  {
  }

  lemma SingleSequence(e: ElementMeta, v: Word)
    requires LeafAccepts(e, v) && !e.IsGroup()
    ensures SequenceOf(map[], [e], v, 0)
  {
    LeafParticle(map[], e, v, 0);
    assert [e][..0] == [] && v[..0] == [] && v[0..] == v;
    assert SequenceOf(map[], [e][..0], v[..0], 0);
  }

  lemma WidenedLeaf(e: ElementMeta, f: Range, v: Word)
    requires !e.IsGroup() && f.Has(1) && Particle(map[], e, v, 0)
    ensures Particle(map[], Scale(e, f), v, 0)
  {
    LeafParticle(map[], e, v, 0);
    LeafParticle(map[], Scale(e, f), v, 0);
    MulMono(1, e.minOccurs, f.min, e.minOccurs);
    if e.maxOccurs.Bounded? && f.max.Bounded? {
      MulMono(f.max.limit, e.maxOccurs.limit, 1, e.maxOccurs.limit);
    }
  }

  lemma {:induction false} WidenedSequence(es: seq<ElementMeta>, f: Range, u: Word)
    requires AllLeaves(es) && f.Has(1) && SequenceOf(map[], es, u, 0)
    ensures SequenceOf(map[], ScaleAll(es, f), u, 0)
    decreases |es|
  {
    if es != [] {
      var n := |es| - 1;
      var i :| 0 <= i <= |u| && SequenceOf(map[], es[..n], u[..i], 0) && Particle(map[], es[n], u[i..], 0);
      WidenedSequence(es[..n], f, u[..i]);
      WidenedLeaf(es[n], f, u[i..]);
      assert ScaleAll(es, f)[..n] == ScaleAll(es[..n], f);
    }
  }

  lemma {:induction false} SkippedSequence(es: seq<ElementMeta>, f: Range)
    requires AllLeaves(es) && f.min == 0
    ensures SequenceOf(map[], ScaleAll(es, f), [], 0)
    decreases |es|
  {
    if es != [] {
      var n := |es| - 1;
      SkippedSequence(es[..n], f);
      assert ScaleAll(es, f)[..n] == ScaleAll(es[..n], f);
      SkippedLeaf(es[n], f);
      var e: Word := [];
      assert e[..0] == [] && e[0..] == [];
    }
  }

  lemma SkippedLeaf(e: ElementMeta, f: Range)
    requires !e.IsGroup() && f.min == 0
    ensures Particle(map[], Scale(e, f), [], 0)
  {
    LeafParticle(map[], Scale(e, f), [], 0);
    assert Power(e.ident, 0) == [];
  }

  /** An optional nested particle occurs once or not at all. */
  lemma AtMostOnce(types: MetaTypes, e: ElementMeta, w: Word, d: nat)
    requires Particle(types, e, w, d) && e.maxOccurs.Le(Bounded(1))
    ensures (w == [] && e.minOccurs == 0) || (Once(types, e, w, d) && e.Bounds().Has(1))
  {
    var k: nat :| e.Bounds().Has(k) && Times(types, e, k, w, d);
    if k == 1 {
      var i :| 0 <= i <= |w| && Times(types, e, 0, w[..i], d) && Once(types, e, w[i..], d);
      assert w[i..] == w;
    }
  }

  // ---------- One more element of a group that is not a choice

  ghost predicate KindAccepts(types: MetaTypes, kind: Kind, es: seq<ElementMeta>, w: Word, d: nat) {
    match kind
    case AllKind => AllOf(types, es, w, d)
    case ChoiceKind => ChoiceOf(types, es, w, d)
    case SequenceKind => SequenceOf(types, es, w, d)
  }

  /** Letters of a joined word stay listed. */
  lemma JoinedLetters(a: seq<ElementMeta>, b: seq<ElementMeta>, c: seq<ElementMeta>, u: Word, v: Word, w: Word)
    requires LettersIn(a, u) && LettersIn(b, v) && Joins(u, v, w)
    requires forall x :: x in IdentsOf(a) || x in IdentsOf(b) ==> x in IdentsOf(c)
    ensures LettersIn(c, w)
  {
    forall x | x in w
      ensures x in IdentsOf(c)
    {
      assert x in multiset(w);
      assert x in multiset(u) || x in multiset(v);
    }
  }

  lemma LeafLetters(e: ElementMeta, v: Word)
    requires LeafAccepts(e, v)
    ensures LettersIn([e], v)
  {
    LeafCountsWithin(e, v);
    CountsGiveLetters([e], v);
  }

  lemma JoinLeaf(s: Flat, e: ElementMeta, u: Word, v: Word, w: Word, tidy: bool, tidy': bool)
    requires !s.kind.ChoiceKind? && AllLeaves(s.elements) && !e.IsGroup()
    requires (s.mode.Plain? ==> s.mode.kind == s.kind) && (s.mode.Mixed? ==> s.touched)
    requires Represents(s, u, tidy) && LeafAccepts(e, v) && Joins(u, v, w)
    requires Added(s, true, e).Ok?
    requires tidy' ==> tidy && w == u + v && e.ident !in IdentsOf(s.elements)
    ensures Represents(Added(s, true, e).value, w, tidy')
  {
    var s' := Added(s, true, e).value;
    AddedShape(s, true, e);
    if s.mode.Plain? {
      LeafCountsWithin(e, v);
      AppendCountsWithin(s.elements, [e], u, v, w);
      forall pick: Pick
        ensures CountRange(s'.elements, pick).Has(Count(w, pick))
      {
        AddedCounts(s, e, pick);
        AppendedCounts(s.elements, [e], pick);
        assert s.elements + [e][..0] == s.elements;
        assert CountRange(s.elements + [e], pick).Has(Count(w, pick));
      }
      ProperAdded(s, e);
      if tidy' && s.kind.SequenceKind? {
        SingleSequence(e, v);
        AppendSequence(s.elements, [e], u, v);
      }
    } else {
      LeafLetters(e, v);
      assert IdentsOf([e][..0]) == [];
      JoinedLetters(s.elements, [e], s'.elements, u, v, w);
      AddAllows(s.mode.occurs.max, e.maxOccurs, |u|, |v|);
    }
  }

  /** The nested group `other` represents every single occurrence of `el`. */
  ghost predicate RepresentsOnce(types: MetaTypes, el: ElementMeta, other: Flat, d: nat, tidy: bool) {
    forall v | Once(types, el, v, d) :: Represents(other, v, tidy)
  }

  lemma MixedParticle(types: MetaTypes, el: ElementMeta, other: Flat, v: Word, d: nat, tidy: bool)
    requires Particle(types, el, v, d) && RepresentsOnce(types, el, other, d, tidy)
    requires AllLeaves(other.elements) && (other.mode.Plain? ==> other.mode.kind == other.kind)
    ensures LettersIn(other.elements, v)
    ensures var o := ToMixed(other).mode.occurs;
            Range(o.min * el.minOccurs, o.max.Mul(el.maxOccurs)).Has(|v|)
  {
    var m := ToMixed(other);
    SameIdents(m.elements, other.elements);
    forall u | Once(types, el, u, d)
      ensures LettersIn(other.elements, u) && m.mode.occurs.Has(|u|)
    {
      MixedKeeps(other, u, tidy);
    }
    ParticleLength(types, el, m.mode.occurs, v, d);
    var k: nat :| el.Bounds().Has(k) && Times(types, el, k, v, d);
    TimesLetters(types, el, k, v, d, other.elements);
  }

  lemma JoinGroup(types: MetaTypes, s: Flat, el: ElementMeta, other: Flat, u: Word, v: Word, w: Word, d: nat,
                  tidy: bool, inner: bool, tidy': bool)
    requires !s.kind.ChoiceKind? && AllLeaves(s.elements) && AllLeaves(other.elements)
    requires s.mode.Plain? ==> s.mode.kind == s.kind
    requires other.mode.Plain? ==> other.mode.kind == other.kind
    requires Represents(s, u, tidy) && Particle(types, el, v, d) && RepresentsOnce(types, el, other, d, inner)
    requires Joins(u, v, w) && Merged(s, el, other).Ok?
    requires tidy' && KeepsKind(s, el, other) ==>
               tidy && inner && w == u + v && NoRepeat(IdentsOf(s.elements) + IdentsOf(other.elements))
    ensures Represents(Merged(s, el, other).value, w, tidy')
  {
    var s' := Merged(s, el, other).value;
    MergedShape(s, el, other);
    if KeepsKind(s, el, other) {
      JoinPlain(types, s, el, other, u, v, w, d, inner);
      if tidy' && s.kind.SequenceKind? {
        NestedSequence(types, el, other.elements, v, d);
        AppendSequence(s.elements, ScaleAll(other.elements, el.Bounds()), u, v);
      }
    } else {
      MixedKeeps(s, u, tidy);
      SameIdents(ToMixed(s).elements, s.elements);
      MixedParticle(types, el, other, v, d, inner);
      JoinedLetters(s.elements, other.elements, s'.elements, u, v, w);
      var o := ToMixed(other).mode.occurs;
      AddAllows(ToMixed(s).mode.occurs.max, o.max.Mul(el.maxOccurs), |u|, |v|);
    }
  }

  lemma JoinPlain(types: MetaTypes, s: Flat, el: ElementMeta, other: Flat, u: Word, v: Word, w: Word, d: nat, inner: bool)
    requires !s.kind.ChoiceKind? && KeepsKind(s, el, other) && s.mode.kind == s.kind
    requires CountsWithin(s.elements, u) && Proper(s.elements)
    requires Particle(types, el, v, d) && RepresentsOnce(types, el, other, d, inner)
    requires Joins(u, v, w) && Merged(s, el, other).Ok?
    ensures CountsWithin(Merged(s, el, other).value.elements, w) && Proper(Merged(s, el, other).value.elements)
  {
    var s' := Merged(s, el, other).value;
    var added := ScaleAll(other.elements, el.Bounds());
    ScaledCountsWithin(types, el, other.elements, v, d);
    AppendCountsWithin(s.elements, added, u, v, w);
    forall pick: Pick
      ensures CountRange(s'.elements, pick).Has(Count(w, pick))
    {
      AddAllCounts(s.(touched := true, isMixed := s.isMixed || other.isMixed), added, pick);
      assert CountRange(s.elements + added, pick).Has(Count(w, pick));
    }
    var k: nat :| el.Bounds().Has(k) && Times(types, el, k, v, d);
    if k > 0 {
      var i :| 0 <= i <= |v| && Times(types, el, k - 1, v[..i], d) && Once(types, el, v[i..], d);
      assert Represents(other, v[i..], inner);
    }
    ProperScaled(other.elements, el.Bounds(), k);
    ProperAddAll(s.(touched := true, isMixed := s.isMixed || other.isMixed), added);
  }

  /** A nested sequence that occurs at most once keeps its order. */
  lemma NestedSequence(types: MetaTypes, el: ElementMeta, inner: seq<ElementMeta>, v: Word, d: nat)
    requires Particle(types, el, v, d) && el.maxOccurs.Le(Bounded(1)) && AllLeaves(inner)
    requires forall u | Once(types, el, u, d) :: SequenceOf(map[], inner, u, 0)
    ensures SequenceOf(map[], ScaleAll(inner, el.Bounds()), v, 0)
  {
    AtMostOnce(types, el, v, d);
    if v == [] && el.minOccurs == 0 {
      SkippedSequence(inner, el.Bounds());
    } else {
      WidenedSequence(inner, el.Bounds(), v);
    }
  }

  // ---------- One more alternative of a choice

  lemma ChoiceExtends(s: Flat, s': Flat, more: seq<ElementMeta>, w: Word)
    requires ChoiceOf(map[], s.elements, w, 0) && s'.elements == s.elements + more
    ensures ChoiceOf(map[], s'.elements, w, 0)
  {
    var j :| 0 <= j < |s.elements| && Particle(map[], s.elements[j], w, 0);
    assert s'.elements[j] == s.elements[j];
  }

  lemma ChoiceGains(s: Flat, s': Flat, more: seq<ElementMeta>, j: nat, w: Word)
    requires s'.elements == s.elements + more && j < |more| && Particle(map[], more[j], w, 0)
    ensures ChoiceOf(map[], s'.elements, w, 0)
  {
    assert s'.elements[|s.elements| + j] == more[j];
  }

  /** Words of the alternatives seen so far survive a further leaf. */
  lemma ChoiceKeepsLeaf(s: Flat, e: ElementMeta, w: Word)
    requires s.kind.ChoiceKind? && AllLeaves(s.elements) && !e.IsGroup()
    requires s.mode.Plain? ==> s.mode.kind == s.kind && e.ident !in IdentsOf(s.elements)
    requires s.mode.Mixed? ==> s.touched
    requires Represents(s, w, false) && Added(s, true, e).Ok?
    ensures Represents(Added(s, true, e).value, w, false)
  {
    AddedShape(s, true, e);
    if s.mode.Plain? {
      ChoiceExtends(s, Added(s, true, e).value, [e], w);
    }
  }

  lemma ChoiceGainsLeaf(s: Flat, e: ElementMeta, w: Word)
    requires s.kind.ChoiceKind? && AllLeaves(s.elements) && !e.IsGroup()
    requires s.mode.Plain? ==> s.mode.kind == s.kind && e.ident !in IdentsOf(s.elements)
    requires s.mode.Mixed? ==> s.touched
    requires LeafAccepts(e, w) && Added(s, true, e).Ok?
    ensures Represents(Added(s, true, e).value, w, false)
  {
    AddedShape(s, true, e);
    if s.mode.Plain? {
      LeafParticle(map[], e, w, 0);
      ChoiceGains(s, Added(s, true, e).value, [e], 0, w);
    } else {
      LeafLetters(e, w);
      assert IdentsOf([e][..0]) == [];
    }
  }

  lemma ChoiceKeepsGroup(s: Flat, el: ElementMeta, other: Flat, w: Word)
    requires s.kind.ChoiceKind? && AllLeaves(s.elements) && AllLeaves(other.elements)
    requires s.mode.Plain? ==> s.mode.kind == s.kind
    requires KeepsKind(s, el, other) ==> NoRepeat(IdentsOf(s.elements) + IdentsOf(other.elements))
    requires Represents(s, w, false) && Merged(s, el, other).Ok?
    ensures Represents(Merged(s, el, other).value, w, false)
  {
    MergedShape(s, el, other);
    var s' := Merged(s, el, other).value;
    if KeepsKind(s, el, other) {
      ChoiceExtends(s, s', ScaleAll(other.elements, el.Bounds()), w);
    } else {
      MixedKeeps(s, w, false);
      SameIdents(ToMixed(s).elements, s.elements);
    }
  }

  lemma ChoiceGainsGroup(types: MetaTypes, s: Flat, el: ElementMeta, other: Flat, w: Word, d: nat, inner: bool)
    requires s.kind.ChoiceKind? && AllLeaves(s.elements) && AllLeaves(other.elements)
    requires s.mode.Plain? ==> s.mode.kind == s.kind
    requires other.mode.Plain? ==> other.mode.kind == other.kind
    requires KeepsKind(s, el, other) ==>
               other.elements != [] && NoRepeat(IdentsOf(s.elements) + IdentsOf(other.elements))
    requires Particle(types, el, w, d) && RepresentsOnce(types, el, other, d, inner) && Merged(s, el, other).Ok?
    ensures Represents(Merged(s, el, other).value, w, false)
  {
    MergedShape(s, el, other);
    var s' := Merged(s, el, other).value;
    if KeepsKind(s, el, other) {
      AtMostOnce(types, el, w, d);
      var added := ScaleAll(other.elements, el.Bounds());
      if w == [] && el.minOccurs == 0 {
        SkippedLeaf(other.elements[0], el.Bounds());
        ChoiceGains(s, s', added, 0, w);
      } else {
        assert Represents(other, w, inner);
        var j :| 0 <= j < |other.elements| && Particle(map[], other.elements[j], w, 0);
        WidenedLeaf(other.elements[j], el.Bounds(), w);
        ChoiceGains(s, s', added, j, w);
      }
    } else {
      MixedParticle(types, el, other, w, d, inner);
    }
  }

  // ---------- Whole groups

  /**
    Every word the elements `es` accept as a group of kind `kind` is still
    represented by the flattened group: a mixed one bounds its length, an `all`
    or `sequence` bounds how often each identifier occurs, a `sequence` without
    repeated identifiers keeps the order too, and a choice keeps every
    alternative.
   */
  lemma {:induction false} ElementsRepresented(
    c: Config, kind: Kind, isMixed: bool, es: seq<ElementMeta>, depth: nat, r: nat, w: Word, d: nat)
    requires Runs(c, es, depth, r) && ChoiceElementsOk(c.types, kind, es, r)
    requires ExecElements(c, kind, isMixed, es, depth).Ok?
    requires KindAccepts(c.types, kind, es, w, d)
    ensures Represents(ExecElements(c, kind, isMixed, es, depth).value, w, NoRepeat(KindLeaves(c.types, kind, es, r)))
    decreases r, 1, |es|
  {
    if es == [] {
      assert forall pick: Pick :: CountRange([], pick).Has(Count([], pick));
    } else if kind.ChoiceKind? {
      ChoiceRepresented(c, isMixed, es, depth, r, w, d);
    } else {
      JoinRepresented(c, kind, isMixed, es, depth, r, w, d);
    }
  }

  /** Distinct leaves: those of the last element are new. */
  ghost predicate LastApart(types: MetaTypes, kind: Kind, es: seq<ElementMeta>, r: nat)
    requires es != []
  {
    NoRepeat(KindLeaves(types, kind, es, r)) ==>
      && NoRepeat(KindLeaves(types, kind, es[..|es| - 1], r))
      && Apart(KindLeaves(types, kind, es[..|es| - 1], r), ElementLeaves(types, kind, es[|es| - 1], r))
  }

  /** Facts about the state before the last element of `es`. */
  lemma BeforeLast(c: Config, kind: Kind, isMixed: bool, es: seq<ElementMeta>, depth: nat, r: nat) returns (s: Flat)
    requires es != [] && Runs(c, es, depth, r) && ChoiceElementsOk(c.types, kind, es, r)
    requires ExecElements(c, kind, isMixed, es, depth).Ok?
    ensures Runs(c, es[..|es| - 1], depth, r) && ChoiceElementsOk(c.types, kind, es[..|es| - 1], r)
    ensures ExecElements(c, kind, isMixed, es[..|es| - 1], depth) == Ok(s)
    ensures Shaped(c.types, s, kind, es[..|es| - 1], r)
    ensures ExecElements(c, kind, isMixed, es, depth) == Step(c, s, es[|es| - 1], depth)
    ensures LastApart(c.types, kind, es, r)
  {
    var n := |es| - 1;
    s := ExecElements(c, kind, isMixed, es[..n], depth).value;
    PrefixChoicesOk(c.types, kind, es, r);
    ElementsShape(c, kind, isMixed, es[..n], depth, r);
    if NoRepeat(KindLeaves(c.types, kind, es, r)) {
      PrefixNoRepeat(KindLeaves(c.types, kind, es[..n], r), ElementLeaves(c.types, kind, es[n], r));
    }
  }

  /** Facts about a nested group when it is merged in. */
  lemma NestedGroup(c: Config, kind: Kind, es: seq<ElementMeta>, s: Flat, depth: nat, r: nat, d: nat)
    returns (g: MetaTypeVariant, inner: Flat, tidy: bool)
    requires es != [] && es[|es| - 1].IsGroup() && Runs(c, es, depth, r) && ChoiceElementsOk(c.types, kind, es, r)
    requires Shaped(c.types, s, kind, es[..|es| - 1], r) && Step(c, s, es[|es| - 1], depth).Ok?
    requires NoRepeat(KindLeaves(c.types, kind, es, r)) ==> NoRepeat(KindLeaves(c.types, kind, es[..|es| - 1], r))
    ensures r > 0 && g.IsGroup() && HasKind(c.types, es[|es| - 1].variant.type_, KindOf(g))
    ensures c.types[es[|es| - 1].variant.type_].variant == g
    ensures tidy == NoRepeat(KindLeaves(c.types, KindOf(g), g.group.elements, r - 1))
    ensures Exec(c, es[|es| - 1].variant.type_, depth + 1) == Ok(inner)
    ensures Shaped(c.types, inner, KindOf(g), g.group.elements, r - 1)
    ensures Step(c, s, es[|es| - 1], depth) == Merged(s, es[|es| - 1], inner)
    ensures RepresentsOnce(c.types, es[|es| - 1], inner, d, tidy)
    ensures KeepsKind(s, es[|es| - 1], inner) && NoRepeat(KindLeaves(c.types, kind, es, r)) ==>
              tidy && NoRepeat(IdentsOf(s.elements) + IdentsOf(inner.elements))
    ensures KeepsKind(s, es[|es| - 1], inner) && kind.ChoiceKind? ==> inner.elements != []
    decreases r, 0, 0
  {
    var n := |es| - 1;
    var e := es[n];
    NestedRuns(c, es, n, depth, r);
    NestedChoicesOk(c.types, kind, es, n, r);
    g := c.types[e.variant.type_].variant;
    assert Exec(c, e.variant.type_, depth + 1).Ok?;
    inner := Exec(c, e.variant.type_, depth + 1).value;
    tidy := NoRepeat(KindLeaves(c.types, KindOf(g), g.group.elements, r - 1));
    ElementsShape(c, KindOf(g), g.group.isMixed, g.group.elements, depth + 1, r - 1);
    forall v | Once(c.types, e, v, d)
      ensures Represents(inner, v, tidy)
    {
      assert GroupAccepts(c.types, e.variant.type_, v, d - 1);
      assert VariantAccepts(c.types, g, v, d - 1);
      ElementsRepresented(c, KindOf(g), g.group.isMixed, g.group.elements, depth + 1, r - 1, v, d - 1);
    }
    if KeepsKind(s, e, inner) && NoRepeat(KindLeaves(c.types, kind, es, r)) {
      assert ElementLeaves(c.types, kind, e, r) == KindLeaves(c.types, KindOf(g), g.group.elements, r - 1);
      PrefixNoRepeat(KindLeaves(c.types, kind, es[..n], r), ElementLeaves(c.types, kind, e, r));
    }
  }

  lemma {:induction false} JoinRepresented(
    c: Config, kind: Kind, isMixed: bool, es: seq<ElementMeta>, depth: nat, r: nat, w: Word, d: nat)
    requires es != [] && !kind.ChoiceKind?
    requires Runs(c, es, depth, r) && ChoiceElementsOk(c.types, kind, es, r)
    requires ExecElements(c, kind, isMixed, es, depth).Ok?
    requires KindAccepts(c.types, kind, es, w, d)
    ensures Represents(ExecElements(c, kind, isMixed, es, depth).value, w, NoRepeat(KindLeaves(c.types, kind, es, r)))
    decreases r, 1, |es|, 0
  {
    var n := |es| - 1;
    var e := es[n];
    var s := BeforeLast(c, kind, isMixed, es, depth, r);
    var u, v := SplitLast(c.types, kind, es, w, d);
    ElementsRepresented(c, kind, isMixed, es[..n], depth, r, u, d);
    if e.IsGroup() {
      JoinLastGroup(c, kind, es, s, depth, r, u, v, w, d);
    } else {
      JoinLastLeaf(c, kind, es, s, r, u, v, w, d);
    }
  }

  lemma JoinLastLeaf(c: Config, kind: Kind, es: seq<ElementMeta>, s: Flat, r: nat, u: Word, v: Word, w: Word, d: nat)
    requires es != [] && !es[|es| - 1].IsGroup() && !kind.ChoiceKind?
    requires Shaped(c.types, s, kind, es[..|es| - 1], r) && Added(s, true, es[|es| - 1]).Ok?
    requires LastApart(c.types, kind, es, r)
    requires Represents(s, u, NoRepeat(KindLeaves(c.types, kind, es[..|es| - 1], r)))
    requires Particle(c.types, es[|es| - 1], v, d) && Joins(u, v, w) && (kind.SequenceKind? ==> w == u + v)
    ensures Represents(Added(s, true, es[|es| - 1]).value, w, NoRepeat(KindLeaves(c.types, kind, es, r)))
  {
    var e := es[|es| - 1];
    var tidy' := NoRepeat(KindLeaves(c.types, kind, es, r)) && kind.SequenceKind? && s.mode.Plain?;
    LeafParticle(c.types, e, v, d);
    if tidy' {
      assert e.ident in ElementLeaves(c.types, kind, e, r);
    }
    AddedShape(s, true, e);
    JoinLeaf(s, e, u, v, w, NoRepeat(KindLeaves(c.types, kind, es[..|es| - 1], r)), tidy');
  }

  lemma JoinLastGroup(c: Config, kind: Kind, es: seq<ElementMeta>, s: Flat, depth: nat, r: nat,
                      u: Word, v: Word, w: Word, d: nat)
    requires es != [] && es[|es| - 1].IsGroup() && !kind.ChoiceKind?
    requires Runs(c, es, depth, r) && ChoiceElementsOk(c.types, kind, es, r)
    requires Shaped(c.types, s, kind, es[..|es| - 1], r) && Step(c, s, es[|es| - 1], depth).Ok?
    requires LastApart(c.types, kind, es, r)
    requires Represents(s, u, NoRepeat(KindLeaves(c.types, kind, es[..|es| - 1], r)))
    requires Particle(c.types, es[|es| - 1], v, d) && Joins(u, v, w) && (kind.SequenceKind? ==> w == u + v)
    ensures Represents(Step(c, s, es[|es| - 1], depth).value, w, NoRepeat(KindLeaves(c.types, kind, es, r)))
    decreases r, 1, 0, 0
  {
    var e := es[|es| - 1];
    var tidy' := NoRepeat(KindLeaves(c.types, kind, es, r)) && kind.SequenceKind?;
    var g, inner, within := NestedGroup(c, kind, es, s, depth, r, d);
    MergedShape(s, e, inner);
    JoinGroup(c.types, s, e, inner, u, v, w, d, NoRepeat(KindLeaves(c.types, kind, es[..|es| - 1], r)), within, tidy');
  }

  lemma SplitLast(types: MetaTypes, kind: Kind, es: seq<ElementMeta>, w: Word, d: nat) returns (u: Word, v: Word)
    requires es != [] && !kind.ChoiceKind? && KindAccepts(types, kind, es, w, d)
    ensures KindAccepts(types, kind, es[..|es| - 1], u, d) && Particle(types, es[|es| - 1], v, d)
    ensures Joins(u, v, w) && (kind.SequenceKind? ==> w == u + v)
  {
    var n := |es| - 1;
    if kind.SequenceKind? {
      var i :| 0 <= i <= |w| && SequenceOf(types, es[..n], w[..i], d) && Particle(types, es[n], w[i..], d);
      u, v := w[..i], w[i..];
      assert w == u + v;
    } else {
      u, v :| AllOf(types, es[..n], u, d) && Particle(types, es[n], v, d) && Interleaves(u, v, w);
      InterleavesCounts(u, v, w);
    }
  }

  lemma {:induction false} ChoiceRepresented(
    c: Config, isMixed: bool, es: seq<ElementMeta>, depth: nat, r: nat, w: Word, d: nat)
    requires es != []
    requires Runs(c, es, depth, r) && ChoiceElementsOk(c.types, ChoiceKind, es, r)
    requires ExecElements(c, ChoiceKind, isMixed, es, depth).Ok?
    requires ChoiceOf(c.types, es, w, d)
    ensures Represents(ExecElements(c, ChoiceKind, isMixed, es, depth).value, w, true)
    decreases r, 1, |es|, 0
  {
    var n := |es| - 1;
    var e := es[n];
    var s := BeforeLast(c, ChoiceKind, isMixed, es, depth, r);
    var j :| 0 <= j < |es| && Particle(c.types, es[j], w, d);
    if j < n {
      assert es[..n][j] == es[j];
      ElementsRepresented(c, ChoiceKind, isMixed, es[..n], depth, r, w, d);
    }
    if e.IsGroup() {
      LastGroupChoice(c, es, s, depth, r, w, d, j < n);
    } else {
      LastLeafChoice(c.types, es, s, r, w, d, j < n);
    }
  }

  lemma LastLeafChoice(types: MetaTypes, es: seq<ElementMeta>, s: Flat, r: nat, w: Word, d: nat, before: bool)
    requires es != [] && !es[|es| - 1].IsGroup() && NoRepeat(KindLeaves(types, ChoiceKind, es, r))
    requires Shaped(types, s, ChoiceKind, es[..|es| - 1], r) && Added(s, true, es[|es| - 1]).Ok?
    requires LastApart(types, ChoiceKind, es, r)
    requires if before then Represents(s, w, true) else Particle(types, es[|es| - 1], w, d)
    ensures Represents(Added(s, true, es[|es| - 1]).value, w, true)
  {
    var e := es[|es| - 1];
    assert e.ident in ElementLeaves(types, ChoiceKind, e, r);
    AddedShape(s, true, e);
    if before {
      ChoiceKeepsLeaf(s, e, w);
    } else {
      LeafParticle(types, e, w, d);
      ChoiceGainsLeaf(s, e, w);
    }
  }

  lemma LastGroupChoice(c: Config, es: seq<ElementMeta>, s: Flat, depth: nat, r: nat, w: Word, d: nat, before: bool)
    requires es != [] && es[|es| - 1].IsGroup()
    requires Runs(c, es, depth, r) && ChoiceElementsOk(c.types, ChoiceKind, es, r)
    requires Shaped(c.types, s, ChoiceKind, es[..|es| - 1], r) && Step(c, s, es[|es| - 1], depth).Ok?
    requires LastApart(c.types, ChoiceKind, es, r)
    requires if before then Represents(s, w, true) else Particle(c.types, es[|es| - 1], w, d)
    ensures Represents(Step(c, s, es[|es| - 1], depth).value, w, true)
    decreases r, 1, 0, 0
  {
    var e := es[|es| - 1];
    var g, inner, within := NestedGroup(c, ChoiceKind, es, s, depth, r, d);
    MergedShape(s, e, inner);
    if before {
      ChoiceKeepsGroup(s, e, inner, w);
    } else {
      ChoiceGainsGroup(c.types, s, e, inner, w, d, within);
    }
  }

  // ---------- Flat groups mean the same in every type graph

  lemma {:induction false} LeafSequence(types: MetaTypes, es: seq<ElementMeta>, w: Word, d: nat)
    requires AllLeaves(es) && SequenceOf(map[], es, w, 0)
    ensures SequenceOf(types, es, w, d)
    decreases |es|
  {
    if es != [] {
      var n := |es| - 1;
      var i :| 0 <= i <= |w| && SequenceOf(map[], es[..n], w[..i], 0) && Particle(map[], es[n], w[i..], 0);
      LeafSequence(types, es[..n], w[..i], d);
      LeafParticle(map[], es[n], w[i..], 0);
      LeafParticle(types, es[n], w[i..], d);
    }
  }

  lemma LeafChoice(types: MetaTypes, es: seq<ElementMeta>, w: Word, d: nat)
    requires AllLeaves(es) && ChoiceOf(map[], es, w, 0)
    ensures ChoiceOf(types, es, w, d)
  {
    var j :| 0 <= j < |es| && Particle(map[], es[j], w, 0);
    LeafParticle(map[], es[j], w, 0);
    LeafParticle(types, es[j], w, d);
  }

  /** `w` without its last `k` occurrences of `x`. */
  lemma {:induction false} TakeOut(w: Word, x: PropertyIdent, k: nat) returns (u: Word)
    requires k <= multiset(w)[x]
    ensures Interleaves(u, Power(x, k), w)
    ensures multiset(u) == multiset(w)[x := multiset(w)[x] - k]
    decreases |w|
  {
    if w == [] {
      u := [];
      assert Power(x, 0) == [];
    } else {
      var init, last := w[..|w| - 1], w[|w| - 1];
      assert w == init + [last];
      if last == x && k > 0 {
        u := TakeOut(init, x, k - 1);
        assert Power(x, k)[..k - 1] == Power(x, k - 1);
      } else {
        u := TakeOut(init, x, k);
        u := u + [last];
        assert u[..|u| - 1] + [last] == u;
      }
    }
  }

  /** The letters of `w` occur as often as the leaf list `es` admits. */
  ghost predicate EachCounted(es: seq<ElementMeta>, w: Word) {
    forall id: PropertyIdent :: CountRange(es, Only(id)).Has(multiset(w)[id])
  }

  lemma {:induction false} CountProper(es: seq<ElementMeta>, pick: Pick)
    requires Proper(es)
    ensures CountRange(es, pick).max.Allows(CountRange(es, pick).min)
    decreases |es|
  {
    if es != [] {
      var n := |es| - 1;
      CountProper(es[..n], pick);
      AddAllows(CountRange(es[..n], pick).max, es[n].maxOccurs, CountRange(es[..n], pick).min, es[n].minOccurs);
    }
  }

  /** How many of `c` occurrences the last particle takes. */
  lemma Share(r: Range, e: Range, c: nat) returns (k: nat)
    requires SumRange(r, e).Has(c) && e.max.Allows(e.min) && r.max.Allows(r.min)
    ensures k <= c && e.Has(k) && r.Has(c - k)
  {
    if r.max.Bounded? && c > r.max.limit + e.min {
      k := c - r.max.limit;
    } else {
      k := e.min;
    }
  }

  /**
    A flat `all` group accepts exactly the words in which every identifier
    occurs as often as its particles admit together.
   */
  lemma {:induction false} AllCounts(types: MetaTypes, es: seq<ElementMeta>, w: Word, d: nat)
    requires AllLeaves(es) && Proper(es)
    ensures AllOf(types, es, w, d) <==> EachCounted(es, w)
    decreases |es|
  {
    if es == [] {
      if w != [] {
        assert w[0] in multiset(w);
        assert !CountRange(es, Only(w[0])).Has(multiset(w)[w[0]]);
      }
    } else {
      if AllOf(types, es, w, d) {
        AllIsCounted(types, es, w, d);
      }
      if EachCounted(es, w) {
        var n := |es| - 1;
        var x := es[n].ident;
        assert CountRange(es, Only(x)).Has(multiset(w)[x]);
        CountProper(es[..n], Only(x));
        var k := Share(CountRange(es[..n], Only(x)), es[n].Bounds(), multiset(w)[x]);
        var u := TakeOut(w, x, k);
        forall id: PropertyIdent
          ensures CountRange(es[..n], Only(id)).Has(multiset(u)[id])
        {
          assert CountRange(es, Only(id)).Has(multiset(w)[id]);
        }
        AllCounts(types, es[..n], u, d);
        LeafParticle(types, es[n], Power(x, k), d);
      }
    }
  }

  lemma {:induction false} AllIsCounted(types: MetaTypes, es: seq<ElementMeta>, w: Word, d: nat)
    requires AllLeaves(es) && AllOf(types, es, w, d)
    ensures EachCounted(es, w)
    decreases |es|
  {
    if es != [] {
      var n := |es| - 1;
      var u, v :| AllOf(types, es[..n], u, d) && Particle(types, es[n], v, d) && Interleaves(u, v, w);
      AllIsCounted(types, es[..n], u, d);
      InterleavesCounts(u, v, w);
      LeafParticle(types, es[n], v, d);
      forall id: PropertyIdent
        ensures CountRange(es, Only(id)).Has(multiset(w)[id])
      {
        PowerCount(es[n].ident, |v|, Only(id));
        assert CountRange(es[..n], Only(id)).Has(multiset(u)[id]);
      }
    }
  }
}
