/**
  A flat sequence whose repeated leaves are summed up, first occurrence first:
  what the builder makes of the leaves it adds to a plain sequence. The words
  it keeps depend on one thing only: whether equal identifiers are next to each
  other.
 */
module FlatSequences {
  import opened Wrappers
  import opened Occurs
  import opened Meta
  import opened ContentModel
  import opened Flatten
  import opened FlattenWords
  import opened FlattenLimits

  // ---------- Equal letters next to each other

  /** `x` occurs at the end of `s`, if at all. */
  predicate AtEnd<T(==)>(s: seq<T>, x: T) {
    if s != [] && s[|s| - 1] == x then AtEnd(s[..|s| - 1], x) else x !in s
  }

  /** From the `p`-th letter on, a letter that occurred before only continues its own run. */
  predicate GroupedFrom<T(==)>(s: seq<T>, p: nat) {
    |s| <= p || (GroupedFrom(s[..|s| - 1], p) && AtEnd(s[..|s| - 1], s[|s| - 1]))
  }

  /** Equal letters are adjacent. */
  predicate Adjacent<T(==)>(s: seq<T>) {
    GroupedFrom(s, 0)
  }

  /** No other letter stands between two equal ones. */
  ghost predicate NothingBetweenEqual<T(!new)>(s: seq<T>) {
    forall i, k | 0 <= i < k < |s| && s[i] == s[k] :: SameBetween(s, i, k)
  }

  ghost predicate SameBetween<T(!new)>(s: seq<T>, i: nat, k: nat)
    requires i < k < |s|
  {
    forall j | i < j < k :: s[j] == s[k]
  }

  lemma {:induction false} AtEndMeans<T(!new)>(s: seq<T>, x: T)
    ensures AtEnd(s, x) <==> forall i | 0 <= i < |s| && s[i] == x :: forall j | i < j < |s| :: s[j] == x
  {
    if s != [] {
      var n := |s| - 1;
      AtEndMeans(s[..n], x);
      if s[n] == x && AtEnd(s, x) {
        forall i, j | 0 <= i < j < |s| && s[i] == x
          ensures s[j] == x
        {
          assert s[..n][i] == x;
        }
      } else if s[n] != x && x in s {
        var i :| 0 <= i < |s| && s[i] == x;
      } else if s[n] == x {
        var i, j :| 0 <= i < j < n && s[..n][i] == x && s[..n][j] != x;
        assert s[i] == x && s[j] != x;
      }
    }
  }

  /** Adjacency, spelled out: equal letters have nothing else in between. */
  lemma {:induction false} AdjacentMeans<T(!new)>(s: seq<T>)
    ensures Adjacent(s) <==> NothingBetweenEqual(s)
  {
    if s != [] {
      var n := |s| - 1;
      AdjacentMeans(s[..n]);
      AtEndMeans(s[..n], s[n]);
      if NothingBetweenEqual(s) {
        BetweenInPrefix(s[..n], s);
        forall i, j | 0 <= i < j < n && s[..n][i] == s[n]
          ensures s[..n][j] == s[n]
        {
          assert SameBetween(s, i, n);
        }
      }
      if Adjacent(s) {
        forall i, k | 0 <= i < k < |s| && s[i] == s[k]
          ensures SameBetween(s, i, k)
        {
          if k < n {
            assert SameBetween(s[..n], i, k);
          } else {
            assert s[..n][i] == s[n];
          }
        }
      }
    }
  }

  lemma BetweenInPrefix<T(!new)>(a: seq<T>, s: seq<T>)
    requires s != [] && a == s[..|s| - 1] && NothingBetweenEqual(s)
    ensures NothingBetweenEqual(a)
  {
    forall i, k | 0 <= i < k < |a| && a[i] == a[k]
      ensures SameBetween(a, i, k)
    {
      assert SameBetween(s, i, k);
    }
  }

  lemma SnocAtEnd<T(!new)>(s: seq<T>, y: T, x: T)
    ensures AtEnd(s + [y], x) <==> if y == x then AtEnd(s, x) else x !in s
  {
    assert (s + [y])[..|s|] == s;
  }

  lemma SnocGrouped<T(!new)>(s: seq<T>, y: T, p: nat)
    ensures |s| >= p ==> (GroupedFrom(s + [y], p) <==> GroupedFrom(s, p) && AtEnd(s, y))
  {
    assert (s + [y])[..|s|] == s;
  }

  // ---------- Summing up

  function AddLeaf(es: seq<ElementMeta>, e: ElementMeta): seq<ElementMeta> {
    var i := IndexOf(es, e.ident);
    if i < |es| then es[i := SumBounds(es[i], e)] else es + [e]
  }

  /** The leaves `es`, one by one added to `p`. */
  function Tallied(p: seq<ElementMeta>, es: seq<ElementMeta>): seq<ElementMeta> {
    if es == [] then p else AddLeaf(Tallied(p, es[..|es| - 1]), es[|es| - 1])
  }

  lemma SnocTallied(p: seq<ElementMeta>, es: seq<ElementMeta>, e: ElementMeta)
    ensures Tallied(p, es + [e]) == AddLeaf(Tallied(p, es), e)
  {
    assert (es + [e])[..|es|] == es;
  }

  lemma SnocIdents(es: seq<ElementMeta>, e: ElementMeta)
    ensures IdentsOf(es + [e]) == IdentsOf(es) + [e.ident]
  {
    assert (es + [e])[..|es|] == es;
  }

  lemma {:induction false} KnownIdent(es: seq<ElementMeta>, x: PropertyIdent)
    ensures IndexOf(es, x) < |es| <==> x in IdentsOf(es)
  {
    var i := IndexOf(es, x);
    if i < |es| {
      IdentAt(es, i);
    } else if x in IdentsOf(es) {
      if es != [] {
        IdentAt(es, 0);
      }
      var j :| 0 <= j < |IdentsOf(es)| && IdentsOf(es)[j] == x;
      IdentAt(es, j);
    }
  }

  lemma AddLeafIdents(es: seq<ElementMeta>, e: ElementMeta)
    ensures IdentsOf(AddLeaf(es, e)) == if e.ident in IdentsOf(es) then IdentsOf(es) else IdentsOf(es) + [e.ident]
    ensures AllLeaves(es) && !e.IsGroup() ==> AllLeaves(AddLeaf(es, e))
  {
    KnownIdent(es, e.ident);
    if e.ident in IdentsOf(es) {
      SameIdents(AddLeaf(es, e), es);
    } else {
      SnocIdents(es, e);
    }
  }

  lemma {:induction false} TalliedIdents(p: seq<ElementMeta>, es: seq<ElementMeta>, x: PropertyIdent)
    ensures x in IdentsOf(Tallied(p, es)) <==> x in IdentsOf(p + es)
    ensures AllLeaves(p + es) ==> AllLeaves(Tallied(p, es))
    decreases |es|
  {
    if es == [] {
      assert p + es == p;
    } else {
      var n := |es| - 1;
      TalliedIdents(p, es[..n], x);
      AddLeafIdents(Tallied(p, es[..n]), es[n]);
      LastLeaf(p, es);
    }
  }

  lemma LastLeaf(p: seq<ElementMeta>, es: seq<ElementMeta>)
    requires es != []
    ensures p + es == p + es[..|es| - 1] + [es[|es| - 1]]
    ensures IdentsOf(p + es) == IdentsOf(p + es[..|es| - 1]) + [es[|es| - 1].ident]
    ensures AllLeaves(p + es) ==> AllLeaves(p + es[..|es| - 1]) && !es[|es| - 1].IsGroup()
  {
    AppendLast(p, es);
    SnocIdents(p + es[..|es| - 1], es[|es| - 1]);
    assert AllLeaves(p + es) ==> !(p + es)[|p + es| - 1].IsGroup();
  }

  lemma FirstIndex(es: seq<ElementMeta>, x: PropertyIdent, j: nat)
    requires j < |es| && es[j].ident == x && forall i | 0 <= i < j :: es[i].ident != x
    ensures IndexOf(es, x) == j
  {
  }

  lemma UpdateSnoc<T>(s: seq<T>, x: T, j: nat, y: T)
    requires j <= |s|
    ensures (s + [x])[j := y] == if j < |s| then s[j := y] + [x] else s + [y]
  {
  }

  lemma IndexSnoc(es: seq<ElementMeta>, a: ElementMeta, x: PropertyIdent)
    ensures IndexOf(es + [a], x) == if IndexOf(es, x) < |es| || a.ident == x then IndexOf(es, x) else |es| + 1
  {
    var i := IndexOf(es, x);
    if i < |es| || a.ident == x {
      FirstIndex(es + [a], x, i);
    }
  }

  lemma IndexUpdated(es: seq<ElementMeta>, i: nat, a: ElementMeta, x: PropertyIdent)
    requires i < |es| && a.ident == es[i].ident
    ensures IndexOf(es[i := a], x) == IndexOf(es, x)
  {
    var j := IndexOf(es, x);
    if j < |es| {
      FirstIndex(es[i := a], x, j);
    }
  }

  // ---------- Sums of sums

  lemma SwapUpdates<T>(s: seq<T>, i: nat, a: T, j: nat, b: T)
    requires i < |s| && j < |s| && i != j
    ensures s[i := a][j := b] == s[j := b][i := a]
  {
  }

  lemma AddKnown(es: seq<ElementMeta>, e: ElementMeta, i: nat)
    requires i == IndexOf(es, e.ident) < |es|
    ensures AddLeaf(es, e) == es[i := SumBounds(es[i], e)]
  {
  }

  /** A leaf for a known identifier may as well be added first. */
  lemma AddSwapped(es: seq<ElementMeta>, e: ElementMeta, y: ElementMeta)
    requires IndexOf(es, e.ident) < |es|
    ensures AddLeaf(AddLeaf(es, e), y) == AddLeaf(AddLeaf(es, y), e)
  {
    if IndexOf(es, y.ident) < |es| {
      BothKnown(es, e, y);
    } else {
      OneKnown(es, e, y);
    }
  }

  lemma BothKnown(es: seq<ElementMeta>, e: ElementMeta, y: ElementMeta)
    requires IndexOf(es, e.ident) < |es| && IndexOf(es, y.ident) < |es|
    ensures AddLeaf(AddLeaf(es, e), y) == AddLeaf(AddLeaf(es, y), e)
  {
    var i, j := IndexOf(es, e.ident), IndexOf(es, y.ident);
    AddTwo(es, e, y, i, j);
    AddTwo(es, y, e, j, i);
    if i == j {
      SumsCommute(es[i], e, y);
    } else {
      SwapUpdates(es, i, SumBounds(es[i], e), j, SumBounds(es[j], y));
    }
  }

  lemma SumsCommute(a: ElementMeta, e: ElementMeta, y: ElementMeta)
    ensures SumBounds(SumBounds(a, e), y) == SumBounds(SumBounds(a, y), e)
  {
  }

  lemma AddTwo(es: seq<ElementMeta>, e: ElementMeta, y: ElementMeta, i: nat, j: nat)
    requires i == IndexOf(es, e.ident) < |es| && j == IndexOf(es, y.ident) < |es|
    ensures var a := SumBounds(es[i], e);
            AddLeaf(AddLeaf(es, e), y) == if i == j then es[i := SumBounds(a, y)] else es[i := a][j := SumBounds(es[j], y)]
  {
    var a := SumBounds(es[i], e);
    IndexUpdated(es, i, a, y.ident);
    AddKnown(es, e, i);
    AddKnown(es[i := a], y, j);
    Overwrite(es, i, a, SumBounds(a, y));
  }

  lemma Overwrite<T>(s: seq<T>, i: nat, a: T, b: T)
    requires i < |s|
    ensures s[i := a][i := b] == s[i := b]
  {
  }

  lemma OneKnown(es: seq<ElementMeta>, e: ElementMeta, y: ElementMeta)
    requires IndexOf(es, e.ident) < |es| && IndexOf(es, y.ident) == |es|
    ensures AddLeaf(AddLeaf(es, e), y) == AddLeaf(AddLeaf(es, y), e)
  {
    var i := IndexOf(es, e.ident);
    var a := SumBounds(es[i], e);
    AddKnown(es, e, i);
    IndexUpdated(es, i, a, y.ident);
    IndexSnoc(es, y, e.ident);
    AddKnown(es + [y], e, i);
    UpdateSnoc(es, y, i, a);
  }

  /** Adding a sum is adding both. */
  lemma AddSummed(es: seq<ElementMeta>, y: ElementMeta, e: ElementMeta)
    requires y.ident == e.ident
    ensures AddLeaf(es, SumBounds(y, e)) == AddLeaf(AddLeaf(es, y), e)
  {
    var i := IndexOf(es, e.ident);
    if i < |es| {
      IndexUpdated(es, i, SumBounds(es[i], y), e.ident);
      assert SumBounds(es[i], SumBounds(y, e)) == SumBounds(SumBounds(es[i], y), e);
    } else {
      IndexSnoc(es, y, e.ident);
      UpdateSnoc(es, y, |es|, SumBounds(y, e));
    }
  }

  lemma {:induction false} TalliedAdd(p: seq<ElementMeta>, es: seq<ElementMeta>, e: ElementMeta)
    ensures Tallied(p, AddLeaf(es, e)) == AddLeaf(Tallied(p, es), e)
    decreases |es|
  {
    if IndexOf(es, e.ident) == |es| {
      SnocTallied(p, es, e);
    } else {
      var before, y := es[..|es| - 1], es[|es| - 1];
      assert es == before + [y];
      AddToSnoc(before, y, e);
      SnocTallied(p, before, y);
      if IndexOf(before, e.ident) < |before| {
        TalliedAdd(p, before, e);
        SnocTallied(p, AddLeaf(before, e), y);
        KnownInTallied(p, before, e.ident);
        AddSwapped(Tallied(p, before), e, y);
      } else {
        SnocTallied(p, before, SumBounds(y, e));
        AddSummed(Tallied(p, before), y, e);
      }
    }
  }

  /** Adding a known leaf changes the last one, or one before it. */
  lemma AddToSnoc(before: seq<ElementMeta>, y: ElementMeta, e: ElementMeta)
    requires IndexOf(before + [y], e.ident) <= |before|
    ensures if IndexOf(before, e.ident) < |before| then AddLeaf(before + [y], e) == AddLeaf(before, e) + [y]
            else y.ident == e.ident && AddLeaf(before + [y], e) == before + [SumBounds(y, e)]
  {
    IndexSnoc(before, y, e.ident);
    var i := IndexOf(before, e.ident);
    AddKnown(before + [y], e, i);
    UpdateSnoc(before, y, i, SumBounds((before + [y])[i], e));
  }

  lemma KnownInTallied(p: seq<ElementMeta>, es: seq<ElementMeta>, x: PropertyIdent)
    requires IndexOf(es, x) < |es|
    ensures IndexOf(Tallied(p, es), x) < |Tallied(p, es)|
  {
    KnownIdent(es, x);
    AppendIdents(p, es);
    TalliedIdents(p, es, x);
    KnownIdent(Tallied(p, es), x);
  }

  /** Adding leaves that are summed up already gives the sum of all. */
  lemma {:induction false} TalliedNested(p: seq<ElementMeta>, q: seq<ElementMeta>, es: seq<ElementMeta>)
    ensures Tallied(p, Tallied(q, es)) == Tallied(p, q + es)
    decreases |es|
  {
    if es == [] {
      assert q + es == q;
    } else {
      var n := |es| - 1;
      TalliedNested(p, q, es[..n]);
      TalliedAdd(p, Tallied(q, es[..n]), es[n]);
      SnocTallied(p, q + es[..n], es[n]);
      AppendLast(q, es);
    }
  }

  lemma {:induction false} TalliedAppend(p: seq<ElementMeta>, a: seq<ElementMeta>, b: seq<ElementMeta>)
    ensures Tallied(Tallied(p, a), b) == Tallied(p, a + b)
    decreases |b|
  {
    if b == [] {
      assert a + b == a;
    } else {
      var n := |b| - 1;
      TalliedAppend(p, a, b[..n]);
      SnocTallied(p, a + b[..n], b[n]);
      AppendLast(a, b);
    }
  }

  // ---------- Words that are kept

  /** An identifier at the end of the leaves is at the end of their sum. */
  lemma {:induction false} TalliedAtEnd(p: seq<ElementMeta>, es: seq<ElementMeta>, x: PropertyIdent)
    requires AtEnd(IdentsOf(p + es), x)
    ensures AtEnd(IdentsOf(Tallied(p, es)), x)
    decreases |es|
  {
    if es == [] {
      assert p + es == p;
    } else {
      var n := |es| - 1;
      LastLeaf(p, es);
      SnocAtEnd(IdentsOf(p + es[..n]), es[n].ident, x);
      AddLeafIdents(Tallied(p, es[..n]), es[n]);
      SnocAtEnd(IdentsOf(Tallied(p, es[..n])), es[n].ident, x);
      if es[n].ident == x {
        TalliedAtEnd(p, es[..n], x);
      } else {
        TalliedIdents(p, es, x);
        NotInAtEnd(IdentsOf(Tallied(p, es)), x);
      }
    }
  }

  lemma NotInAtEnd<T(!new)>(s: seq<T>, x: T)
    requires x !in s
    ensures AtEnd(s, x)
  {
  }

  /** Powers of the same letter commute. */
  lemma PowersCommute(x: PropertyIdent, m: nat, n: nat)
    ensures Power(x, m) + Power(x, n) == Power(x, n) + Power(x, m)
  {
  }

  /** Further occurrences at the end go to the first particle of the same identifier. */
  lemma {:induction false} MoveToFirst(es: seq<ElementMeta>, e: ElementMeta, u: Word, v: Word)
    requires AllLeaves(es) && e.ident in IdentsOf(es) && AtEnd(IdentsOf(es), e.ident)
    requires LeafAccepts(e, v) && SequenceOf(map[], es, u, 0)
    ensures SequenceOf(map[], AddLeaf(es, e), u + v, 0)
    decreases |es|
  {
    var before, a := CutIdents(es, e.ident);
    var u1, u2 := CutWord(before, a, u);
    IndexSnoc(before, a, e.ident);
    AddToSnoc(before, a, e);
    KnownIdent(before, e.ident);
    if e.ident in IdentsOf(before) {
      MoveToFirst(before, e, u1, v);
      PastLast(before, a, e, u1, u2, v);
    } else {
      MoveToLast(before, a, e, u, v);
    }
  }

  lemma CutIdents(es: seq<ElementMeta>, x: PropertyIdent) returns (before: seq<ElementMeta>, a: ElementMeta)
    requires AllLeaves(es) && x in IdentsOf(es) && AtEnd(IdentsOf(es), x)
    ensures es == before + [a] && a.ident == x && !a.IsGroup() && |before| < |es|
    ensures AllLeaves(before) && AtEnd(IdentsOf(before), x)
  {
    before, a := CutLeaf(es);
    SnocAtEnd(IdentsOf(before), a.ident, x);
  }

  lemma CutLeaf(es: seq<ElementMeta>) returns (before: seq<ElementMeta>, a: ElementMeta)
    requires AllLeaves(es) && es != []
    ensures es == before + [a] && !a.IsGroup() && AllLeaves(before)
    ensures IdentsOf(es) == IdentsOf(before) + [a.ident]
  {
    before, a := es[..|es| - 1], es[|es| - 1];
  }

  lemma CutWord(es: seq<ElementMeta>, e: ElementMeta, w: Word) returns (u: Word, v: Word)
    requires SequenceOf(map[], es + [e], w, 0)
    ensures w == u + v && SequenceOf(map[], es, u, 0) && Particle(map[], e, v, 0)
  {
    var i := CutLast(es, e, w);
    u, v := w[..i], w[i..];
  }

  /** The occurrences `v` pass those of the last particle, which are the same letter. */
  lemma PastLast(before: seq<ElementMeta>, a: ElementMeta, e: ElementMeta, u1: Word, u2: Word, v: Word)
    requires !a.IsGroup() && a.ident == e.ident && LeafAccepts(e, v)
    requires SequenceOf(map[], AddLeaf(before, e), u1 + v, 0) && Particle(map[], a, u2, 0)
    ensures SequenceOf(map[], AddLeaf(before, e) + [a], u1 + u2 + v, 0)
  {
    LeafParticle(map[], a, u2, 0);
    SequenceStep(AddLeaf(before, e), a, u1 + v, u2);
    PowersCommute(e.ident, |v|, |u2|);
    Associative(u1, v, u2);
    Associative(u1, u2, v);
  }

  lemma Associative<T>(a: seq<T>, b: seq<T>, c: seq<T>)
    ensures a + b + c == a + (b + c)
  {
  }

  lemma AddLeafKeeps(es: seq<ElementMeta>, e: ElementMeta, u: Word, v: Word)
    requires AllLeaves(es) && !e.IsGroup() && AtEnd(IdentsOf(es), e.ident)
    requires SequenceOf(map[], es, u, 0) && Particle(map[], e, v, 0)
    ensures SequenceOf(map[], AddLeaf(es, e), u + v, 0)
  {
    KnownIdent(es, e.ident);
    if e.ident in IdentsOf(es) {
      LeafParticle(map[], e, v, 0);
      MoveToFirst(es, e, u, v);
    } else {
      SequenceStep(es, e, u, v);
    }
  }

  /** If every repeated leaf follows its own kind only, no word is lost: for all bounds, and whatever the first `|p|` are like. */
  lemma {:induction false} GroupedKeeps(p: seq<ElementMeta>, es: seq<ElementMeta>, w: Word)
    requires AllLeaves(p + es) && GroupedFrom(IdentsOf(p + es), |p|) && SequenceOf(map[], p + es, w, 0)
    ensures SequenceOf(map[], Tallied(p, es), w, 0)
    decreases |es|
  {
    if es == [] {
      assert p + es == p;
    } else {
      var n := |es| - 1;
      LastLeaf(p, es);
      var i := CutLast(p + es[..n], es[n], w);
      IdentsLength(p + es[..n]);
      SnocGrouped(IdentsOf(p + es[..n]), es[n].ident, |p|);
      GroupedKeeps(p, es[..n], w[..i]);
      TalliedAtEnd(p, es[..n], es[n].ident);
      TalliedIdents(p, es[..n], es[n].ident);
      AddLeafKeeps(Tallied(p, es[..n]), es[n], w[..i], w[i..]);
    }
  }

  lemma {:induction false} IdentsLength(es: seq<ElementMeta>)
    ensures |IdentsOf(es)| == |es|
  {
    if es != [] {
      IdentAt(es, 0);
    }
  }

  // ---------- Words that are lost

  lemma {:induction false} PowerAtEnd(u: Word, x: PropertyIdent, m: nat, y: PropertyIdent)
    ensures x == y ==> (AtEnd(u + Power(x, m), y) <==> AtEnd(u, y))
    ensures x != y && m > 0 ==> (AtEnd(u + Power(x, m), y) <==> y !in u)
    decreases m
  {
    if m == 0 {
      assert u + Power(x, 0) == u;
    } else {
      PowerSnoc(x, m);
      PowerAtEnd(u, x, m - 1, y);
      assert u + Power(x, m) == u + Power(x, m - 1) + [x];
      SnocAtEnd(u + Power(x, m - 1), x, y);
    }
  }

  lemma {:induction false} PowerAdjacent(u: Word, x: PropertyIdent, m: nat)
    ensures Adjacent(u + Power(x, m)) ==> Adjacent(u) && (m > 0 ==> AtEnd(u, x))
    ensures Adjacent(u) && AtEnd(u, x) ==> Adjacent(u + Power(x, m))
    decreases m
  {
    if m == 0 {
      assert u + Power(x, 0) == u;
    } else {
      PowerSnoc(x, m);
      PowerAdjacent(u, x, m - 1);
      PowerAtEnd(u, x, m - 1, x);
      assert u + Power(x, m) == u + Power(x, m - 1) + [x];
      SnocGrouped(u + Power(x, m - 1), x, 0);
    }
  }

  /** In the words of a sequence, too, an identifier at its end is at the end. */
  lemma {:induction false} WordAtEnd(es: seq<ElementMeta>, w: Word, x: PropertyIdent)
    requires AllLeaves(es) && SequenceOf(map[], es, w, 0) && AtEnd(IdentsOf(es), x)
    ensures AtEnd(w, x)
    decreases |es|
  {
    SequenceLetters(es, w);
    if x in IdentsOf(es) {
      var before, a := CutIdents(es, x);
      var u, v := CutWord(before, a, w);
      LeafParticle(map[], a, v, 0);
      WordAtEnd(before, u, x);
      PowerAtEnd(u, x, |v|, x);
    } else {
      NotInAtEnd(w, x);
    }
  }

  /** A sequence with adjacent equal identifiers accepts only words with adjacent equal letters. */
  lemma {:induction false} WordAdjacent(es: seq<ElementMeta>, w: Word)
    requires AllLeaves(es) && SequenceOf(map[], es, w, 0) && Adjacent(IdentsOf(es))
    ensures Adjacent(w)
    decreases |es|
  {
    if es != [] {
      var before, a := CutLeaf(es);
      var u, v := CutWord(before, a, w);
      LeafParticle(map[], a, v, 0);
      SnocGrouped(IdentsOf(before), a.ident, 0);
      WordAdjacent(before, u);
      WordAtEnd(before, u, a.ident);
      PowerAdjacent(u, a.ident, |v|);
    }
  }

  /** Every leaf may occur. */
  ghost predicate MayOccur(es: seq<ElementMeta>) {
    AllLeaves(es) && Proper(es) && forall i | 0 <= i < |es| :: es[i].maxOccurs != Bounded(0)
  }

  /** As often as necessary, but at least once. */
  function Needed(e: ElementMeta): nat {
    if e.minOccurs == 0 then 1 else e.minOccurs
  }

  /** A word in which every leaf occurs. */
  function FullWord(es: seq<ElementMeta>): Word {
    if es == [] then [] else FullWord(es[..|es| - 1]) + Power(es[|es| - 1].ident, Needed(es[|es| - 1]))
  }

  lemma {:induction false} FullWordAccepted(es: seq<ElementMeta>)
    requires MayOccur(es)
    ensures SequenceOf(map[], es, FullWord(es), 0)
    decreases |es|
  {
    if es != [] {
      var n := |es| - 1;
      FullWordAccepted(es[..n]);
      LeafParticle(map[], es[n], Power(es[n].ident, Needed(es[n])), 0);
      SequenceStep(es[..n], es[n], FullWord(es[..n]), Power(es[n].ident, Needed(es[n])));
      assert es[..n] + [es[n]] == es;
    }
  }

  lemma {:induction false} FullWordLetters(es: seq<ElementMeta>, x: PropertyIdent)
    requires x in IdentsOf(es)
    ensures x in FullWord(es)
    decreases |es|
  {
    var n := |es| - 1;
    var v := Power(es[n].ident, Needed(es[n]));
    if x == es[n].ident {
      assert v[0] == x;
    } else {
      FullWordLetters(es[..n], x);
    }
  }

  lemma {:induction false} FullWordAtEnd(es: seq<ElementMeta>, x: PropertyIdent)
    requires AtEnd(FullWord(es), x)
    ensures AtEnd(IdentsOf(es), x)
    decreases |es|
  {
    if es != [] {
      var n := |es| - 1;
      PowerAtEnd(FullWord(es[..n]), es[n].ident, Needed(es[n]), x);
      SnocAtEnd(IdentsOf(es[..n]), es[n].ident, x);
      if es[n].ident == x {
        FullWordAtEnd(es[..n], x);
      } else if x in IdentsOf(es[..n]) {
        FullWordLetters(es[..n], x);
      }
    }
  }

  /** The full word shows the order of the leaves. */
  lemma {:induction false} FullWordAdjacent(es: seq<ElementMeta>)
    requires Adjacent(FullWord(es))
    ensures Adjacent(IdentsOf(es))
    decreases |es|
  {
    if es != [] {
      var n := |es| - 1;
      PowerAdjacent(FullWord(es[..n]), es[n].ident, Needed(es[n]));
      FullWordAdjacent(es[..n]);
      FullWordAtEnd(es[..n], es[n].ident);
      SnocGrouped(IdentsOf(es[..n]), es[n].ident, 0);
    }
  }

  lemma {:induction false} TalliedAdjacent(p: seq<ElementMeta>, es: seq<ElementMeta>)
    requires Adjacent(IdentsOf(p))
    ensures Adjacent(IdentsOf(Tallied(p, es)))
    decreases |es|
  {
    if es != [] {
      var n := |es| - 1;
      TalliedAdjacent(p, es[..n]);
      AddLeafIdents(Tallied(p, es[..n]), es[n]);
      SnocGrouped(IdentsOf(Tallied(p, es[..n])), es[n].ident, 0);
      if es[n].ident !in IdentsOf(Tallied(p, es[..n])) {
        NotInAtEnd(IdentsOf(Tallied(p, es[..n])), es[n].ident);
      }
    }
  }

  /** Otherwise the full word is lost. */
  lemma FullWordLost(p: seq<ElementMeta>, es: seq<ElementMeta>)
    requires MayOccur(p + es) && Adjacent(IdentsOf(p)) && !Adjacent(IdentsOf(p + es))
    ensures SequenceOf(map[], p + es, FullWord(p + es), 0)
    ensures !SequenceOf(map[], Tallied(p, es), FullWord(p + es), 0)
  {
    FullWordAccepted(p + es);
    if SequenceOf(map[], Tallied(p, es), FullWord(p + es), 0) {
      TalliedAdjacent(p, es);
      TalliedIdents(p, es, FullWord(p + es)[0]);
      WordAdjacent(Tallied(p, es), FullWord(p + es));
      FullWordAdjacent(p + es);
    }
  }

  /** Adjacency of a whole is that of its rest, if the first part has it. */
  lemma {:induction false} AdjacentGrouped<T(!new)>(s: seq<T>, p: nat)
    requires p <= |s| && Adjacent(s[..p])
    ensures Adjacent(s) <==> GroupedFrom(s, p)
    decreases |s|
  {
    if p == |s| {
      assert s[..p] == s;
    } else {
      assert s[..|s| - 1][..p] == s[..p];
      AdjacentGrouped(s[..|s| - 1], p);
    }
  }
}
