/**
  Which elements a flattened group has: one for each identifier of the leaves
  below, taken over from one of these leaves up to its bounds; when it is mixed;
  and that leaves which agree are flattened without an error.
 */
module FlattenElements {
  import opened Wrappers
  import opened Occurs
  import opened Meta
  import opened Relations
  import opened GroupGraph
  import opened GroupFrames
  import opened ContentModel
  import opened Flatten
  import opened FlattenWords
  import opened FlattenTheorems
  import opened FlattenTight
  import opened FlattenBounds

  // ---------- What is below a group

  type LeafSet = iset<ElementMeta>

  predicate IsLeafOf(types: MetaTypes, x: TypeIdent, f: ElementMeta) {
    IsGroupType(types, x) && !f.IsGroup() && f in Elements(types, x)
  }

  predicate IsMixedGroup(types: MetaTypes, x: TypeIdent) {
    IsGroupType(types, x) && types[x].variant.group.isMixed
  }

  /** The leaves of the group and of all groups below. */
  ghost function LeavesBelow(types: MetaTypes, t: TypeIdent): LeafSet {
    iset x, f | x in Below(types, t, 0) && IsLeafOf(types, x, f) :: f
  }

  /** The group or one below is mixed. */
  ghost predicate MixedBelow(types: MetaTypes, t: TypeIdent) {
    exists x :: x in Below(types, t, 0) && IsMixedGroup(types, x)
  }

  /** What is below a nested group is below the group. */
  lemma BelowNested(types: MetaTypes, t: TypeIdent, i: nat, x: TypeIdent)
    requires IsGroupType(types, t) && i < |Elements(types, t)| && Elements(types, t)[i].IsGroup()
    requires x in Below(types, Elements(types, t)[i].variant.type_, 0)
    ensures x in Below(types, t, 0)
  {
    NestedEdge(types, t, i);
    EdgeThenReaches(NestGraph(types), t, Elements(types, t)[i].variant.type_, x);
    assert Reaches(NestGraph(types), t, x);
    var n: nat :| Steps(NestGraph(types), t, x, n);
  }

  /** And the other way round. */
  lemma BelowSplit(types: MetaTypes, t: TypeIdent, x: TypeIdent) returns (i: nat)
    requires x in Below(types, t, 0) && x != t
    ensures IsGroupType(types, t) && i < |Elements(types, t)| && Elements(types, t)[i].IsGroup()
    ensures x in Below(types, Elements(types, t)[i].variant.type_, 0)
  {
    var n: nat :| n >= 0 && Steps(NestGraph(types), t, x, n);
    var z :| Edge(NestGraph(types), t, z) && Steps(NestGraph(types), z, x, n - 1);
    GroupTypesExact(Elements(types, t), z);
    i :| 0 <= i < |Elements(types, t)| && Elements(types, t)[i].IsGroup() && Elements(types, t)[i].variant.type_ == z;
  }

  // ---------- What is below some elements

  ghost predicate LeafAmong(types: MetaTypes, es: seq<ElementMeta>, f: ElementMeta) {
    exists i | 0 <= i < |es| :: LeafAt(types, es[i], f)
  }

  ghost predicate LeafAt(types: MetaTypes, e: ElementMeta, f: ElementMeta) {
    if e.IsGroup() then f in LeavesBelow(types, e.variant.type_) else f == e
  }

  ghost predicate MixedAmong(types: MetaTypes, es: seq<ElementMeta>) {
    exists i | 0 <= i < |es| :: MixedAt(types, es[i])
  }

  ghost predicate MixedAt(types: MetaTypes, e: ElementMeta) {
    e.IsGroup() && MixedBelow(types, e.variant.type_)
  }

  lemma LeavesUnfold(types: MetaTypes, t: TypeIdent, f: ElementMeta)
    requires IsGroupType(types, t)
    ensures f in LeavesBelow(types, t) <==> LeafAmong(types, Elements(types, t), f)
  {
    var es := Elements(types, t);
    if f in LeavesBelow(types, t) {
      var x :| x in Below(types, t, 0) && IsLeafOf(types, x, f);
      if x == t {
        var i :| 0 <= i < |es| && es[i] == f;
        assert LeafAt(types, es[i], f);
      } else {
        var i := BelowSplit(types, t, x);
        assert LeafAt(types, es[i], f);
      }
    }
    if LeafAmong(types, es, f) {
      var i :| 0 <= i < |es| && LeafAt(types, es[i], f);
      SelfBelow(types, t);
      if es[i].IsGroup() {
        var x :| x in Below(types, es[i].variant.type_, 0) && IsLeafOf(types, x, f);
        BelowNested(types, t, i, x);
      } else {
        assert IsLeafOf(types, t, f);
      }
    }
  }

  lemma MixedUnfold(types: MetaTypes, t: TypeIdent)
    requires IsGroupType(types, t)
    ensures MixedBelow(types, t) <==> types[t].variant.group.isMixed || MixedAmong(types, Elements(types, t))
  {
    var es := Elements(types, t);
    SelfBelow(types, t);
    if MixedBelow(types, t) {
      var x :| x in Below(types, t, 0) && IsMixedGroup(types, x);
      if x != t {
        var i := BelowSplit(types, t, x);
        assert MixedAt(types, es[i]);
      }
    }
    if types[t].variant.group.isMixed {
      assert IsMixedGroup(types, t);
    }
    if i :| 0 <= i < |es| && MixedAt(types, es[i]) {
      var x :| x in Below(types, es[i].variant.type_, 0) && IsMixedGroup(types, x);
      BelowNested(types, t, i, x);
    }
  }

  lemma LeafAmongSnoc(types: MetaTypes, es: seq<ElementMeta>, f: ElementMeta)
    requires es != []
    ensures LeafAmong(types, es, f) <==> LeafAmong(types, es[..|es| - 1], f) || LeafAt(types, es[|es| - 1], f)
  {
    var front := es[..|es| - 1];
    if i :| 0 <= i < |es| && LeafAt(types, es[i], f) {
      assert i < |front| ==> LeafAt(types, front[i], f);
    }
    if i :| 0 <= i < |front| && LeafAt(types, front[i], f) {
      assert LeafAt(types, es[i], f);
    }
  }

  lemma MixedAmongSnoc(types: MetaTypes, es: seq<ElementMeta>)
    requires es != []
    ensures MixedAmong(types, es) <==> MixedAmong(types, es[..|es| - 1]) || MixedAt(types, es[|es| - 1])
  {
    var front := es[..|es| - 1];
    if i :| 0 <= i < |es| && MixedAt(types, es[i]) {
      assert i < |front| ==> MixedAt(types, front[i]);
    }
    if i :| 0 <= i < |front| && MixedAt(types, front[i]) {
      assert MixedAt(types, es[i]);
    }
  }

  // ---------- Taken over from leaves

  /** `e` is one of the leaves, up to its bounds. */
  ghost predicate Drawn(e: ElementMeta, all: LeafSet) {
    exists f :: f in all && Reset(e) == Reset(f)
  }

  ghost predicate AllDrawn(es: seq<ElementMeta>, all: LeafSet) {
    forall i {:trigger Drawn(es[i], all)} | 0 <= i < |es| :: Drawn(es[i], all)
  }

  /** Leaves of one identifier are of one type: otherwise adding reports an error. */
  ghost predicate Consistent(all: LeafSet) {
    forall f, g | f in all && g in all && f.ident == g.ident :: SameVariant(f.variant, g.variant)
  }

  lemma DrawnConsistent(a: ElementMeta, b: ElementMeta, all: LeafSet)
    requires Consistent(all) && Drawn(a, all) && Drawn(b, all) && a.ident == b.ident
    ensures SameVariant(a.variant, b.variant)
  {
    var f :| f in all && Reset(a) == Reset(f);
    var g :| g in all && Reset(b) == Reset(g);
    assert f.ident == g.ident && f.variant == a.variant && g.variant == b.variant;
  }

  lemma SameDrawn(a: ElementMeta, b: ElementMeta, all: LeafSet)
    requires Drawn(a, all) && Reset(a) == Reset(b)
    ensures Drawn(b, all)
  {
    var f :| f in all && Reset(a) == Reset(f);
  }

  lemma AddedDrawn(s: Flat, updateOccurs: bool, e: ElementMeta, all: LeafSet)
    requires AllDrawn(s.elements, all) && Drawn(e, all)
    ensures Consistent(all) ==> Added(s, updateOccurs, e).Ok?
    ensures Added(s, updateOccurs, e).Ok? ==> AllDrawn(Added(s, updateOccurs, e).value.elements, all)
  {
    var i := IndexOf(s.elements, e.ident);
    if s.touched && i < |s.elements| {
      assert Drawn(s.elements[i], all);
      if Consistent(all) {
        DrawnConsistent(s.elements[i], e, all);
      }
    }
    if Added(s, updateOccurs, e).Ok? {
      var j, x := AddedList(s, updateOccurs, e);
      var es := Added(s, updateOccurs, e).value.elements;
      forall k | 0 <= k < |es|
        ensures Drawn(es[k], all)
      {
        if k < |s.elements| {
          assert Drawn(s.elements[k], all);
          SameDrawn(s.elements[k], es[k], all);
        } else {
          SameDrawn(e, es[k], all);
        }
      }
    }
  }

  lemma {:induction false} AddAllDrawn(s: Flat, updateOccurs: bool, es: seq<ElementMeta>, all: LeafSet)
    requires AllDrawn(s.elements, all) && AllDrawn(es, all)
    ensures Consistent(all) ==> AddAll(s, updateOccurs, es).Ok?
    ensures AddAll(s, updateOccurs, es).Ok? ==> AllDrawn(AddAll(s, updateOccurs, es).value.elements, all)
    decreases |es|
  {
    if es != [] {
      var n := |es| - 1;
      forall i | 0 <= i < n
        ensures Drawn(es[..n][i], all)
      {
        assert Drawn(es[i], all);
      }
      AddAllDrawn(s, updateOccurs, es[..n], all);
      assert Drawn(es[n], all);
      if AddAll(s, updateOccurs, es[..n]).Ok? {
        AddedDrawn(AddAll(s, updateOccurs, es[..n]).value, updateOccurs, es[n], all);
      }
    }
  }

  lemma AlikeDrawn(es: seq<ElementMeta>, es': seq<ElementMeta>, all: LeafSet)
    requires AllDrawn(es, all) && |es'| == |es| && forall i | 0 <= i < |es| :: Reset(es'[i]) == Reset(es[i])
    ensures AllDrawn(es', all)
  {
    forall i | 0 <= i < |es'|
      ensures Drawn(es'[i], all)
    {
      assert Drawn(es[i], all);
      SameDrawn(es[i], es'[i], all);
    }
  }

  lemma MergedDrawn(s: Flat, el: ElementMeta, inner: Flat, all: LeafSet)
    requires AllDrawn(s.elements, all) && AllDrawn(inner.elements, all)
    ensures Consistent(all) ==> Merged(s, el, inner).Ok?
    ensures Merged(s, el, inner).Ok? ==> AllDrawn(Merged(s, el, inner).value.elements, all)
  {
    if KeepsKind(s, el, inner) {
      AlikeDrawn(inner.elements, ScaleAll(inner.elements, el.Bounds()), all);
      AddAllDrawn(s.(touched := true, isMixed := s.isMixed || inner.isMixed), true, ScaleAll(inner.elements, el.Bounds()), all);
    } else {
      var a, b := ToMixed(s), ToMixed(inner);
      AlikeDrawn(s.elements, a.elements, all);
      AlikeDrawn(inner.elements, ResetAll(b.elements), all);
      AddAllDrawn(a.(mode := Mixed(MergedRange(s, el, inner)), isMixed := s.isMixed || inner.isMixed), false, ResetAll(b.elements), all);
    }
  }

  ghost predicate AmongAll(types: MetaTypes, es: seq<ElementMeta>, all: LeafSet) {
    forall f | LeafAmong(types, es, f) :: f in all
  }

  lemma AmongFront(types: MetaTypes, es: seq<ElementMeta>, all: LeafSet)
    requires es != [] && AmongAll(types, es, all)
    ensures AmongAll(types, es[..|es| - 1], all)
    ensures !es[|es| - 1].IsGroup() ==> es[|es| - 1] in all
    ensures es[|es| - 1].IsGroup() && IsGroupType(types, es[|es| - 1].variant.type_) ==>
              AmongAll(types, Elements(types, es[|es| - 1].variant.type_), all)
  {
    var e := es[|es| - 1];
    forall f
      ensures LeafAmong(types, es[..|es| - 1], f) ==> f in all
      ensures LeafAt(types, e, f) ==> f in all
    {
      LeafAmongSnoc(types, es, f);
    }
    assert !e.IsGroup() ==> LeafAt(types, e, e);
    if e.IsGroup() && IsGroupType(types, e.variant.type_) {
      forall f | LeafAmong(types, Elements(types, e.variant.type_), f)
        ensures f in all
      {
        LeavesUnfold(types, e.variant.type_, f);
        assert LeafAt(types, e, f);
      }
    }
  }

  lemma {:induction false} ElementsDrawn(
    c: Config, kind: Kind, isMixed: bool, es: seq<ElementMeta>, depth: nat, r: nat, all: LeafSet)
    requires Runs(c, es, depth, r) && AmongAll(c.types, es, all)
    ensures Consistent(all) ==> ExecElements(c, kind, isMixed, es, depth).Ok?
    ensures ExecElements(c, kind, isMixed, es, depth).Ok? ==>
              AllDrawn(ExecElements(c, kind, isMixed, es, depth).value.elements, all)
    decreases r, |es|
  {
    if es != [] {
      var front, e := es[..|es| - 1], es[|es| - 1];
      AmongFront(c.types, es, all);
      assert Runs(c, front, depth, r);
      ElementsDrawn(c, kind, isMixed, front, depth, r, all);
      if e.IsGroup() {
        NestedRuns(c, es, |es| - 1, depth, r);
        var g := c.types[e.variant.type_].variant;
        ElementsDrawn(c, KindOf(g), g.group.isMixed, g.group.elements, depth + 1, r - 1, all);
      }
      if ExecElements(c, kind, isMixed, front, depth).Ok? {
        StepDrawn(c, ExecElements(c, kind, isMixed, front, depth).value, es, depth, r, all);
      }
    }
  }

  lemma StepDrawn(c: Config, s: Flat, es: seq<ElementMeta>, depth: nat, r: nat, all: LeafSet)
    requires es != [] && Runs(c, es, depth, r) && AllDrawn(s.elements, all)
    requires !es[|es| - 1].IsGroup() ==> es[|es| - 1] in all
    requires es[|es| - 1].IsGroup() ==>
               var f := Exec(c, es[|es| - 1].variant.type_, depth + 1);
               (Consistent(all) ==> f.Ok?) && (f.Ok? ==> AllDrawn(f.value.elements, all))
    ensures Consistent(all) ==> Step(c, s, es[|es| - 1], depth).Ok?
    ensures Step(c, s, es[|es| - 1], depth).Ok? ==> AllDrawn(Step(c, s, es[|es| - 1], depth).value.elements, all)
  {
    var e := es[|es| - 1];
    if e.IsGroup() {
      var f := Exec(c, e.variant.type_, depth + 1);
      if f.Ok? {
        MergedDrawn(s, e, f.value, all);
      }
    } else {
      assert Drawn(e, all);
      AddedDrawn(s, true, e, all);
    }
  }

  // ---------- No leaf is dropped

  /** Both are texts, both are wildcards, or both are children of the same type. */
  predicate Alike(a: ElementMetaVariant, b: ElementMetaVariant) {
    || (a.Text? && b.Text?) || (a.Any? && b.Any?) || (a.Typed? && b.Typed? && a.type_ == b.type_)
  }

  lemma SameVariantIff(a: ElementMetaVariant, b: ElementMetaVariant)
    ensures SameVariant(a, b) <==> Alike(a, b)
  {
  }

  /** An element stands for the leaf: it has its identifier and its type. */
  ghost predicate Listed(es: seq<ElementMeta>, f: ElementMeta) {
    exists j | 0 <= j < |es| :: StandsFor(es[j], f)
  }

  predicate StandsFor(e: ElementMeta, f: ElementMeta) {
    e.ident == f.ident && Alike(e.variant, f.variant)
  }

  lemma ListedOn(es: seq<ElementMeta>, es': seq<ElementMeta>, f: ElementMeta)
    requires Listed(es, f) && |es| <= |es'|
    requires forall j | 0 <= j < |es| :: es'[j].ident == es[j].ident && es'[j].variant == es[j].variant
    ensures Listed(es', f)
  {
    var j :| 0 <= j < |es| && StandsFor(es[j], f);
    assert StandsFor(es'[j], f);
  }

  /** Adding keeps what is listed, and lists the new element: a known identifier of another type is an error. */
  lemma AddedListed(s: Flat, updateOccurs: bool, e: ElementMeta, f: ElementMeta)
    requires Added(s, updateOccurs, e).Ok? && (Listed(s.elements, f) || StandsFor(e, f))
    ensures Listed(Added(s, updateOccurs, e).value.elements, f)
  {
    var es := Added(s, updateOccurs, e).value.elements;
    var j, x := AddedList(s, updateOccurs, e);
    var k := IndexOf(s.elements, e.ident);
    if StandsFor(e, f) && s.touched && k < |s.elements| {
      SameVariantIff(s.elements[k].variant, e.variant);
      assert StandsFor(s.elements[k], f);
    }
    if Listed(s.elements, f) {
      ListedOn(s.elements, es, f);
    } else {
      assert StandsFor(es[|s.elements|], f);
    }
  }

  lemma ListedSnoc(es: seq<ElementMeta>, f: ElementMeta)
    requires es != [] && Listed(es, f)
    ensures Listed(es[..|es| - 1], f) || StandsFor(es[|es| - 1], f)
  {
    var j :| 0 <= j < |es| && StandsFor(es[j], f);
    if j < |es| - 1 {
      assert StandsFor(es[..|es| - 1][j], f);
    }
  }

  lemma {:induction false} AddAllListed(s: Flat, updateOccurs: bool, es: seq<ElementMeta>, f: ElementMeta)
    requires AddAll(s, updateOccurs, es).Ok? && (Listed(s.elements, f) || Listed(es, f))
    ensures Listed(AddAll(s, updateOccurs, es).value.elements, f)
    decreases |es|
  {
    if es != [] {
      var n := |es| - 1;
      if Listed(es, f) {
        ListedSnoc(es, f);
      }
      if Listed(s.elements, f) || Listed(es[..n], f) {
        AddAllListed(s, updateOccurs, es[..n], f);
      }
      AddedListed(AddAll(s, updateOccurs, es[..n]).value, updateOccurs, es[n], f);
    }
  }

  lemma MergedListed(s: Flat, el: ElementMeta, inner: Flat, f: ElementMeta)
    requires Merged(s, el, inner).Ok? && (Listed(s.elements, f) || Listed(inner.elements, f))
    ensures Listed(Merged(s, el, inner).value.elements, f)
  {
    if KeepsKind(s, el, inner) {
      var more := ScaleAll(inner.elements, el.Bounds());
      if Listed(inner.elements, f) {
        ListedOn(inner.elements, more, f);
      }
      AddAllListed(s.(touched := true, isMixed := s.isMixed || inner.isMixed), true, more, f);
    } else {
      var a, b := ToMixed(s), ToMixed(inner);
      if Listed(s.elements, f) {
        ListedOn(s.elements, a.elements, f);
      }
      if Listed(inner.elements, f) {
        ListedOn(inner.elements, ResetAll(b.elements), f);
      }
      AddAllListed(a.(mode := Mixed(MergedRange(s, el, inner)), isMixed := s.isMixed || inner.isMixed), false, ResetAll(b.elements), f);
    }
  }

  lemma {:induction false} ElementsListed(
    c: Config, kind: Kind, isMixed: bool, es: seq<ElementMeta>, depth: nat, r: nat, f: ElementMeta)
    requires Runs(c, es, depth, r) && ExecElements(c, kind, isMixed, es, depth).Ok? && LeafAmong(c.types, es, f)
    ensures Listed(ExecElements(c, kind, isMixed, es, depth).value.elements, f)
    decreases r, |es|
  {
    var e := es[|es| - 1];
    var s := FrontState(c, kind, isMixed, es, depth, r);
    LeafAmongSnoc(c.types, es, f);
    if LeafAmong(c.types, es[..|es| - 1], f) {
      ElementsListed(c, kind, isMixed, es[..|es| - 1], depth, r, f);
    } else if e.IsGroup() {
      var g, inner := InnerState(c, s, es, depth, r);
      LeavesUnfold(c.types, e.variant.type_, f);
      ElementsListed(c, KindOf(g), g.group.isMixed, g.group.elements, depth + 1, r - 1, f);
    }
    StepListed(c, s, es, depth, r, f);
  }

  /** A step keeps what is listed, and adds what the element stands for. */
  lemma StepListed(c: Config, s: Flat, es: seq<ElementMeta>, depth: nat, r: nat, f: ElementMeta)
    requires es != [] && Runs(c, es, depth, r) && Step(c, s, es[|es| - 1], depth).Ok?
    ensures Listed(s.elements, f) ==> Listed(Step(c, s, es[|es| - 1], depth).value.elements, f)
    ensures var e := es[|es| - 1];
            if e.IsGroup() then
              Exec(c, e.variant.type_, depth + 1).Ok?
              && (Listed(Exec(c, e.variant.type_, depth + 1).value.elements, f) ==> Listed(Step(c, s, e, depth).value.elements, f))
            else StandsFor(e, f) ==> Listed(Step(c, s, e, depth).value.elements, f)
  {
    var e := es[|es| - 1];
    if e.IsGroup() {
      var g, inner := InnerState(c, s, es, depth, r);
      if Listed(s.elements, f) || Listed(inner.elements, f) {
        MergedListed(s, e, inner, f);
      }
    } else if Listed(s.elements, f) || StandsFor(e, f) {
      AddedListed(s, true, e, f);
    }
  }

  // ---------- Mixed content

  lemma {:induction false} AddAllMixed(s: Flat, updateOccurs: bool, es: seq<ElementMeta>)
    requires AddAll(s, updateOccurs, es).Ok?
    ensures AddAll(s, updateOccurs, es).value.isMixed == s.isMixed
    decreases |es|
  {
    if es != [] {
      AddAllMixed(s, updateOccurs, es[..|es| - 1]);
    }
  }

  lemma MergedMixed(s: Flat, el: ElementMeta, inner: Flat)
    requires Merged(s, el, inner).Ok?
    ensures Merged(s, el, inner).value.isMixed <==> s.isMixed || inner.isMixed
  {
    if KeepsKind(s, el, inner) {
      AddAllMixed(s.(touched := true, isMixed := s.isMixed || inner.isMixed), true, ScaleAll(inner.elements, el.Bounds()));
    } else {
      var a, b := ToMixed(s), ToMixed(inner);
      AddAllMixed(a.(mode := Mixed(MergedRange(s, el, inner)), isMixed := s.isMixed || inner.isMixed), false, ResetAll(b.elements));
    }
  }

  lemma {:induction false} ElementsMixed(c: Config, kind: Kind, isMixed: bool, es: seq<ElementMeta>, depth: nat, r: nat)
    requires Runs(c, es, depth, r) && ExecElements(c, kind, isMixed, es, depth).Ok?
    ensures ExecElements(c, kind, isMixed, es, depth).value.isMixed <==> isMixed || MixedAmong(c.types, es)
    decreases r, |es|
  {
    if es != [] {
      var e := es[|es| - 1];
      var s := FrontState(c, kind, isMixed, es, depth, r);
      ElementsMixed(c, kind, isMixed, es[..|es| - 1], depth, r);
      MixedAmongSnoc(c.types, es);
      if e.IsGroup() {
        var g, inner := InnerState(c, s, es, depth, r);
        ElementsMixed(c, KindOf(g), g.group.isMixed, g.group.elements, depth + 1, r - 1);
        MixedUnfold(c.types, e.variant.type_);
        MergedMixed(s, e, inner);
      }
    }
  }

  // ---------- The content of a complex type

  lemma LeavesOfContent(types: MetaTypes, t: TypeIdent)
    requires IsGroupType(types, t)
    ensures forall f :: LeafAmong(types, Elements(types, t), f) <==> f in LeavesBelow(types, t)
  {
    forall f
      ensures LeafAmong(types, Elements(types, t), f) <==> f in LeavesBelow(types, t)
    {
      LeavesUnfold(types, t, f);
    }
  }

  /** Each element of a flattened content is one of the leaves below; nothing of it changes but its bounds. */
  lemma ElementsTakenOver(types: MetaTypes, ident: TypeIdent, r: nat, j: nat) returns (f: ElementMeta)
    requires Finite(types, ident, r) && FlattenComplexType(types, ident).Ok?
    requires !AllLeaves(ContentElements(types, ident))
    requires var types' := FlattenComplexType(types, ident).value;
             IsGroupType(types', ContentOf(types, ident)) && j < |Elements(types', ContentOf(types, ident))|
    ensures f in LeavesBelow(types, ContentOf(types, ident))
    ensures var e := Elements(FlattenComplexType(types, ident).value, ContentOf(types, ident))[j];
            e == f.WithRange(e.Bounds())
  {
    var t := ContentOf(types, ident);
    var v := types[t].variant;
    var s := Written(types, ident, r);
    LeavesOfContent(types, t);
    ElementsDrawn(Config(types, MAX_DEPTH, true), KindOf(v), v.group.isMixed, v.group.elements, 0, r, LeavesBelow(types, t));
    assert Drawn(s.elements[j], LeavesBelow(types, t));
    f :| f in LeavesBelow(types, t) && Reset(s.elements[j]) == Reset(f);
  }

  /** No leaf is dropped: an element has its identifier and its type. */
  lemma LeavesListed(types: MetaTypes, ident: TypeIdent, r: nat, f: ElementMeta)
    requires Finite(types, ident, r) && FlattenComplexType(types, ident).Ok?
    requires !AllLeaves(ContentElements(types, ident)) && f in LeavesBelow(types, ContentOf(types, ident))
    ensures var types' := FlattenComplexType(types, ident).value;
            IsGroupType(types', ContentOf(types, ident)) && Listed(Elements(types', ContentOf(types, ident)), f)
  {
    var t := ContentOf(types, ident);
    var v := types[t].variant;
    var s := Written(types, ident, r);
    LeavesOfContent(types, t);
    ElementsListed(Config(types, MAX_DEPTH, true), KindOf(v), v.group.isMixed, v.group.elements, 0, r, f);
  }

  /** So two leaves of one identifier and different types are an error, unless the identifier is repeated afterwards. */
  lemma MismatchReported(types: MetaTypes, ident: TypeIdent, r: nat, f: ElementMeta, g: ElementMeta)
    requires Finite(types, ident, r) && !AllLeaves(ContentElements(types, ident))
    requires f in LeavesBelow(types, ContentOf(types, ident)) && g in LeavesBelow(types, ContentOf(types, ident))
    requires f.ident == g.ident && !Alike(f.variant, g.variant)
    ensures FlattenComplexType(types, ident).Err? ||
              !NoRepeat(IdentsOf(Elements(FlattenComplexType(types, ident).value, ContentOf(types, ident))))
  {
    if FlattenComplexType(types, ident).Ok? {
      LeavesListed(types, ident, r, f);
      LeavesListed(types, ident, r, g);
      var es := Elements(FlattenComplexType(types, ident).value, ContentOf(types, ident));
      var i :| 0 <= i < |es| && StandsFor(es[i], f);
      var j :| 0 <= j < |es| && StandsFor(es[j], g);
      IdentAt(es, i);
      IdentAt(es, j);
    }
  }

  /** A flattened content is mixed exactly if one of the groups below was. */
  lemma MixedIff(types: MetaTypes, ident: TypeIdent, r: nat)
    requires Finite(types, ident, r) && FlattenComplexType(types, ident).Ok?
    requires !AllLeaves(ContentElements(types, ident))
    ensures var types' := FlattenComplexType(types, ident).value;
            IsMixedGroup(types', ContentOf(types, ident)) <==> MixedBelow(types, ContentOf(types, ident))
  {
    var t := ContentOf(types, ident);
    var v := types[t].variant;
    var s := Written(types, ident, r);
    ElementsMixed(Config(types, MAX_DEPTH, true), KindOf(v), v.group.isMixed, v.group.elements, 0, r);
    MixedUnfold(types, t);
  }

  /** Groups whose leaves agree are flattened without an error. */
  lemma ConsistentFlattens(types: MetaTypes, ident: TypeIdent, r: nat)
    requires Finite(types, ident, r) && Consistent(LeavesBelow(types, ContentOf(types, ident)))
    ensures FlattenComplexType(types, ident).Ok?
  {
    var t := ContentOf(types, ident);
    var v := types[t].variant;
    LeavesOfContent(types, t);
    ElementsDrawn(Config(types, MAX_DEPTH, true), KindOf(v), v.group.isMixed, v.group.elements, 0, r, LeavesBelow(types, t));
  }
}
