/**
  Merging the cardinality of all choices (`merge_choice_cardinalities`): when
  the pass goes through at all, and what it keeps.
 */
module ChoicePass {
  import opened Wrappers
  import opened Occurs
  import opened Meta
  import opened ContentModel
  import opened Flatten
  import opened FlattenWords
  import opened FlattenTheorems
  import opened GroupGraph
  import opened GroupFrames
  import opened ChoiceCardinality
  import opened Samples
  import Relations
  import TypeGraph

  /** The content is a choice itself, not just a reference to one. */
  predicate DirectChoice(types: MetaTypes, ident: TypeIdent) {
    HasContent(types, ident) && ContentOf(types, ident) in types && types[ContentOf(types, ident)].variant.Choice?
  }

  /** Merging changes neither the kind nor the content of any type. */
  lemma MergeKeepsKinds(types: MetaTypes, ident: TypeIdent, x: TypeIdent)
    ensures MergeCardinality(types, ident).Ok? <==> DirectChoice(types, ident)
    ensures MergeCardinality(types, ident).Ok? ==> (DirectChoice(MergeCardinality(types, ident).value, x) <==> DirectChoice(types, x))
  {
  }

  lemma {:induction false} MergeAllKeepsKinds(types: MetaTypes, idents: seq<TypeIdent>, x: TypeIdent)
    ensures MergeAll(types, idents).Ok? ==> (DirectChoice(MergeAll(types, idents).value, x) <==> DirectChoice(types, x))
    decreases |idents|
  {
    if idents != [] {
      var n := |idents| - 1;
      MergeAllKeepsKinds(types, idents[..n], x);
      if MergeAll(types, idents[..n]).Ok? {
        MergeKeepsKinds(MergeAll(types, idents[..n]).value, idents[n], x);
      }
    }
  }

  /** The pass goes through exactly if no choice it lists is hidden behind a reference. */
  lemma {:induction false} PassSucceeds(types: MetaTypes, idents: seq<TypeIdent>)
    ensures MergeAll(types, idents).Ok? <==> forall x | x in idents :: DirectChoice(types, x)
    decreases |idents|
  {
    if idents != [] {
      var n := |idents| - 1;
      PassSucceeds(types, idents[..n]);
      assert forall x :: x in idents <==> x in idents[..n] || x == idents[n];
      MergeAllKeepsKinds(types, idents[..n], idents[n]);
      if MergeAll(types, idents[..n]).Ok? {
        MergeKeepsKinds(MergeAll(types, idents[..n]).value, idents[n], idents[n]);
      }
    }
  }

  /** A complex type whose content is a simple reference to a choice. */
  function HiddenChoice(): MetaTypes {
    map[
      Id("main") := Complex(Id("alias")),
      Id("alias") := MetaType.New(Reference(ReferenceMeta.New(Id("choice")))),
      Id("choice") := MetaType.New(Choice(GroupMeta(false, [])))
    ]
  }

  /** Such a type is listed, and stops the pass. */
  lemma HiddenChoiceStopsPass()
    ensures TypeGraph.HasComplexChoiceContent(HiddenChoice(), Id("main"))
    ensures MergeAll(HiddenChoice(), [Id("main")]) == Err(ExpectedComplexChoice(Id("main")))
  {
    var types := HiddenChoice();
    assert "main" != "alias" && "alias" != "choice" && "main" != "choice" by {
      assert "main"[0] != "alias"[0] && "alias"[0] != "choice"[0] && "main"[0] != "choice"[0];
    }
    assert TypeGraph.IsSimpleRef(types, Id("alias"));
    assert TypeGraph.GetResolvedImpl(types, Id("choice"), [] + [Id("alias")]) == Some(Id("choice"));
    assert [Id("main")][..0] == [];
    assert MergeAll(types, []) == Ok(types);
  }

  // ---------- Words

  /** The merge condition of one complex type. */
  ghost predicate Mergeable(types: MetaTypes, ident: TypeIdent)
    requires DirectChoice(types, ident)
  {
    OneRepetition(types[ContentOf(types, ident)].variant.group.elements, types[ident].variant.complex)
  }

  lemma MergeWrites(types: MetaTypes, j: TypeIdent)
    requires MergeCardinality(types, j).Ok?
    ensures WritesOnly(types, MergeCardinality(types, j).value, j)
  {
    var types' := MergeCardinality(types, j).value;
    forall x | x in types
      ensures KindKept(types, types', x)
    {
    }
  }

  ghost predicate Merges(graphs: seq<MetaTypes>, idents: seq<TypeIdent>) {
    && |graphs| == |idents| + 1
    && forall k | 0 <= k < |idents| :: MergeCardinality(graphs[k], idents[k]) == Ok(graphs[k + 1])
  }

  lemma MergesSnoc(graphs: seq<MetaTypes>, idents: seq<TypeIdent>, types: MetaTypes)
    requires idents != [] && Merges(graphs, idents[..|idents| - 1])
    requires MergeCardinality(graphs[|idents| - 1], idents[|idents| - 1]) == Ok(types)
    ensures Merges(graphs + [types], idents)
  {
  }

  lemma MergeAllLast(types: MetaTypes, idents: seq<TypeIdent>)
    requires idents != [] && MergeAll(types, idents).Ok?
    ensures var before := MergeAll(types, idents[..|idents| - 1]);
            before.Ok? && MergeCardinality(before.value, idents[|idents| - 1]) == MergeAll(types, idents)
  {
  }

  lemma {:induction false} PassMerges(types: MetaTypes, idents: seq<TypeIdent>) returns (graphs: seq<MetaTypes>)
    requires MergeAll(types, idents).Ok?
    ensures Merges(graphs, idents) && graphs[0] == types && MergeAll(types, idents) == Ok(graphs[|idents|])
    decreases |idents|
  {
    if idents == [] {
      graphs := [types];
    } else {
      MergeAllLast(types, idents);
      var before := PassMerges(types, idents[..|idents| - 1]);
      var last := MergeAll(types, idents).value;
      MergesSnoc(before, idents, last);
      graphs := before + [last];
    }
  }

  lemma MergesTrace(graphs: seq<MetaTypes>, idents: seq<TypeIdent>)
    requires Merges(graphs, idents)
    ensures Trace(graphs, idents)
  {
    forall k | 0 <= k < |idents|
      ensures WritesOnly(graphs[k], graphs[k + 1], idents[k])
    {
      assert MergeCardinality(graphs[k], idents[k]) == Ok(graphs[k + 1]);
      MergeWrites(graphs[k], idents[k]);
    }
  }

  /**
    A whole pass that goes through loses no word of a type that meets the merge
    condition at the start, if the contents of the other types are not among
    the groups below its own content.
   */
  lemma MergeAllLosesNoWord(types: MetaTypes, idents: seq<TypeIdent>, ident: TypeIdent, w: Word)
    requires NoRepeat(idents) && ident in idents && MergeAll(types, idents).Ok?
    requires ChoiceContent(types, ident) && Mergeable(types, ident)
    requires Elsewhere(types, idents, ident, Below(types, ContentOf(types, ident), 0))
    requires ComplexAccepts(types, ident, w)
    ensures ComplexAccepts(MergeAll(types, idents).value, ident, w)
  {
    var t := ContentOf(types, ident);
    var keep := Below(types, t, 0);
    var p :| 0 <= p < |idents| && idents[p] == ident;
    BelowClosed(types, t, 0);
    SelfBelow(types, t);
    KindsKeptSelf(types);
    var graphs := PassMerges(types, idents);
    MergesTrace(graphs, idents);
    StepsElsewhere(types, graphs, idents, 0, p, ident, keep);
    FrameComplex(types, graphs[p], keep, ident);
    MergeOwn(types, graphs[p], ident, keep, w);
    StepsElsewhere(types, graphs, idents, p + 1, |idents|, ident, keep);
    FrameComplex(graphs[p + 1], graphs[|idents|], keep, ident);
  }

  /** The merge for the type itself, after those for others. */
  lemma MergeOwn(types: MetaTypes, before: MetaTypes, ident: TypeIdent, keep: Types, w: Word)
    requires ChoiceContent(types, ident) && Mergeable(types, ident)
    requires keep == Below(types, ContentOf(types, ident), 0)
    requires KindsKept(types, before) && SameOn(types, before, keep) && ident in before && before[ident] == types[ident]
    requires ComplexAccepts(before, ident, w)
    ensures MergeCardinality(before, ident).Ok?
    ensures var mid := MergeCardinality(before, ident).value;
            && KindsKept(types, mid) && ClosedUnder(mid, keep) && ident in mid && mid[ident].variant.ComplexType?
            && HasContent(mid, ident) && ContentOf(mid, ident) in keep && ComplexAccepts(mid, ident, w)
  {
    var t := ContentOf(types, ident);
    SelfBelow(types, t);
    SameElements(types, before, keep, t);
    StillChoice(types, before, ident, keep);
    var mid := MergeCardinality(before, ident).value;
    MergeWrites(before, ident);
    forall x | x in types
      ensures KindKept(types, mid, x)
    {
      assert KindKept(types, before, x) && KindKept(before, mid, x);
    }
    MergeLosesNoWord(before, ident, w);
    StillClosed(types, before, mid, ident, keep);
  }

  lemma StillClosed(types: MetaTypes, before: MetaTypes, mid: MetaTypes, ident: TypeIdent, keep: Types)
    requires HasContent(before, ident) && IsGroupType(before, ContentOf(before, ident))
    requires MergeCardinality(before, ident) == Ok(mid) && SameOn(types, before, keep)
    ensures ClosedUnder(mid, keep)
  {
    forall x | x in keep && IsGroupType(mid, x)
      ensures Within(Elements(mid, x), keep)
    {
      assert IsGroupType(before, x);
      SameElements(types, before, keep, x) by {
        assert SameGroup(types, before, x);
      }
      var es, es' := Elements(before, x), Elements(mid, x);
      assert |es'| == |es| && forall i | 0 <= i < |es| :: es'[i].variant == es[i].variant;
    }
  }

  /** What lies below the choice is the same before its own merge. */
  lemma StillChoice(types: MetaTypes, before: MetaTypes, ident: TypeIdent, keep: Types)
    requires ChoiceContent(types, ident) && keep == Below(types, ContentOf(types, ident), 0)
    requires SameOn(types, before, keep) && ident in before && before[ident] == types[ident]
    ensures ChoiceContent(before, ident)
  {
    var t := ContentOf(types, ident);
    SelfBelow(types, t);
    SameElements(types, before, keep, t);
    if t in Below(before, t, 1) {
      var n: nat :| n >= 1 && Relations.Steps(NestGraph(before), t, t, n);
      SameSteps(types, before, t, t, t, n, 0);
    }
  }

  /** Nesting below `t` leads to the same groups in both. */
  lemma {:induction false} SameSteps(
    types: MetaTypes, before: MetaTypes, t: TypeIdent, x: TypeIdent, y: TypeIdent, n: nat, m: nat)
    requires SameOn(types, before, Below(types, t, 0))
    requires Relations.Steps(NestGraph(types), t, x, m) && Relations.Steps(NestGraph(before), x, y, n)
    ensures Relations.Steps(NestGraph(types), x, y, n)
    decreases n
  {
    if n > 0 {
      var z :| Relations.Edge(NestGraph(before), x, z) && Relations.Steps(NestGraph(before), z, y, n - 1);
      assert x in Below(types, t, 0);
      assert SameGroup(types, before, x);
      assert Relations.Edge(NestGraph(types), x, z);
      assert Relations.Steps(NestGraph(types), z, z, 0);
      assert Relations.Steps(NestGraph(types), x, z, 1);
      Relations.StepsJoin(NestGraph(types), t, x, z, m, 1);
      SameSteps(types, before, t, z, y, n - 1, m + 1);
    }
  }
}
