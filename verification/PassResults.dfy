/**
  What the passes over all complex types do to each of them: the same as if it
  were the only one, unless the contents of the others are among its groups.
 */
module PassResults {
  import opened Wrappers
  import opened Occurs
  import opened Meta
  import opened GroupGraph
  import opened GroupFrames
  import opened ContentModel
  import opened Flatten
  import opened FlattenWords
  import opened FlattenTheorems
  import opened FlattenBounds
  import opened ChoiceCardinality
  import FlattenPass
  import ChoicePass

  function Unlimited(types: MetaTypes): Config {
    Config(types, MAX_DEPTH, true)
  }

  /** Flattening depends on the groups below only. */
  lemma {:induction false} FrameExec(
    types: MetaTypes, types': MetaTypes, keep: Types, kind: Kind, isMixed: bool, es: seq<ElementMeta>, depth: nat, r: nat)
    requires SameOn(types, types', keep) && Within(es, keep) && Runs(Unlimited(types), es, depth, r)
    ensures ExecElements(Unlimited(types'), kind, isMixed, es, depth) == ExecElements(Unlimited(types), kind, isMixed, es, depth)
    decreases r, |es|
  {
    if es != [] {
      var e := es[|es| - 1];
      FrameExec(types, types', keep, kind, isMixed, es[..|es| - 1], depth, r);
      if e.IsGroup() {
        NestedRuns(Unlimited(types), es, |es| - 1, depth, r);
        SameElements(types, types', keep, e.variant.type_);
        var g := types[e.variant.type_].variant;
        FrameExec(types, types', keep, KindOf(g), g.group.isMixed, g.group.elements, depth + 1, r - 1);
        assert Exec(Unlimited(types'), e.variant.type_, depth + 1) == Exec(Unlimited(types), e.variant.type_, depth + 1);
      }
    }
  }

  /** The type and its content are the same in both. */
  ghost predicate SameResult(types: MetaTypes, types': MetaTypes, ident: TypeIdent, t: TypeIdent) {
    && ident in types && ident in types' && types'[ident] == types[ident]
    && t in types && t in types' && types'[t].variant == types[t].variant
  }

  /** The step for the type itself, after those for others, is the step at the start. */
  lemma SameStep(types: MetaTypes, before: MetaTypes, ident: TypeIdent, r: nat, keep: Types)
    requires Finite(types, ident, r) && keep == Below(types, ContentOf(types, ident), 0)
    requires SameOn(types, before, keep) && ident in before && before[ident] == types[ident]
    ensures Finite(before, ident, r)
    ensures SameResult(FlattenPass.AfterStep(types, ident), FlattenPass.AfterStep(before, ident), ident, ContentOf(types, ident))
  {
    var t := ContentOf(types, ident);
    SelfBelow(types, t);
    SameElements(types, before, keep, t);
    var v := types[t].variant;
    FrameTree(types, before, keep, v.group.elements, r);
    FrameExec(types, before, keep, KindOf(v), v.group.isMixed, v.group.elements, 0, r);
    assert Exec(Unlimited(before), t, 0) == Exec(Unlimited(types), t, 0);
  }

  /** Nesting does not lead out of `keep` after the step either. */
  lemma OwnClosed(types: MetaTypes, before: MetaTypes, ident: TypeIdent, r: nat, keep: Types)
    requires Finite(before, ident, r) && SameOn(types, before, keep)
    ensures ClosedUnder(FlattenPass.AfterStep(before, ident), keep)
    ensures ident in FlattenPass.AfterStep(before, ident) && FlattenPass.AfterStep(before, ident)[ident].variant.ComplexType?
  {
    FlattenPass.StillClosed(types, before, keep);
    if FlattenComplexType(before, ident).Ok? {
      OnlyContentAndBounds(before, ident, r);
      var s := Written(before, ident, r);
      var after := FlattenPass.AfterStep(before, ident);
      forall x | x in keep && IsGroupType(after, x)
        ensures Within(Elements(after, x), keep)
      {
        assert x != ContentOf(before, ident) && x != ident ==> after[x] == before[x];
      }
    }
  }

  /** The whole flattening pass does to each type what flattening it alone does. */
  lemma FlattenAllEach(types: MetaTypes, idents: seq<TypeIdent>, r: nat, ident: TypeIdent)
    requires NoRepeat(idents) && ident in idents && Finite(types, ident, r)
    requires Elsewhere(types, idents, ident, Below(types, ContentOf(types, ident), 0))
    ensures match FlattenComplexType(types, ident)
            case Ok(alone) => SameResult(alone, FlattenAll(types, idents), ident, ContentOf(types, ident))
            case Err(_) => SameResult(types, FlattenAll(types, idents), ident, ContentOf(types, ident))
  {
    var t := ContentOf(types, ident);
    var keep := Below(types, t, 0);
    var p :| 0 <= p < |idents| && idents[p] == ident;
    BelowClosed(types, t, 0);
    SelfBelow(types, t);
    KindsKeptSelf(types);
    var graphs := FlattenPass.PassSteps(types, idents);
    FlattenPass.StepsTrace(graphs, idents);
    StepsElsewhere(types, graphs, idents, 0, p, ident, keep);
    SameStep(types, graphs[p], ident, r, keep);
    OwnClosed(types, graphs[p], ident, r, keep);
    OwnKinds(types, graphs, idents, p);
    StepsElsewhere(types, graphs, idents, p + 1, |idents|, ident, keep);
    StillThere(types, graphs[p], graphs[p + 1], graphs[|idents|], ident, r, keep);
  }

  lemma OwnKinds(types: MetaTypes, graphs: seq<MetaTypes>, idents: seq<TypeIdent>, p: nat)
    requires Trace(graphs, idents) && p < |idents| && KindsKept(types, graphs[p])
    ensures KindsKept(types, graphs[p + 1])
  {
    assert WritesOnly(graphs[p], graphs[p + 1], idents[p]);
    forall x | x in types
      ensures KindKept(types, graphs[p + 1], x)
    {
      assert KindKept(types, graphs[p], x) && KindKept(graphs[p], graphs[p + 1], x);
    }
  }

  lemma StillThere(types: MetaTypes, before: MetaTypes, after: MetaTypes, last: MetaTypes, ident: TypeIdent, r: nat, keep: Types)
    requires Finite(before, ident, r) && HasContent(types, ident) && ContentOf(types, ident) in keep
    requires before[ident] == types[ident] && after == FlattenPass.AfterStep(before, ident)
    requires SameResult(FlattenPass.AfterStep(types, ident), after, ident, ContentOf(types, ident))
    requires SameOn(after, last, keep) && ident in last && last[ident] == after[ident]
    ensures SameResult(FlattenPass.AfterStep(types, ident), last, ident, ContentOf(types, ident))
  {
    var t := ContentOf(types, ident);
    if FlattenComplexType(before, ident).Ok? {
      FlattenPass.StepWrites(before, ident);
    }
    assert IsGroupType(before, t);
    assert SameGroup(after, last, t);
  }

  // ---------- Choices

  /** The whole pass over choices does to each type what merging it alone does. */
  lemma MergeAllEach(types: MetaTypes, idents: seq<TypeIdent>, ident: TypeIdent)
    requires NoRepeat(idents) && ident in idents && MergeAll(types, idents).Ok? && ChoiceContent(types, ident)
    requires Elsewhere(types, idents, ident, Below(types, ContentOf(types, ident), 0))
    ensures MergeCardinality(types, ident).Ok?
    ensures SameResult(MergeCardinality(types, ident).value, MergeAll(types, idents).value, ident, ContentOf(types, ident))
  {
    var t := ContentOf(types, ident);
    var keep := Below(types, t, 0);
    var p :| 0 <= p < |idents| && idents[p] == ident;
    BelowClosed(types, t, 0);
    SelfBelow(types, t);
    KindsKeptSelf(types);
    var graphs := ChoicePass.PassMerges(types, idents);
    ChoicePass.MergesTrace(graphs, idents);
    StepsElsewhere(types, graphs, idents, 0, p, ident, keep);
    assert MergeCardinality(graphs[p], idents[p]) == Ok(graphs[p + 1]);
    SameMerge(types, graphs[p], graphs[p + 1], ident, keep);
    ChoicePass.StillClosed(types, graphs[p], graphs[p + 1], ident, keep);
    OwnKinds(types, graphs, idents, p);
    StepsElsewhere(types, graphs, idents, p + 1, |idents|, ident, keep);
    assert SameGroup(graphs[p + 1], graphs[|idents|], t);
  }

  lemma SameMerge(types: MetaTypes, before: MetaTypes, after: MetaTypes, ident: TypeIdent, keep: Types)
    requires ChoiceContent(types, ident) && keep == Below(types, ContentOf(types, ident), 0)
    requires SameOn(types, before, keep) && ident in before && before[ident] == types[ident]
    requires MergeCardinality(before, ident) == Ok(after)
    ensures MergeCardinality(types, ident).Ok? && IsGroupType(before, ContentOf(types, ident))
    ensures SameResult(MergeCardinality(types, ident).value, after, ident, ContentOf(types, ident))
    ensures after[ident].variant.ComplexType? && IsGroupType(after, ContentOf(types, ident))
  {
    SelfBelow(types, ContentOf(types, ident));
    SameElements(types, before, keep, ContentOf(types, ident));
  }
}
