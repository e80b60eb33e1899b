/**
  Trait inheritance of dynamic types (`TraitInfos` in `generator/state.rs`).
  Every type knows the dynamic types it was derived from; the traits it has to
  name directly are those that no other trait already brings along.
 */
module TraitInfos {
  import opened Wrappers
  import opened Meta
  import opened Relations

  // ---------- Transitive reduction

  /** The edges that no longer path replaces. */
  ghost predicate IsReduction(all: Relation, direct: Relation) {
    forall x, y :: Edge(direct, x, y) <==> Edge(all, x, y) && !ReachesAfter(all, x, y, 2)
  }

  /** Whatever is reached at all is reached over direct edges. */
  lemma {:induction false} DirectReaches(all: Relation, direct: Relation, x: TypeIdent, y: TypeIdent)
    requires Acyclic(all) && IsReduction(all, direct) && ReachesAfter(all, x, y, 1)
    ensures ReachesAfter(direct, x, y, 1)
    decreases |Above(all, x)| - |Above(all, y)|
  {
    AboveSizes(all, x, y);
    if ReachesAfter(all, x, y, 2) {
      var n: nat :| n >= 2 && Steps(all, x, y, n);
      var z :| Edge(all, x, z) && Steps(all, z, y, n - 1);
      EdgeReaches(all, x, z);
      assert ReachesAfter(all, z, y, 1);
      AboveSizes(all, x, z);
      AboveSizes(all, z, y);
      DirectReaches(all, direct, x, z);
      DirectReaches(all, direct, z, y);
      ReachesJoin(direct, x, z, y, 1, 1);
      var m: nat :| m >= 2 && Steps(direct, x, y, m);
    } else {
      var n: nat :| n >= 1 && Steps(all, x, y, n);
      assert n == 1;
      assert Edge(all, x, y);
      EdgeReaches(direct, x, y);
    }
  }

  lemma AboveSizes(r: Relation, x: TypeIdent, y: TypeIdent)
    requires Acyclic(r) && ReachesAfter(r, x, y, 1)
    ensures |Above(r, y)| < |Above(r, x)|
  {
    AboveShrinks(r, x, y);
    SmallerSet(Above(r, y), Above(r, x));
  }

  /** The direct traits bring along exactly the traits there are. */
  lemma SameReachability(all: Relation, direct: Relation, x: TypeIdent, y: TypeIdent)
    requires Acyclic(all) && IsReduction(all, direct)
    ensures Reaches(direct, x, y) <==> Reaches(all, x, y)
  {
    if n: nat :| Steps(direct, x, y, n) {
      SubRelationSteps(direct, all, x, y, n);
    }
    if n: nat :| Steps(all, x, y, n) {
      if n == 0 {
        assert Steps(direct, x, y, 0);
      } else {
        DirectReaches(all, direct, x, y);
      }
    }
  }

  /** No direct trait can be left out by any relation with the same reachability. */
  lemma DirectIsMinimal(all: Relation, direct: Relation, other: Relation, x: TypeIdent, y: TypeIdent)
    requires Acyclic(all) && IsReduction(all, direct)
    requires forall a, b :: Reaches(other, a, b) <==> Reaches(all, a, b)
    requires Edge(direct, x, y)
    ensures Edge(other, x, y)
  {
    EdgeReaches(all, x, y);
    assert Reaches(other, x, y);
    var n: nat :| Steps(other, x, y, n);
    FirstNewStep(all, direct, other, x, y, n);
  }

  /** The same, from a path of known length; steps on the spot are skipped. */
  lemma {:induction false} FirstNewStep(all: Relation, direct: Relation, other: Relation, x: TypeIdent, y: TypeIdent, n: nat)
    requires Acyclic(all) && IsReduction(all, direct)
    requires forall a, b :: Reaches(other, a, b) <==> Reaches(all, a, b)
    requires Edge(direct, x, y) && Steps(other, x, y, n)
    ensures Edge(other, x, y)
    decreases n
  {
    EdgeReaches(all, x, y);
    assert !ReachesAfter(all, x, x, 1);
    assert n != 0;
    var z :| Edge(other, x, z) && Steps(other, z, y, n - 1);
    EdgeReaches(other, x, z);
    assert Reaches(all, x, z) && Reaches(all, z, y);
    if x == z {
      FirstNewStep(all, direct, other, x, y, n - 1);
    } else if z != y {
      Apart(all, x, z);
      Apart(all, z, y);
      ReachesJoin(all, x, z, y, 1, 1);
    }
  }

  // ---------- The traits of a type

  /** The `i`-th derived type of the dynamic type `base` gives the trait to `x`. */
  predicate GivesTrait(types: MetaTypes, base: TypeIdent, i: nat, x: TypeIdent) {
    && base in types && types[base].variant.Dynamic? && i < |types[base].variant.dynamic_.derivedTypes|
    && var derived := types[base].variant.dynamic_.derivedTypes[i].type_;
       derived == x || BehindDynamic(types, derived) == Some(x)
  }

  /** The type a dynamic type stands for. */
  function BehindDynamic(types: MetaTypes, ident: TypeIdent): Option<TypeIdent> {
    if ident in types && types[ident].variant.Dynamic? then types[ident].variant.dynamic_.type_ else None
  }

  ghost predicate HasTrait(types: MetaTypes, x: TypeIdent, base: TypeIdent) {
    exists i: nat :: GivesTrait(types, base, i, x)
  }

  ghost predicate GivesTraitBefore(types: MetaTypes, base: TypeIdent, n: nat, x: TypeIdent) {
    exists i: nat :: i < n && GivesTrait(types, base, i, x)
  }

  /** Exactly the traits of the types. */
  ghost predicate IsTraitRelation(types: MetaTypes, r: Relation) {
    && (forall x, base :: Edge(r, x, base) <==> HasTrait(types, x, base))
    && (forall x | x in r :: r[x] != {})
  }

  lemma OneTraitRelation(types: MetaTypes, r: Relation, q: Relation)
    requires IsTraitRelation(types, r) && IsTraitRelation(types, q)
    ensures r == q
  {
    forall x, y
      ensures Edge(r, x, y) <==> Edge(q, x, y)
    {
    }
    forall x
      ensures x in r <==> x in q
    {
      if x in r {
        var y :| y in r[x];
        assert Edge(r, x, y);
        assert Edge(q, x, y);
      }
      if x in q {
        var y :| y in q[x];
        assert Edge(q, x, y);
        assert Edge(r, x, y);
      }
    }
    forall x | x in r
      ensures r[x] == q[x]
    {
      forall y
        ensures y in r[x] <==> y in q[x]
      {
        assert Edge(r, x, y) <==> Edge(q, x, y);
      }
    }
  }

  /** The types that have a trait at all. */
  ghost function Derived(types: MetaTypes): set<TypeIdent> {
    (set base, i | base in types && types[base].variant.Dynamic? && 0 <= i < |types[base].variant.dynamic_.derivedTypes|
       :: types[base].variant.dynamic_.derivedTypes[i].type_)
    + (set ident | ident in types && BehindDynamic(types, ident).Some? :: BehindDynamic(types, ident).value)
  }

  ghost function TraitRelation(types: MetaTypes): Relation {
    map x | x in Derived(types) && exists base :: HasTrait(types, x, base) :: set base | base in types && HasTrait(types, x, base)
  }

  lemma TraitRelationExact(types: MetaTypes)
    ensures IsTraitRelation(types, TraitRelation(types))
  {
    var r := TraitRelation(types);
    forall x, base
      ensures Edge(r, x, base) <==> HasTrait(types, x, base)
    {
      if i: nat :| GivesTrait(types, base, i, x) {
        var derived := types[base].variant.dynamic_.derivedTypes[i].type_;
        assert x in Derived(types);
      }
    }
    forall x | x in r
      ensures r[x] != {}
    {
      var base :| HasTrait(types, x, base);
      assert base in r[x];
    }
  }

  /** `d` is the `k`-th derived type of the dynamic type `base`. */
  predicate Derives(types: MetaTypes, base: TypeIdent, k: nat, d: TypeIdent) {
    && base in types && types[base].variant.Dynamic? && k < |types[base].variant.dynamic_.derivedTypes|
    && types[base].variant.dynamic_.derivedTypes[k].type_ == d
  }

  /** `d` is a dynamic type and stands for `t`. */
  predicate StandsFor(types: MetaTypes, d: TypeIdent, t: TypeIdent) {
    d in types && types[d].variant.Dynamic? && types[d].variant.dynamic_.type_ == Some(t)
  }

  /** A derived type has its base as a trait, and so has the type a derived dynamic type stands for; there are no others. */
  lemma TraitEdges(types: MetaTypes)
    ensures forall base, k: nat, d | Derives(types, base, k, d) :: Edge(TraitRelation(types), d, base)
    ensures forall base, k: nat, d, t | Derives(types, base, k, d) && StandsFor(types, d, t) :: Edge(TraitRelation(types), t, base)
    ensures forall x, base | Edge(TraitRelation(types), x, base) ::
              exists k: nat, d :: Derives(types, base, k, d) && (d == x || StandsFor(types, d, x))
  {
    TraitRelationExact(types);
    forall base, k: nat, d | Derives(types, base, k, d)
      ensures Edge(TraitRelation(types), d, base)
    {
      assert GivesTrait(types, base, k, d);
    }
    forall base, k: nat, d, t | Derives(types, base, k, d) && StandsFor(types, d, t)
      ensures Edge(TraitRelation(types), t, base)
    {
      assert GivesTrait(types, base, k, t);
    }
    forall x, base | Edge(TraitRelation(types), x, base)
      ensures exists k: nat, d :: Derives(types, base, k, d) && (d == x || StandsFor(types, d, x))
    {
      var k: nat :| GivesTrait(types, base, k, x);
      var d := types[base].variant.dynamic_.derivedTypes[k].type_;
      assert Derives(types, base, k, d);
    }
  }

  datatype TraitInfo = TraitInfo(traitsAll: set<TypeIdent>, traitsDirect: set<TypeIdent>)

  type Infos = map<TypeIdent, TraitInfo>

  function TraitsAll(infos: Infos): Relation {
    map x | x in infos :: infos[x].traitsAll
  }

  function TraitsDirect(infos: Infos): Relation {
    map x | x in infos :: infos[x].traitsDirect
  }

  function InsertTrait(infos: Infos, x: TypeIdent, base: TypeIdent): (r: Infos)
    ensures forall a, b :: Edge(TraitsAll(r), a, b) <==> Edge(TraitsAll(infos), a, b) || (a == x && b == base)
    ensures forall a | a in r :: a in infos || a == x
    ensures x in r && forall a | a in infos :: a in r && infos[a].traitsAll <= r[a].traitsAll
  {
    var info := if x in infos then infos[x] else TraitInfo({}, {});
    infos[x := info.(traitsAll := info.traitsAll + {base})]
  }

  /** `z` is met at a total depth above one when collecting from `x`. */
  ghost predicate Deep(r: Relation, x: TypeIdent, z: TypeIdent, depth: nat) {
    exists n: nat :: Steps(r, x, z, n) && depth + n > 1
  }

  lemma DeepUnfolds(r: Relation, x: TypeIdent, z: TypeIdent, depth: nat)
    ensures Deep(r, x, z, depth) <==> (depth > 1 && z == x) || exists t :: Edge(r, x, t) && Deep(r, t, z, depth + 1)
  {
    if n: nat :| Steps(r, x, z, n) && depth + n > 1 {
      if n > 0 {
        var t :| Edge(r, x, t) && Steps(r, t, z, n - 1);
        assert Deep(r, t, z, depth + 1);
      }
    }
    if depth > 1 && z == x {
      assert Steps(r, x, z, 0);
    }
    if t :| Edge(r, x, t) && Deep(r, t, z, depth + 1) {
      var n: nat :| Steps(r, t, z, n) && depth + 1 + n > 1;
      assert Steps(r, x, z, n + 1);
    }
  }

  class TraitInfos {
    var infos: Infos

    /** Collects all traits of all types, then reduces them to the direct ones. */
    constructor (types: MetaTypes)
      requires Acyclic(TraitRelation(types))
      ensures TraitsAll(infos) == TraitRelation(types)
      ensures IsReduction(TraitsAll(infos), TraitsDirect(infos))
    {
      infos := map[];
      new;
      var todo := types.Keys;
      ghost var done: set<TypeIdent> := {};
      while todo != {}
        invariant todo + done == types.Keys
        invariant forall x, base :: Edge(TraitsAll(infos), x, base) <==> base in done && HasTrait(types, x, base)
        invariant forall x | x in infos :: infos[x].traitsAll != {}
        decreases todo
      {
        var base :| base in todo;
        CollectDerived(types, base);
        todo, done := todo - {base}, done + {base};
      }
      TraitRelationExact(types);
      OneTraitRelation(types, TraitsAll(infos), TraitRelation(types));
      ReduceAll();
    }

    /** Gives the trait of one dynamic type to its derived types. */
    method CollectDerived(types: MetaTypes, base: TypeIdent)
      requires base in types
      requires forall x | x in infos :: infos[x].traitsAll != {}
      modifies this
      ensures forall x, b :: Edge(TraitsAll(infos), x, b) <==> Edge(old(TraitsAll(infos)), x, b) || (b == base && HasTrait(types, x, base))
      ensures forall x | x in infos :: infos[x].traitsAll != {}
    {
      if !types[base].variant.Dynamic? {
        return;
      }
      var derivedTypes := types[base].variant.dynamic_.derivedTypes;
      for i := 0 to |derivedTypes|
        invariant forall x, b :: Edge(TraitsAll(infos), x, b) <==>
          Edge(old(TraitsAll(infos)), x, b) || (b == base && GivesTraitBefore(types, base, i, x))
        invariant forall x | x in infos :: infos[x].traitsAll != {}
      {
        var derived := derivedTypes[i].type_;
        infos := InsertTrait(infos, derived, base);
        var behind := BehindDynamic(types, derived);
        if behind.Some? {
          infos := InsertTrait(infos, behind.value, base);
        }
        forall x
          ensures GivesTraitBefore(types, base, i + 1, x) <==>
                    GivesTraitBefore(types, base, i, x) || derived == x || behind == Some(x)
        {
          assert GivesTrait(types, base, i, x) <==> derived == x || behind == Some(x);
        }
      }
    }

    method ReduceAll()
      requires Acyclic(TraitsAll(infos))
      modifies this
      ensures TraitsAll(infos) == old(TraitsAll(infos)) && IsReduction(TraitsAll(infos), TraitsDirect(infos))
    {
      var todo := infos.Keys;
      while todo != {}
        invariant todo <= infos.Keys && TraitsAll(infos) == old(TraitsAll(infos))
        invariant forall x, y | x in infos && x !in todo :: y in infos[x].traitsDirect <==> y in infos[x].traitsAll && !ReachesAfter(TraitsAll(infos), x, y, 2)
        decreases todo
      {
        var ident :| ident in todo;
        var secondLevel := CollectTraits(ident, 0, {});
        var info := infos[ident];
        ghost var all := TraitsAll(infos);
        infos := infos[ident := info.(traitsDirect := info.traitsAll - secondLevel)];
        assert TraitsAll(infos) == all;
        assert forall y :: Deep(all, ident, y, 0) <==> ReachesAfter(all, ident, y, 2);
        todo := todo - {ident};
      }
    }

    /** `collect_traits`: adds everything that is met at a depth above one. */
    method CollectTraits(ident: TypeIdent, depth: nat, secondLevel: set<TypeIdent>) returns (r: set<TypeIdent>)
      requires Acyclic(TraitsAll(infos))
      ensures forall z :: z in r <==> z in secondLevel || Deep(TraitsAll(infos), ident, z, depth)
      decreases Above(TraitsAll(infos), ident)
    {
      ghost var all := TraitsAll(infos);
      r := secondLevel;
      if depth > 1 {
        r := r + {ident};
      }
      ghost var done: set<TypeIdent> := {};
      if ident in infos {
        var todo := infos[ident].traitsAll;
        while todo != {}
          invariant todo + done == infos[ident].traitsAll
          invariant forall z :: z in r <==>
            (z in secondLevel || (depth > 1 && z == ident) || exists t :: t in done && Deep(all, t, z, depth + 1))
          decreases todo
        {
          var t :| t in todo;
          assert Edge(all, ident, t);
          EdgeReaches(all, ident, t);
          AboveShrinks(all, ident, t);
          r := CollectTraits(t, depth + 1, r);
          todo, done := todo - {t}, done + {t};
        }
      }
      forall z
        ensures z in r <==> z in secondLevel || Deep(all, ident, z, depth)
      {
        DeepUnfolds(all, ident, z, depth);
        assert forall t :: Edge(all, ident, t) <==> t in done;
      }
    }
  }
}
