/** Flattening nested unions (`flatten_unions.rs`). */
module FlattenUnions {
  import opened Wrappers
  import opened Meta
  import opened Relations
  import opened TypeGraph
  import opened Unions

  /** A union of the leaves; only the base of the union is kept. */
  ghost function FlatUnion(types: MetaTypes, i: TypeIdent): MetaTypeVariant
    requires AcyclicBelow(types, i) && IsUnion(types, i)
  {
    Union(UnionMeta(types[i].variant.union_.base, Leaves(types, i, None), []))
  }

  ghost predicate Nested(types: MetaTypes, i: TypeIdent)
    requires AcyclicBelow(types, i)
  {
    IsUnion(types, i) && UnionCount(types, i) > 1
  }

  /** Unions are counted exactly if one is met. */
  lemma {:induction false} CountedIff(types: MetaTypes, i: TypeIdent)
    requires AcyclicBelow(types, i)
    ensures UnionCount(types, i) > 0 <==> exists j :: IsUnion(types, j) && Reaches(UnionGraph(types), i, j)
    decreases Above(UnionGraph(types), i), 1, 0
  {
    ReachesSelf(UnionGraph(types), i);
    if IsSimpleRef(types, i) {
      var t := Target(types, i);
      Down(types, i, t);
      CountedIff(types, t);
      if j :| IsUnion(types, j) && Reaches(UnionGraph(types), i, j) {
        OnlyTarget(types, i, j);
      }
      if j :| IsUnion(types, j) && Reaches(UnionGraph(types), t, j) {
        EdgeThenReaches(UnionGraph(types), i, t, j);
      }
    } else if !IsUnion(types, i) {
      assert forall z :: !Edge(UnionGraph(types), i, z);
      forall j, n: nat
        ensures Steps(UnionGraph(types), i, j, n) ==> i == j
      {
      }
    }
  }

  lemma OnlyTarget(types: MetaTypes, i: TypeIdent, j: TypeIdent)
    requires IsSimpleRef(types, i) && IsUnion(types, j) && Reaches(UnionGraph(types), i, j)
    ensures Reaches(UnionGraph(types), Target(types, i), j)
  {
    var n: nat :| Steps(UnionGraph(types), i, j, n);
    var z :| Edge(UnionGraph(types), i, z) && Steps(UnionGraph(types), z, j, n - 1);
  }

  /** The same for the first `n` members of a union. */
  lemma {:induction false} CountedOfIff(types: MetaTypes, i: TypeIdent, n: nat)
    requires AcyclicBelow(types, i) && IsUnion(types, i) && n <= |Members(types, i)|
    ensures UnionCountOf(types, i, n) > 0 <==>
              exists j, k :: 0 <= k < n && IsUnion(types, j) && Reaches(UnionGraph(types), Members(types, i)[k].type_, j)
    decreases n
  {
    if n > 0 {
      DownMember(types, i, n - 1);
      CountedOfIff(types, i, n - 1);
      CountedIff(types, Members(types, i)[n - 1].type_);
    }
  }

  /** A union is nested exactly if another union is reached from it. */
  lemma NestedIff(types: MetaTypes, i: TypeIdent)
    requires AcyclicBelow(types, i)
    ensures Nested(types, i) <==> IsUnion(types, i) && exists j :: IsUnion(types, j) && ReachesAfter(UnionGraph(types), i, j, 1)
  {
    if IsUnion(types, i) {
      var n := |Members(types, i)|;
      CountedOfIff(types, i, n);
      if j, k :| 0 <= k < n && IsUnion(types, j) && Reaches(UnionGraph(types), Members(types, i)[k].type_, j) {
        DownMember(types, i, k);
        EdgeReaches(UnionGraph(types), i, Members(types, i)[k].type_);
        var m: nat :| Steps(UnionGraph(types), Members(types, i)[k].type_, j, m);
        assert Steps(UnionGraph(types), i, j, m + 1);
      }
      if j :| IsUnion(types, j) && ReachesAfter(UnionGraph(types), i, j, 1) {
        var m: nat :| m >= 1 && Steps(UnionGraph(types), i, j, m);
        var z :| Edge(UnionGraph(types), i, z) && Steps(UnionGraph(types), z, j, m - 1);
        MemberTypesExact(Members(types, i), z);
        var t :| t in Members(types, i) && t.type_ == z;
        var k :| 0 <= k < n && Members(types, i)[k] == t;
        assert Reaches(UnionGraph(types), z, j);
      }
    }
  }

  /** All types after flattening: exactly the nested unions are replaced. */
  ghost function Flattened(types: MetaTypes): MetaTypes
    requires AcyclicUnions(types)
  {
    map i | i in types :: if Nested(types, i) then types[i].(variant := FlatUnion(types, i)) else types[i]
  }

  /** Some of the unions are flattened already, no matter which. */
  ghost predicate PartlyFlattened(old_: MetaTypes, cur: MetaTypes)
    requires AcyclicUnions(old_)
  {
    && cur.Keys == old_.Keys
    && forall i | i in old_ :: cur[i] == old_[i] || (IsUnion(old_, i) && cur[i] == old_[i].(variant := FlatUnion(old_, i)))
  }

  lemma PartlyIsRewritten(old_: MetaTypes, cur: MetaTypes)
    requires AcyclicUnions(old_) && PartlyFlattened(old_, cur)
    ensures Rewritten(old_, cur) && AcyclicUnions(cur)
  {
    RewrittenAcyclic(old_, cur);
  }

  /** A flattened union consists of leaves, in the current types as well. */
  lemma FlatMembers(old_: MetaTypes, cur: MetaTypes, i: TypeIdent)
    requires AcyclicUnions(old_) && PartlyFlattened(old_, cur)
    requires IsUnion(old_, i) && cur[i] == old_[i].(variant := FlatUnion(old_, i))
    ensures forall t | t in Members(cur, i) :: IsLeaf(cur, t.type_)
  {
    forall t | t in Members(cur, i)
      ensures IsLeaf(cur, t.type_)
    {
      LeafBelow(old_, i, None, t);
    }
  }

  /** Flattening one union changes the leaves of none. */
  lemma {:induction false} LeavesKept(old_: MetaTypes, cur: MetaTypes, i: TypeIdent, displayName: Option<string>)
    requires AcyclicUnions(old_) && AcyclicUnions(cur) && PartlyFlattened(old_, cur)
    ensures Leaves(cur, i, displayName) == Leaves(old_, i, displayName)
    ensures UnionCount(cur, i) > 0 <==> UnionCount(old_, i) > 0
    decreases Above(UnionGraph(old_), i), 1, 0
  {
    if i in old_ {
      if cur[i] != old_[i] {
        FlatMembers(old_, cur, i);
        OnlyLeaves(cur, i, |Members(cur, i)|);
      } else if IsUnion(old_, i) {
        LeavesOfKept(old_, cur, i, |Members(old_, i)|);
      } else if IsSimpleRef(old_, i) {
        Down(old_, i, Target(old_, i));
        LeavesKept(old_, cur, Target(old_, i), displayName);
      }
    }
  }

  lemma {:induction false} LeavesOfKept(old_: MetaTypes, cur: MetaTypes, i: TypeIdent, n: nat)
    requires AcyclicUnions(old_) && AcyclicUnions(cur) && PartlyFlattened(old_, cur)
    requires IsUnion(old_, i) && cur[i] == old_[i] && n <= |Members(old_, i)|
    ensures LeavesOf(cur, i, n) == LeavesOf(old_, i, n)
    ensures UnionCountOf(cur, i, n) > 0 <==> UnionCountOf(old_, i, n) > 0
    decreases Above(UnionGraph(old_), i), 0, n
  {
    if n > 0 {
      var t := Members(old_, i)[n - 1];
      DownMember(old_, i, n - 1);
      LeavesOfKept(old_, cur, i, n - 1);
      LeavesKept(old_, cur, t.type_, t.displayName);
    }
  }

  // ---------- The whole pass

  lemma FlattenedIsPartly(types: MetaTypes)
    requires AcyclicUnions(types)
    ensures PartlyFlattened(types, Flattened(types)) && AcyclicUnions(Flattened(types))
  {
    PartlyIsRewritten(types, Flattened(types));
  }

  /** Flattening keeps the ordered leaves of every type, with their display names. */
  lemma FlatteningKeepsLeaves(types: MetaTypes, i: TypeIdent, displayName: Option<string>)
    requires AcyclicUnions(types)
    ensures AcyclicUnions(Flattened(types))
    ensures Leaves(Flattened(types), i, displayName) == Leaves(types, i, displayName)
  {
    FlattenedIsPartly(types);
    LeavesKept(types, Flattened(types), i, displayName);
  }

  /** Afterwards no union is nested, and those that were have only leaves as members. */
  lemma NothingNested(types: MetaTypes, i: TypeIdent)
    requires AcyclicUnions(types)
    ensures AcyclicUnions(Flattened(types))
    ensures !Nested(Flattened(types), i)
    ensures Nested(types, i) ==> forall t | t in Members(Flattened(types), i) :: IsLeaf(Flattened(types), t.type_)
  {
    var flat := Flattened(types);
    FlattenedIsPartly(types);
    if Nested(types, i) {
      FlatMembers(types, flat, i);
      OnlyLeaves(flat, i, |Members(flat, i)|);
    } else if IsUnion(types, i) {
      LeavesOfKept(types, flat, i, |Members(types, i)|);
    }
  }

  lemma FlatteningIsIdempotent(types: MetaTypes)
    requires AcyclicUnions(types)
    ensures AcyclicUnions(Flattened(types)) && Flattened(Flattened(types)) == Flattened(types)
  {
    FlattenedIsPartly(types);
    forall i
      ensures !Nested(Flattened(types), i)
    {
      NothingNested(types, i);
    }
  }

  /** A union from which another one is reached becomes the union of its leaves; everything else stays as it is. */
  lemma FlattenedExactly(types: MetaTypes, i: TypeIdent)
    requires AcyclicUnions(types) && i in types
    ensures i in Flattened(types)
    ensures if IsUnion(types, i) && exists j :: IsUnion(types, j) && ReachesAfter(UnionGraph(types), i, j, 1) then
              Flattened(types)[i] == types[i].(variant := Union(UnionMeta(types[i].variant.union_.base, Leaves(types, i, None), [])))
            else Flattened(types)[i] == types[i]
  {
    NestedIff(types, i);
  }

  // ---------- The optimizer

  /** What is collected for one union. */
  class FlattenUnionInfo {
    var count: nat
    var meta: UnionMeta

    constructor ()
      ensures count == 0 && meta == UnionMeta(NoBase, [], [])
    {
      count, meta := 0, UnionMeta(NoBase, [], []);
    }
  }

  class Optimizer {
    var types: MetaTypes

    method FlattenUnionImpl(ident: TypeIdent, displayName: Option<string>, next: FlattenUnionInfo)
      requires AcyclicBelow(types, ident)
      modifies next
      ensures next.count == old(next.count) + UnionCount(types, ident)
      ensures next.meta == old(next.meta).(types := old(next.meta).types + Leaves(types, ident, displayName))
      decreases Above(UnionGraph(types), ident)
    {
      if ident !in types {
        return;
      }
      var variant := types[ident].variant;
      if variant.Union? {
        next.count := next.count + 1;
        var members := variant.union_.types;
        for n := 0 to |members|
          invariant next.count == old(next.count) + 1 + UnionCountOf(types, ident, n)
          invariant next.meta == old(next.meta).(types := old(next.meta).types + LeavesOf(types, ident, n))
        {
          DownMember(types, ident, n);
          FlattenUnionImpl(members[n].type_, members[n].displayName, next);
        }
      } else if variant.Reference? && variant.reference.IsSimple() {
        Down(types, ident, variant.reference.type_);
        FlattenUnionImpl(variant.reference.type_, displayName, next);
      } else {
        next.meta := next.meta.(types := next.meta.types + [UnionMetaType(ident, displayName)]);
      }
    }

    /** `flatten_union`: an error, no change, or the union of the leaves. */
    method FlattenUnion(ident: TypeIdent) returns (r: Result<(), Error>)
      requires IsUnion(types, ident) ==> AcyclicBelow(types, ident)
      modifies this
      ensures ident !in old(types) ==> r == Err(UnknownType(ident))
      ensures ident in old(types) && !IsUnion(old(types), ident) ==> r == Err(ExpectedUnion(ident))
      ensures IsUnion(old(types), ident) ==> r == Ok(())
      ensures types == if IsUnion(old(types), ident) && Nested(old(types), ident)
                       then old(types)[ident := old(types)[ident].(variant := FlatUnion(old(types), ident))]
                       else old(types)
    {
      if ident !in types {
        return Err(UnknownType(ident));
      }
      if !types[ident].variant.Union? {
        return Err(ExpectedUnion(ident));
      }
      var info := new FlattenUnionInfo();
      FlattenUnionImpl(ident, None, info);
      assert info.meta.types == Leaves(types, ident, None);
      if info.count > 1 {
        var meta := info.meta.(base := types[ident].variant.union_.base);
        types := types[ident := types[ident].(variant := Union(meta))];
      }
      return Ok(());
    }

    /** `flatten_unions`: whatever the order, every nested union ends up as the union of its original leaves. */
    method FlattenUnions()
      requires AcyclicUnions(types)
      modifies this
      ensures types == Flattened(old(types))
    {
      ghost var before := types;
      var idents := set i | i in types && types[i].variant.Union?;
      while idents != {}
        invariant forall i | i in idents :: IsUnion(before, i)
        invariant types.Keys == before.Keys
        invariant forall i | i in before ::
          types[i] == if i !in idents && Nested(before, i) then before[i].(variant := FlatUnion(before, i)) else before[i]
        decreases idents
      {
        var ident :| ident in idents;
        assert PartlyFlattened(before, types);
        PartlyIsRewritten(before, types);
        LeavesKept(before, types, ident, None);
        LeavesOfKept(before, types, ident, |Members(before, ident)|);
        assert FlatUnion(types, ident) == FlatUnion(before, ident);
        var r := FlattenUnion(ident);
        assert r.Ok?;
        idents := idents - {ident};
      }
    }
  }
}
