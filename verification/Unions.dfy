/**
  Union types and what they consist of. A union lists other types, directly or
  through simple references; its leaves are the types at the ends, in order,
  each with the display name of the union member that leads there.
 */
module Unions {
  import opened Wrappers
  import opened Meta
  import opened Relations
  import opened TypeGraph

  predicate IsUnion(types: MetaTypes, i: TypeIdent) {
    i in types && types[i].variant.Union?
  }

  /** The members of a union. */
  function Members(types: MetaTypes, i: TypeIdent): seq<UnionMetaType>
    requires IsUnion(types, i)
  {
    types[i].variant.union_.types
  }

  predicate IsLeaf(types: MetaTypes, i: TypeIdent) {
    i in types && !IsUnion(types, i) && !IsSimpleRef(types, i)
  }

  function MemberTypes(members: seq<UnionMetaType>): set<TypeIdent> {
    if members == [] then {} else MemberTypes(members[..|members| - 1]) + {members[|members| - 1].type_}
  }

  lemma {:induction false} MemberTypesExact(members: seq<UnionMetaType>, j: TypeIdent)
    ensures j in MemberTypes(members) <==> exists t :: t in members && t.type_ == j
    decreases |members|
  {
    if members != [] {
      MemberTypesExact(members[..|members| - 1], j);
      assert members == members[..|members| - 1] + [members[|members| - 1]];
    }
  }

  function Successors(types: MetaTypes, i: TypeIdent): set<TypeIdent> {
    if IsUnion(types, i) then MemberTypes(Members(types, i))
    else if IsSimpleRef(types, i) then {Target(types, i)}
    else {}
  }

  /** Unions lead to their members, simple references to their target. */
  function UnionGraph(types: MetaTypes): Relation {
    map i | i in types :: Successors(types, i)
  }

  /** No union contains itself. */
  ghost predicate AcyclicUnions(types: MetaTypes) {
    Relations.Acyclic(UnionGraph(types))
  }

  /** No union below `i` contains itself. */
  ghost predicate AcyclicBelow(types: MetaTypes, i: TypeIdent) {
    AcyclicFrom(UnionGraph(types), i)
  }

  lemma Down(types: MetaTypes, i: TypeIdent, j: TypeIdent)
    requires AcyclicBelow(types, i) && i in types
    requires if IsUnion(types, i) then exists t :: t in Members(types, i) && t.type_ == j
             else IsSimpleRef(types, i) && j == Target(types, i)
    ensures AcyclicBelow(types, j)
    ensures Edge(UnionGraph(types), i, j) && Above(UnionGraph(types), j) < Above(UnionGraph(types), i)
  {
    if IsUnion(types, i) {
      MemberTypesExact(Members(types, i), j);
    }
    AcyclicEdge(UnionGraph(types), i, j);
  }

  lemma DownMember(types: MetaTypes, i: TypeIdent, n: nat)
    requires AcyclicBelow(types, i) && IsUnion(types, i) && n < |Members(types, i)|
    ensures AcyclicBelow(types, Members(types, i)[n].type_)
    ensures Edge(UnionGraph(types), i, Members(types, i)[n].type_)
    ensures Above(UnionGraph(types), Members(types, i)[n].type_) < Above(UnionGraph(types), i)
  {
    assert Members(types, i)[n] in Members(types, i);
    Down(types, i, Members(types, i)[n].type_);
  }

  /** The leaves of a type that is used under a display name; a missing type has none. */
  ghost function Leaves(types: MetaTypes, i: TypeIdent, displayName: Option<string>): seq<UnionMetaType>
    requires AcyclicBelow(types, i)
    decreases Above(UnionGraph(types), i), 1, 0
  {
    if i !in types then []
    else if IsUnion(types, i) then LeavesOf(types, i, |Members(types, i)|)
    else if IsSimpleRef(types, i) then
      Down(types, i, Target(types, i));
      Leaves(types, Target(types, i), displayName)
    else [UnionMetaType(i, displayName)]
  }

  /** The leaves of the first `n` members of a union. */
  ghost function LeavesOf(types: MetaTypes, i: TypeIdent, n: nat): seq<UnionMetaType>
    requires AcyclicBelow(types, i) && IsUnion(types, i) && n <= |Members(types, i)|
    decreases Above(UnionGraph(types), i), 0, n
  {
    if n == 0 then []
    else
      var t := Members(types, i)[n - 1];
      DownMember(types, i, n - 1);
      LeavesOf(types, i, n - 1) + Leaves(types, t.type_, t.displayName)
  }

  /** How many unions are met on the way to the leaves. */
  ghost function UnionCount(types: MetaTypes, i: TypeIdent): nat
    requires AcyclicBelow(types, i)
    decreases Above(UnionGraph(types), i), 1, 0
  {
    if IsUnion(types, i) then 1 + UnionCountOf(types, i, |Members(types, i)|)
    else if IsSimpleRef(types, i) then
      Down(types, i, Target(types, i));
      UnionCount(types, Target(types, i))
    else 0
  }

  ghost function UnionCountOf(types: MetaTypes, i: TypeIdent, n: nat): nat
    requires AcyclicBelow(types, i) && IsUnion(types, i) && n <= |Members(types, i)|
    decreases Above(UnionGraph(types), i), 0, n
  {
    if n == 0 then 0
    else
      var t := Members(types, i)[n - 1];
      DownMember(types, i, n - 1);
      UnionCountOf(types, i, n - 1) + UnionCount(types, t.type_)
  }

  /** Every leaf of a union is a known type below it that is neither a union nor a simple reference. */
  lemma {:induction false} LeafBelow(types: MetaTypes, i: TypeIdent, displayName: Option<string>, t: UnionMetaType)
    requires AcyclicBelow(types, i) && t in Leaves(types, i, displayName)
    ensures IsLeaf(types, t.type_) && ReachesAfter(UnionGraph(types), i, t.type_, if IsLeaf(types, i) then 0 else 1)
    decreases Above(UnionGraph(types), i), 1, 0
  {
    if IsUnion(types, i) {
      LeafBelowUnion(types, i, |Members(types, i)|, t);
    } else if IsSimpleRef(types, i) {
      Down(types, i, Target(types, i));
      LeafBelow(types, Target(types, i), displayName, t);
      EdgeReaches(UnionGraph(types), i, Target(types, i));
      ReachesJoin(UnionGraph(types), i, Target(types, i), t.type_, 1, 0);
    } else {
      assert Steps(UnionGraph(types), i, i, 0);
    }
  }

  lemma {:induction false} LeafBelowUnion(types: MetaTypes, i: TypeIdent, n: nat, t: UnionMetaType)
    requires AcyclicBelow(types, i) && IsUnion(types, i) && n <= |Members(types, i)| && t in LeavesOf(types, i, n)
    ensures IsLeaf(types, t.type_) && ReachesAfter(UnionGraph(types), i, t.type_, 1)
    decreases Above(UnionGraph(types), i), 0, n
  {
    var m := Members(types, i)[n - 1];
    DownMember(types, i, n - 1);
    if t in LeavesOf(types, i, n - 1) {
      LeafBelowUnion(types, i, n - 1, t);
    } else {
      LeafBelow(types, m.type_, m.displayName, t);
      EdgeReaches(UnionGraph(types), i, m.type_);
      ReachesJoin(UnionGraph(types), i, m.type_, t.type_, 1, 0);
    }
  }

  /** Every known type that is neither a union nor a simple reference, and is reached, is the type of some leaf. */
  lemma {:induction false} ReachedIsLeaf(types: MetaTypes, i: TypeIdent, displayName: Option<string>, x: TypeIdent, n: nat)
    requires AcyclicBelow(types, i) && IsLeaf(types, x) && Steps(UnionGraph(types), i, x, n)
    ensures exists t :: t in Leaves(types, i, displayName) && t.type_ == x
    decreases n
  {
    if n == 0 {
      assert UnionMetaType(i, displayName) in Leaves(types, i, displayName);
    } else {
      var z :| Edge(UnionGraph(types), i, z) && Steps(UnionGraph(types), z, x, n - 1);
      if IsUnion(types, i) {
        MemberTypesExact(Members(types, i), z);
        var m :| m in Members(types, i) && m.type_ == z;
        var k :| 0 <= k < |Members(types, i)| && Members(types, i)[k] == m;
        DownMember(types, i, k);
        ReachedIsLeaf(types, z, m.displayName, x, n - 1);
        var t :| t in Leaves(types, z, m.displayName) && t.type_ == x;
        MemberLeaf(types, i, |Members(types, i)|, k, t);
      } else {
        Down(types, i, Target(types, i));
        ReachedIsLeaf(types, Target(types, i), displayName, x, n - 1);
      }
    }
  }

  /** The leaves of a member are leaves of the union. */
  lemma {:induction false} MemberLeaf(types: MetaTypes, i: TypeIdent, n: nat, k: nat, t: UnionMetaType)
    requires AcyclicBelow(types, i) && IsUnion(types, i) && k < n <= |Members(types, i)|
    requires AcyclicBelow(types, Members(types, i)[k].type_)
    requires t in Leaves(types, Members(types, i)[k].type_, Members(types, i)[k].displayName)
    ensures t in LeavesOf(types, i, n)
    decreases n
  {
    if k < n - 1 {
      MemberLeaf(types, i, n - 1, k, t);
    }
  }

  /** A union of leaves has no others. */
  lemma {:induction false} OnlyLeaves(types: MetaTypes, i: TypeIdent, n: nat)
    requires AcyclicBelow(types, i) && IsUnion(types, i) && n <= |Members(types, i)|
    requires forall t | t in Members(types, i) :: IsLeaf(types, t.type_)
    ensures LeavesOf(types, i, n) == Members(types, i)[..n] && UnionCountOf(types, i, n) == 0
    decreases n
  {
    if n > 0 {
      var t := Members(types, i)[n - 1];
      assert IsLeaf(types, t.type_);
      OnlyLeaves(types, i, n - 1);
    }
  }

  // ---------- Rewriting unions in place

  /** Some unions were replaced by a union of their own leaves, or by an enumeration. */
  ghost predicate Rewritten(old_: MetaTypes, cur: MetaTypes)
    requires AcyclicUnions(old_)
  {
    && cur.Keys == old_.Keys
    && forall i | i in old_ :: cur[i] == old_[i] || IsRewrite(old_, i, cur[i].variant)
  }

  ghost predicate IsRewrite(old_: MetaTypes, i: TypeIdent, v: MetaTypeVariant)
    requires AcyclicUnions(old_)
  {
    IsUnion(old_, i) && (v.Enumeration? || (v.Union? && v.union_.types == Leaves(old_, i, None)))
  }

  /** Rewriting adds no way from one type to another. */
  lemma RewrittenEdge(old_: MetaTypes, cur: MetaTypes, i: TypeIdent, j: TypeIdent)
    requires AcyclicUnions(old_) && Rewritten(old_, cur) && Edge(UnionGraph(cur), i, j)
    ensures ReachesAfter(UnionGraph(old_), i, j, 1)
  {
    if cur[i] == old_[i] {
      EdgeReaches(UnionGraph(old_), i, j);
    } else {
      MemberTypesExact(Members(cur, i), j);
      var t :| t in Members(cur, i) && t.type_ == j;
      LeafBelow(old_, i, None, t);
    }
  }

  lemma {:induction false} RewrittenSteps(old_: MetaTypes, cur: MetaTypes, i: TypeIdent, j: TypeIdent, n: nat)
    requires AcyclicUnions(old_) && Rewritten(old_, cur) && Steps(UnionGraph(cur), i, j, n)
    ensures ReachesAfter(UnionGraph(old_), i, j, n)
    decreases n
  {
    if n == 0 {
      assert Steps(UnionGraph(old_), i, j, 0);
    } else {
      var z :| Edge(UnionGraph(cur), i, z) && Steps(UnionGraph(cur), z, j, n - 1);
      RewrittenEdge(old_, cur, i, z);
      RewrittenSteps(old_, cur, z, j, n - 1);
      ReachesJoin(UnionGraph(old_), i, z, j, 1, n - 1);
    }
  }

  lemma RewrittenAcyclic(old_: MetaTypes, cur: MetaTypes)
    requires AcyclicUnions(old_) && Rewritten(old_, cur)
    ensures AcyclicUnions(cur)
  {
    forall x
      ensures !ReachesAfter(UnionGraph(cur), x, x, 1)
    {
      if n: nat :| n >= 1 && Steps(UnionGraph(cur), x, x, n) {
        RewrittenSteps(old_, cur, x, x, n);
        assert ReachesAfter(UnionGraph(old_), x, x, 1);
      }
    }
  }
}
