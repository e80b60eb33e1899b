/**
  Merging nested unions and enumerations into one type (`merge_enum_unions.rs`).
  The accumulator starts out as a union and turns into an enumeration as soon
  as one is met.
 */
module EnumUnions {
  import opened Wrappers
  import opened Meta
  import opened Relations
  import opened TypeGraph
  import opened Unions
  import opened EnumVariants

  predicate IsEnum(types: MetaTypes, i: TypeIdent) {
    i in types && types[i].variant.Enumeration?
  }

  predicate MeetsEnum(types: MetaTypes, leaves: seq<UnionMetaType>) {
    exists k | 0 <= k < |leaves| :: IsEnum(types, leaves[k].type_)
  }

  function PlainAll(vs: seq<Variant>): seq<Variant> {
    seq(|vs|, k requires 0 <= k < |vs| => Plain(vs[k]))
  }

  /** The variants a leaf stands for: those of an enumeration, or one for the type itself. */
  function VariantsOf(types: MetaTypes, t: UnionMetaType): seq<Variant> {
    if IsEnum(types, t.type_) then PlainAll(types[t.type_].variant.enumeration.variants)
    else [NewVariant(t.type_.ToPropertyIdent(), Some(t.type_), t.displayName)]
  }

  function AllVariants(types: MetaTypes, leaves: seq<UnionMetaType>): seq<Variant> {
    if leaves == [] then [] else AllVariants(types, leaves[..|leaves| - 1]) + VariantsOf(types, leaves[|leaves| - 1])
  }

  /** What leaves are merged to: nothing, a union of them, or an enumeration. */
  function Merged(types: MetaTypes, leaves: seq<UnionMetaType>): Option<MetaTypeVariant> {
    if leaves == [] then None
    else if MeetsEnum(types, leaves) then
      Some(MetaTypeVariant.Enumeration(EnumerationMeta(NoBase, Deduplicated(AllVariants(types, leaves)), [])))
    else Some(Union(UnionMeta(NoBase, leaves, [])))
  }

  lemma MeetsEnumAppend(types: MetaTypes, a: seq<UnionMetaType>, b: seq<UnionMetaType>)
    ensures MeetsEnum(types, a + b) <==> MeetsEnum(types, a) || MeetsEnum(types, b)
  {
    if k :| 0 <= k < |a| && IsEnum(types, a[k].type_) {
      assert (a + b)[k] == a[k];
    }
    if k :| 0 <= k < |b| && IsEnum(types, b[k].type_) {
      assert (a + b)[|a| + k] == b[k];
    }
  }

  lemma {:induction false} AllVariantsAppend(types: MetaTypes, a: seq<UnionMetaType>, b: seq<UnionMetaType>)
    ensures AllVariants(types, a + b) == AllVariants(types, a) + AllVariants(types, b)
    decreases |b|
  {
    if b == [] {
      assert a + b == a;
    } else {
      assert (a + b)[..|a + b| - 1] == a + b[..|b| - 1];
      AllVariantsAppend(types, a, b[..|b| - 1]);
    }
  }

  lemma OneMoreLeaf(types: MetaTypes, leaves: seq<UnionMetaType>, n: nat)
    requires n < |leaves|
    ensures AllVariants(types, leaves[..n + 1]) == AllVariants(types, leaves[..n]) + VariantsOf(types, leaves[n])
  {
    assert leaves[..n + 1][..n] == leaves[..n];
  }

  lemma OneLeaf(types: MetaTypes, t: UnionMetaType)
    ensures AllVariants(types, [t]) == VariantsOf(types, t)
    ensures MeetsEnum(types, [t]) <==> IsEnum(types, t.type_)
  {
    assert [t][..0] == [];
    assert [t][0] == t;
  }

  // ---------- What the merged type is

  /**
    What a leaf brings along: an enumeration its own variants, any other type one
    variant of its own name that stands for the type.
   */
  ghost predicate Brings(types: MetaTypes, t: UnionMetaType, ident: PropertyIdent, type_: Option<TypeIdent>, name: Option<string>) {
    if t.type_ in types && types[t.type_].variant.Enumeration? then
      exists v :: v in types[t.type_].variant.enumeration.variants && v.ident == ident && v.type_ == type_ && v.displayName == name
    else
      ident == PropertyIdent(t.type_.ns, t.type_.name) && type_ == Some(t.type_) && name == t.displayName
  }

  ghost predicate Brought(types: MetaTypes, leaves: seq<UnionMetaType>, ident: PropertyIdent, type_: Option<TypeIdent>, name: Option<string>) {
    exists k | 0 <= k < |leaves| :: Brings(types, leaves[k], ident, type_, name)
  }

  lemma LeafBrings(types: MetaTypes, t: UnionMetaType, v: Variant)
    ensures v in VariantsOf(types, t) <==> v == Plain(v) && Brings(types, t, v.ident, v.type_, v.displayName)
  {
    if IsEnum(types, t.type_) {
      var vs := types[t.type_].variant.enumeration.variants;
      if v in VariantsOf(types, t) {
        var k :| 0 <= k < |vs| && Plain(vs[k]) == v;
        assert vs[k] in vs;
      }
      if v == Plain(v) && Brings(types, t, v.ident, v.type_, v.displayName) {
        var x :| x in vs && x.ident == v.ident && x.type_ == v.type_ && x.displayName == v.displayName;
        var k :| 0 <= k < |vs| && vs[k] == x;
        assert PlainAll(vs)[k] == v;
      }
    }
  }

  lemma {:induction false} AllBrought(types: MetaTypes, leaves: seq<UnionMetaType>, v: Variant)
    ensures v in AllVariants(types, leaves) <==> v == Plain(v) && Brought(types, leaves, v.ident, v.type_, v.displayName)
    decreases |leaves|
  {
    if leaves != [] {
      var front, t := leaves[..|leaves| - 1], leaves[|leaves| - 1];
      AllBrought(types, front, v);
      LeafBrings(types, t, v);
      BroughtSnoc(types, leaves, v.ident, v.type_, v.displayName);
    }
  }

  lemma BroughtSnoc(types: MetaTypes, leaves: seq<UnionMetaType>, ident: PropertyIdent, type_: Option<TypeIdent>, name: Option<string>)
    requires leaves != []
    ensures Brought(types, leaves, ident, type_, name) <==>
              Brought(types, leaves[..|leaves| - 1], ident, type_, name) || Brings(types, leaves[|leaves| - 1], ident, type_, name)
  {
    var front := leaves[..|leaves| - 1];
    if k :| 0 <= k < |leaves| && Brings(types, leaves[k], ident, type_, name) {
      assert k < |front| ==> Brings(types, front[k], ident, type_, name);
    }
    if k :| 0 <= k < |front| && Brings(types, front[k], ident, type_, name) {
      assert Brings(types, leaves[k], ident, type_, name);
    }
  }

  /** Leaves become an enumeration exactly if one of them is an enumeration, and otherwise a union of just these leaves. */
  lemma MergedKind(types: MetaTypes, leaves: seq<UnionMetaType>)
    ensures Merged(types, leaves) == None <==> leaves == []
    ensures Merged(types, leaves).Some? ==> Merged(types, leaves).value.Union? || Merged(types, leaves).value.Enumeration?
    ensures Merged(types, leaves).Some? ==>
              (Merged(types, leaves).value.Enumeration? <==>
                 exists t :: t in leaves && t.type_ in types && types[t.type_].variant.Enumeration?)
    ensures Merged(types, leaves).Some? && Merged(types, leaves).value.Union? ==>
              Merged(types, leaves).value.union_.types == leaves
  {
    if t :| t in leaves && t.type_ in types && types[t.type_].variant.Enumeration? {
      var k :| 0 <= k < |leaves| && leaves[k] == t;
      assert IsEnum(types, leaves[k].type_);
    }
  }

  /** A merged enumeration has exactly the identifiers that its leaves bring along, each once. */
  lemma MergedIdents(types: MetaTypes, leaves: seq<UnionMetaType>, ident: PropertyIdent)
    requires Merged(types, leaves).Some? && Merged(types, leaves).value.Enumeration?
    ensures Distinct(Merged(types, leaves).value.enumeration.variants)
    ensures (exists v :: v in Merged(types, leaves).value.enumeration.variants && v.ident == ident) <==>
              exists type_, name :: Brought(types, leaves, ident, type_, name)
  {
    var vs := AllVariants(types, leaves);
    var ds := Deduplicated(vs);
    DeduplicatedIdents(vs, ident);
    if v :| v in ds && v.ident == ident {
      var k :| 0 <= k < |ds| && ds[k] == v;
      assert HasIdent(ds, ident);
      var j :| 0 <= j < |vs| && vs[j].ident == ident;
      AllBrought(types, leaves, vs[j]);
    }
    if type_, name :| Brought(types, leaves, ident, type_, name) {
      var v := NewVariant(ident, type_, name);
      AllBrought(types, leaves, v);
      var j :| 0 <= j < |vs| && vs[j] == v;
      assert HasIdent(vs, ident);
      var k :| 0 <= k < |ds| && ds[k].ident == ident;
      assert ds[k] in ds;
    }
  }

  /** Its types and display names come from leaves as well. */
  lemma MergedVariant(types: MetaTypes, leaves: seq<UnionMetaType>, k: nat)
    requires Merged(types, leaves).Some? && Merged(types, leaves).value.Enumeration?
    requires k < |Merged(types, leaves).value.enumeration.variants|
    ensures var v := Merged(types, leaves).value.enumeration.variants[k];
            && v == EnumerationMetaVariant(v.ident, "optional", v.type_, v.displayName, [], None)
            && (exists name :: Brought(types, leaves, v.ident, v.type_, name))
            && (exists type_ :: Brought(types, leaves, v.ident, type_, v.displayName))
  {
    var vs := AllVariants(types, leaves);
    var v := Deduplicated(vs)[k];
    var i := FirstsAt(vs, k);
    DeduplicatedMeaning(vs, k, i, 0);
    AllBrought(types, leaves, vs[i]);
    assert Brought(types, leaves, v.ident, v.type_, vs[i].displayName);
    var j := LastOccurrence(vs, v.ident, i);
    DeduplicatedMeaning(vs, k, i, j);
    AllBrought(types, leaves, vs[j]);
  }

  lemma {:induction false} LastOccurrence(vs: seq<Variant>, ident: PropertyIdent, i: nat) returns (j: nat)
    requires i < |vs| && vs[i].ident == ident
    ensures LastAt(vs, j, ident)
    decreases |vs| - i
  {
    if m :| i < m < |vs| && vs[m].ident == ident {
      j := LastOccurrence(vs, ident, m);
    } else {
      j := i;
    }
  }

  // ---------- The same result

  /** Leaves that are merged to the same type, wherever they stand in a list of leaves. */
  ghost predicate SameMerge(types: MetaTypes, a: seq<UnionMetaType>, types': MetaTypes, a': seq<UnionMetaType>) {
    && (MeetsEnum(types, a) <==> MeetsEnum(types', a'))
    && (!MeetsEnum(types, a) ==> a == a')
    && Deduplicated(AllVariants(types, a)) == Deduplicated(AllVariants(types', a'))
  }

  lemma SameMerged(types: MetaTypes, a: seq<UnionMetaType>, types': MetaTypes, a': seq<UnionMetaType>)
    requires SameMerge(types, a, types', a')
    ensures Merged(types, a) == Merged(types', a')
  {
  }

  lemma SameMergeAppend(types: MetaTypes, all: seq<UnionMetaType>, a: seq<UnionMetaType>, b: seq<UnionMetaType>,
                        types': MetaTypes, all': seq<UnionMetaType>, a': seq<UnionMetaType>, b': seq<UnionMetaType>)
    requires SameMerge(types, a, types', a') && SameMerge(types, b, types', b')
    requires all == a + b && all' == a' + b'
    ensures SameMerge(types, all, types', all')
  {
    MeetsEnumAppend(types, a, b);
    MeetsEnumAppend(types', a', b');
    AllVariantsAppend(types, a, b);
    AllVariantsAppend(types', a', b');
    DeduplicatedAppend(AllVariants(types, a), AllVariants(types, b), AllVariants(types', a'), AllVariants(types', b'));
  }

  /** Leaves that are the same types in both. */
  lemma {:induction false} SameLeaves(types: MetaTypes, types': MetaTypes, a: seq<UnionMetaType>)
    requires forall t | t in a :: IsLeaf(types, t.type_) && t.type_ in types' && types'[t.type_] == types[t.type_]
    ensures SameMerge(types, a, types', a) && AllVariants(types, a) == AllVariants(types', a)
    decreases |a|
  {
    if a != [] {
      var before := a[..|a| - 1];
      var t := a[|a| - 1];
      assert t in a;
      SameLeaves(types, types', before);
      assert a == before + [t];
      MeetsEnumAppend(types, before, [t]);
      MeetsEnumAppend(types', before, [t]);
      OneLeaf(types, t);
      OneLeaf(types', t);
    }
  }

  lemma LastMember(types: MetaTypes, i: TypeIdent, n: nat)
    requires AcyclicBelow(types, i) && IsUnion(types, i) && 0 < n <= |Members(types, i)|
    ensures AcyclicBelow(types, Members(types, i)[n - 1].type_)
    ensures var t := Members(types, i)[n - 1];
            LeavesOf(types, i, n) == LeavesOf(types, i, n - 1) + Leaves(types, t.type_, t.displayName)
  {
    DownMember(types, i, n - 1);
  }

  /** The leaves of one more member, after others. */
  lemma MemberLeaves(types: MetaTypes, i: TypeIdent, n: nat, met: seq<UnionMetaType>)
    requires AcyclicBelow(types, i) && IsUnion(types, i) && n < |Members(types, i)|
    ensures AcyclicBelow(types, Members(types, i)[n].type_)
    ensures var t := Members(types, i)[n];
            met + LeavesOf(types, i, n) + Leaves(types, t.type_, t.displayName) == met + LeavesOf(types, i, n + 1)
  {
    DownMember(types, i, n);
  }

  // ---------- The whole pass

  ghost function MergedUnion(types: MetaTypes, i: TypeIdent): Option<MetaTypeVariant>
    requires AcyclicBelow(types, i)
  {
    Merged(types, Leaves(types, i, None))
  }

  ghost function MergedType(types: MetaTypes, i: TypeIdent): MetaType
    requires AcyclicBelow(types, i) && IsUnion(types, i)
  {
    match MergedUnion(types, i)
    case None => types[i]
    case Some(v) => types[i].(variant := v)
  }

  /** All types after merging: every union is replaced by what its leaves are merged to. */
  ghost function MergedTypes(types: MetaTypes): MetaTypes
    requires AcyclicUnions(types)
  {
    map i | i in types :: if IsUnion(types, i) then MergedType(types, i) else types[i]
  }

  ghost predicate MaybeMerged(old_: MetaTypes, cur: MetaTypes, i: TypeIdent)
    requires AcyclicUnions(old_) && i in old_ && i in cur
  {
    cur[i] == old_[i] || (IsUnion(old_, i) && cur[i] == MergedType(old_, i))
  }

  /** Some of the unions are merged already, no matter which. */
  ghost predicate PartlyMerged(old_: MetaTypes, cur: MetaTypes)
    requires AcyclicUnions(old_)
  {
    && cur.Keys == old_.Keys
    && forall i {:trigger MaybeMerged(old_, cur, i)} | i in old_ :: i in cur && MaybeMerged(old_, cur, i)
  }

  lemma PartlyIsRewritten(old_: MetaTypes, cur: MetaTypes)
    requires AcyclicUnions(old_) && PartlyMerged(old_, cur)
    ensures Rewritten(old_, cur) && AcyclicUnions(cur)
  {
    forall i | i in old_
      ensures i in cur && (cur[i] == old_[i] || IsRewrite(old_, i, cur[i].variant))
    {
      assert MaybeMerged(old_, cur, i);
    }
    RewrittenAcyclic(old_, cur);
  }

  lemma {:induction false} VariantsPlain(types: MetaTypes, leaves: seq<UnionMetaType>)
    ensures AllPlain(AllVariants(types, leaves))
    decreases |leaves|
  {
    if leaves != [] {
      VariantsPlain(types, leaves[..|leaves| - 1]);
    }
  }

  lemma DeduplicatedPlain(vs: seq<Variant>)
    requires AllPlain(vs)
    ensures PlainAll(Deduplicated(vs)) == Deduplicated(vs)
  {
    var d := Deduplicated(vs);
    forall k | 0 <= k < |d|
      ensures Plain(d[k]) == d[k]
    {
      var i := FirstsAt(vs, k);
      assert vs[i] in vs;
    }
  }

  /** A merged enumeration stands for the variants it was made from. */
  lemma SameEnum(old_: MetaTypes, cur: MetaTypes, i: TypeIdent, displayName: Option<string>, leaves: seq<UnionMetaType>)
    requires MeetsEnum(old_, leaves) && i in cur && Some(cur[i].variant) == Merged(old_, leaves)
    ensures SameMerge(old_, leaves, cur, [UnionMetaType(i, displayName)])
  {
    var vs := AllVariants(old_, leaves);
    OneLeaf(cur, UnionMetaType(i, displayName));
    VariantsPlain(old_, leaves);
    DeduplicatedPlain(vs);
    DeduplicatedTwice(vs);
  }

  /** The members of a merged union are leaves still. */
  lemma StillLeaves(old_: MetaTypes, cur: MetaTypes, i: TypeIdent, displayName: Option<string>)
    requires AcyclicUnions(old_) && PartlyMerged(old_, cur)
    ensures forall t | t in Leaves(old_, i, displayName) ::
              IsLeaf(old_, t.type_) && t.type_ in cur && cur[t.type_] == old_[t.type_] && IsLeaf(cur, t.type_)
  {
    forall t | t in Leaves(old_, i, displayName)
      ensures IsLeaf(old_, t.type_) && t.type_ in cur && cur[t.type_] == old_[t.type_] && IsLeaf(cur, t.type_)
    {
      LeafBelow(old_, i, displayName, t);
      assert MaybeMerged(old_, cur, t.type_);
    }
  }

  /** Merging one union changes what no other is merged to. */
  lemma {:induction false} MergeKept(old_: MetaTypes, cur: MetaTypes, i: TypeIdent, displayName: Option<string>)
    requires AcyclicUnions(old_) && AcyclicUnions(cur) && PartlyMerged(old_, cur)
    ensures SameMerge(old_, Leaves(old_, i, displayName), cur, Leaves(cur, i, displayName))
    decreases Above(UnionGraph(old_), i), 1, 0
  {
    if i in old_ {
      if cur[i] != old_[i] {
        MergedKept(old_, cur, i, displayName);
      } else if IsUnion(old_, i) {
        MergeOfKept(old_, cur, i, |Members(old_, i)|);
      } else if IsSimpleRef(old_, i) {
        Down(old_, i, Target(old_, i));
        MergeKept(old_, cur, Target(old_, i), displayName);
      } else {
        SameLeaves(old_, cur, [UnionMetaType(i, displayName)]);
      }
    }
  }

  lemma MergedKept(old_: MetaTypes, cur: MetaTypes, i: TypeIdent, displayName: Option<string>)
    requires AcyclicUnions(old_) && AcyclicUnions(cur) && PartlyMerged(old_, cur)
    requires i in old_ && cur[i] != old_[i]
    ensures SameMerge(old_, Leaves(old_, i, displayName), cur, Leaves(cur, i, displayName))
  {
    assert MaybeMerged(old_, cur, i);
    var leaves := Leaves(old_, i, None);
    if MeetsEnum(old_, leaves) {
      SameEnum(old_, cur, i, displayName, leaves);
    } else {
      StillLeaves(old_, cur, i, None);
      assert Members(cur, i) == leaves;
      OnlyLeaves(cur, i, |leaves|);
      SameLeaves(old_, cur, leaves);
    }
  }

  lemma {:induction false} MergeOfKept(old_: MetaTypes, cur: MetaTypes, i: TypeIdent, n: nat)
    requires AcyclicUnions(old_) && AcyclicUnions(cur) && PartlyMerged(old_, cur)
    requires IsUnion(old_, i) && cur[i] == old_[i] && n <= |Members(old_, i)|
    ensures SameMerge(old_, LeavesOf(old_, i, n), cur, LeavesOf(cur, i, n))
    decreases Above(UnionGraph(old_), i), 0, n
  {
    if n > 0 {
      var t := Members(old_, i)[n - 1];
      DownMember(old_, i, n - 1);
      MergeOfKept(old_, cur, i, n - 1);
      MergeKept(old_, cur, t.type_, t.displayName);
      LastMember(old_, i, n);
      LastMember(cur, i, n);
      SameMergeAppend(old_, LeavesOf(old_, i, n), LeavesOf(old_, i, n - 1), Leaves(old_, t.type_, t.displayName),
                      cur, LeavesOf(cur, i, n), LeavesOf(cur, i, n - 1), Leaves(cur, t.type_, t.displayName));
    }
  }

  lemma MergedIsPartly(types: MetaTypes)
    requires AcyclicUnions(types)
    ensures PartlyMerged(types, MergedTypes(types)) && AcyclicUnions(MergedTypes(types))
  {
    PartlyIsRewritten(types, MergedTypes(types));
  }

  /** Merging again changes nothing. */
  lemma MergingIsIdempotent(types: MetaTypes)
    requires AcyclicUnions(types)
    ensures AcyclicUnions(MergedTypes(types)) && MergedTypes(MergedTypes(types)) == MergedTypes(types)
  {
    var once := MergedTypes(types);
    MergedIsPartly(types);
    forall i | i in once
      ensures MergedTypes(once)[i] == once[i]
    {
      MergeKept(types, once, i, None);
      SameMerged(types, Leaves(types, i, None), once, Leaves(once, i, None));
    }
  }

  /** Afterwards a union has leaves as members, none of them an enumeration; or it never had any leaves. */
  lemma MergedUnionsAreFlat(types: MetaTypes, i: TypeIdent, t: UnionMetaType)
    requires AcyclicUnions(types) && IsUnion(MergedTypes(types), i) && Leaves(types, i, None) != []
    requires t in Members(MergedTypes(types), i)
    ensures IsLeaf(MergedTypes(types), t.type_) && !IsEnum(MergedTypes(types), t.type_)
  {
    var leaves := Leaves(types, i, None);
    MergedIsPartly(types);
    StillLeaves(types, MergedTypes(types), i, None);
    assert t in leaves;
    var k :| 0 <= k < |leaves| && leaves[k] == t;
    assert !MeetsEnum(types, leaves);
    assert !IsEnum(types, leaves[k].type_);
  }

  // ---------- The optimizer

  class Optimizer {
    var types: MetaTypes

    /** The leaves collected so far become the variants of an enumeration. */
    method SwitchToEnum(next: Option<MetaTypeVariant>, ghost met: seq<UnionMetaType>) returns (variants: seq<Variant>)
      requires next == Merged(types, met)
      ensures variants == Deduplicated(AllVariants(types, met))
    {
      match next {
        case None => {
          variants := [];
        }
        case Some(v) => {
          if v.Enumeration? {
            return v.enumeration.variants;
          }
          variants := [];
          var leaves := v.union_.types;
          for n := 0 to |leaves|
            invariant variants == Deduplicated(AllVariants(types, leaves[..n]))
          {
            var t := leaves[n];
            OneMoreLeaf(types, leaves, n);
            var v := NewVariant(t.type_.ToPropertyIdent(), Some(t.type_), t.displayName);
            variants := InsertVariant(variants, v, AllVariants(types, leaves[..n]));
          }
          assert leaves[..|leaves|] == leaves;
        }
      }
    }

    method AddEnum(next: Option<MetaTypeVariant>, t: UnionMetaType, ghost met: seq<UnionMetaType>) returns (r: Option<MetaTypeVariant>)
      requires next == Merged(types, met) && IsEnum(types, t.type_)
      ensures r == Merged(types, met + [t])
    {
      var variants := SwitchToEnum(next, met);
      var added := types[t.type_].variant.enumeration.variants;
      ghost var vs := AllVariants(types, met);
      assert vs + PlainAll(added[..0]) == vs;
      for n := 0 to |added|
        invariant variants == Deduplicated(vs + PlainAll(added[..n]))
      {
        variants := InsertVariant(variants, added[n], vs + PlainAll(added[..n]));
        assert vs + PlainAll(added[..n]) + [Plain(added[n])] == vs + PlainAll(added[..n + 1]);
      }
      assert added[..|added|] == added;
      AllVariantsAppend(types, met, [t]);
      OneLeaf(types, t);
      MeetsEnumAppend(types, met, [t]);
      return Some(MetaTypeVariant.Enumeration(EnumerationMeta(NoBase, variants, [])));
    }

    method AddOther(next: Option<MetaTypeVariant>, t: UnionMetaType, ghost met: seq<UnionMetaType>) returns (r: Option<MetaTypeVariant>)
      requires next == Merged(types, met) && !IsEnum(types, t.type_)
      ensures r == Merged(types, met + [t])
    {
      MeetsEnumAppend(types, met, [t]);
      AllVariantsAppend(types, met, [t]);
      OneLeaf(types, t);
      var v := if next.None? then Union(UnionMeta(NoBase, [], [])) else next.value;
      if v.Union? {
        return Some(Union(v.union_.(types := v.union_.types + [t])));
      }
      var new_ := NewVariant(t.type_.ToPropertyIdent(), Some(t.type_), t.displayName);
      var variants := InsertVariant(v.enumeration.variants, new_, AllVariants(types, met));
      return Some(MetaTypeVariant.Enumeration(v.enumeration.(variants := variants)));
    }

    /** `merge_enum_union_impl`: continues merging with the leaves of one more type. */
    method MergeEnumUnionImpl(ident: TypeIdent, displayName: Option<string>, next: Option<MetaTypeVariant>,
                              ghost met: seq<UnionMetaType>) returns (r: Option<MetaTypeVariant>)
      requires AcyclicBelow(types, ident) && next == Merged(types, met)
      ensures r == Merged(types, met + Leaves(types, ident, displayName))
      decreases Above(UnionGraph(types), ident)
    {
      r := next;
      if ident !in types {
        assert met + [] == met;
        return;
      }
      var variant := types[ident].variant;
      if variant.Union? {
        var members := variant.union_.types;
        assert met + [] == met;
        for n := 0 to |members|
          invariant r == Merged(types, met + LeavesOf(types, ident, n))
        {
          DownMember(types, ident, n);
          r := MergeEnumUnionImpl(members[n].type_, members[n].displayName, r, met + LeavesOf(types, ident, n));
          MemberLeaves(types, ident, n, met);
        }
      } else if variant.Enumeration? {
        r := AddEnum(r, UnionMetaType(ident, displayName), met);
      } else if variant.Reference? && variant.reference.IsSimple() {
        Down(types, ident, variant.reference.type_);
        r := MergeEnumUnionImpl(variant.reference.type_, displayName, r, met);
      } else {
        r := AddOther(r, UnionMetaType(ident, displayName), met);
      }
    }

    /** `merge_enum_union`: an error, no change if there are no leaves, or the merged type. */
    method MergeEnumUnion(ident: TypeIdent) returns (r: Result<(), Error>)
      requires IsUnion(types, ident) ==> AcyclicBelow(types, ident)
      modifies this
      ensures ident !in old(types) ==> r == Err(UnknownType(ident))
      ensures ident in old(types) && !IsUnion(old(types), ident) ==> r == Err(ExpectedUnion(ident))
      ensures IsUnion(old(types), ident) ==> r == Ok(())
      ensures types == if IsUnion(old(types), ident)
                       then old(types)[ident := MergedType(old(types), ident)]
                       else old(types)
    {
      if ident !in types {
        return Err(UnknownType(ident));
      }
      if !types[ident].variant.Union? {
        return Err(ExpectedUnion(ident));
      }
      var next := MergeEnumUnionImpl(ident, None, None, []);
      assert [] + Leaves(types, ident, None) == Leaves(types, ident, None);
      if next.Some? {
        types := types[ident := types[ident].(variant := next.value)];
      }
      return Ok(());
    }

    /** `merge_enum_unions`: whatever the order, every union ends up as what its original leaves are merged to. */
    method MergeEnumUnions()
      requires AcyclicUnions(types)
      modifies this
      ensures types == MergedTypes(old(types))
    {
      ghost var before := types;
      var idents := set i | i in types && types[i].variant.Union?;
      while idents != {}
        invariant forall i | i in idents :: IsUnion(before, i)
        invariant types.Keys == before.Keys
        invariant forall i | i in before ::
          types[i] == if i !in idents && IsUnion(before, i) then MergedType(before, i) else before[i]
        decreases idents
      {
        var ident :| ident in idents;
        assert PartlyMerged(before, types);
        PartlyIsRewritten(before, types);
        MergeKept(before, types, ident, None);
        SameMerged(before, Leaves(before, ident, None), types, Leaves(types, ident, None));
        var r := MergeEnumUnion(ident);
        assert r.Ok?;
        idents := idents - {ident};
      }
    }
  }
}
