/**
  Removal of duplicate types (`remove_duplicates.rs`): types that are equal up
  to references are replaced by a reference to the first of them, again and
  again until nothing changes. On acyclic references the loop terminates, and
  every type keeps its meaning, recursive types included.
 */
module RemoveDuplicates {
  import opened Wrappers
  import opened Occurs
  import opened Meta
  import opened TypeGraph

  // ---------- The meaning of a type

  /** A type unfolded to some depth, with all simple references resolved. */
  datatype Tree =
    | Cut
    | Missing(ident: TypeIdent)
    | Node(displayName: Option<string>, shape: MetaTypeVariant, children: seq<Option<Tree>>)

  function Unfold(types: MetaTypes, i: TypeIdent, n: nat): Tree
    decreases n
  {
    if n == 0 then Cut
    else
      match GetResolved(types, i)
      case None => Missing(i)
      case Some(r) => UnfoldType(types, types[r], n)
  }

  function UnfoldType(types: MetaTypes, t: MetaType, n: nat): Tree
    requires n > 0
    decreases n, 0
  {
    var ids := Idents(t.variant);
    Node(t.displayName, Shape(t.variant),
         seq(|ids|, k requires 0 <= k < |ids| =>
           if ids[k].None? then None else Some(Unfold(types, ids[k].value, n - 1))))
  }

  /** Identifiers that resolve alike have the same meaning. */
  lemma UnfoldResolved(types: MetaTypes, x: TypeIdent, y: TypeIdent, n: nat)
    requires Acyclic(types) && Resolve(types, x) == Resolve(types, y)
    ensures Unfold(types, x, n) == Unfold(types, y, n)
  {
    ResolveTerminal(types, x);
    ResolveTerminal(types, y);
  }

  // ---------- One round

  ghost predicate Enumerates(order: seq<TypeIdent>, keys: set<TypeIdent>) {
    && (forall i, j | 0 <= i < j < |order| :: order[i] != order[j])
    && (forall x :: x in order <==> x in keys)
  }

  /** The first type of its class, in the order the types are visited. */
  ghost predicate Leads(types: MetaTypes, order: seq<TypeIdent>, k: nat) {
    && k < |order| && order[k] in types
    && forall j | 0 <= j < k :: order[j] in types && !TypeEq(types, types[order[j]], types[order[k]])
  }

  /** `order[k]` leads the class of `i`, and is another type. */
  ghost predicate LeadsOther(types: MetaTypes, order: seq<TypeIdent>, k: nat, i: TypeIdent) {
    Leads(types, order, k) && i in types && order[k] != i && TypeEq(types, types[order[k]], types[i])
  }

  /** The source's test whether a duplicate is a reference to `r` already. */
  predicate RefersTo(types: MetaTypes, i: TypeIdent, r: TypeIdent)
    requires i in types
  {
    types[i].variant.Reference? && types[i].variant.reference.type_ == r
  }

  /** `i` follows a leader that resolves to `target`, and does not refer to it yet. */
  ghost predicate Replaceable(types: MetaTypes, order: seq<TypeIdent>, i: TypeIdent, target: TypeIdent) {
    i in types && exists k: nat ::
      LeadsOther(types, order, k, i) && target == Resolve(types, order[k]) && !RefersTo(types, i, target)
  }

  /** Whatever leader `i` follows, it is a reference to that leader's resolved type. */
  ghost predicate RefersToLeader(types: MetaTypes, order: seq<TypeIdent>, i: TypeIdent)
    requires i in types
  {
    forall k: nat | LeadsOther(types, order, k, i) :: RefersTo(types, i, Resolve(types, order[k]))
  }

  /** The replacements of one round: every follower of a class that does not refer to the leader's resolved type yet. */
  ghost predicate Plan(types: MetaTypes, order: seq<TypeIdent>, idents: map<TypeIdent, TypeIdent>) {
    && (forall i | i in idents :: Replaceable(types, order, i, idents[i]))
    && (forall i | i in types && i !in idents :: RefersToLeader(types, order, i))
  }

  function Redirect(t: MetaType, r: TypeIdent): MetaType {
    t.(variant := Reference(ReferenceMeta.New(r)))
  }

  function Apply(types: MetaTypes, idents: map<TypeIdent, TypeIdent>): MetaTypes {
    map i | i in types :: if i in idents then Redirect(types[i], idents[i]) else types[i]
  }

  /** Nothing of an entry changes but its variant, and that only to a simple reference. */
  predicate OnlyReference(a: MetaType, b: MetaType) {
    || b == a
    || (&& b.form == a.form && b.schema == a.schema && b.displayName == a.displayName
        && b.redefinedBase == a.redefinedBase && b.documentation == a.documentation
        && b.variant.Reference? && !b.variant.reference.nillable
        && b.variant.reference.minOccurs == 1 && b.variant.reference.maxOccurs == Bounded(1))
  }

  ghost predicate OnlyReferences(types: MetaTypes, types': MetaTypes) {
    types'.Keys == types.Keys && forall i | i in types :: OnlyReference(types[i], types'[i])
  }

  lemma AppliedReferences(types: MetaTypes, idents: map<TypeIdent, TypeIdent>)
    ensures OnlyReferences(types, Apply(types, idents))
  {
  }

  lemma ReferencesJoin(a: MetaTypes, b: MetaTypes, c: MetaTypes)
    requires OnlyReferences(a, b) && OnlyReferences(b, c)
    ensures OnlyReferences(a, c)
  {
    forall i | i in a
      ensures OnlyReference(a[i], c[i])
    {
      assert OnlyReference(a[i], b[i]) && OnlyReference(b[i], c[i]);
    }
  }

  /** Every comparable type has a leader, at or before its own place. */
  lemma {:induction false} LeaderExists(types: MetaTypes, order: seq<TypeIdent>, m: nat) returns (k: nat)
    requires forall x | x in order :: x in types
    requires m < |order| && Comparable(types[order[m]].variant)
    ensures k <= m && Leads(types, order, k) && TypeEq(types, types[order[k]], types[order[m]])
    decreases m
  {
    TypeEqEquivalence(types, types[order[m]], types[order[m]], types[order[m]]);
    if Leads(types, order, m) {
      k := m;
    } else {
      var j :| 0 <= j < m && TypeEq(types, types[order[j]], types[order[m]]);
      TypeEqIsSameUpToReferences(types, types[order[j]], types[order[m]]);
      k := LeaderExists(types, order, j);
      TypeEqEquivalence(types, types[order[k]], types[order[j]], types[order[m]]);
    }
  }

  /** A class has one leader only. */
  lemma LeaderUnique(types: MetaTypes, order: seq<TypeIdent>, k: nat, m: nat)
    requires Leads(types, order, k) && Leads(types, order, m)
    requires TypeEq(types, types[order[k]], types[order[m]])
    ensures k == m
  {
    TypeEqEquivalence(types, types[order[k]], types[order[m]], types[order[k]]);
  }

  lemma LeaderKept(types: MetaTypes, order: seq<TypeIdent>, idents: map<TypeIdent, TypeIdent>, k: nat)
    requires Plan(types, order, idents) && Enumerates(order, types.Keys) && Leads(types, order, k)
    ensures order[k] !in idents
  {
    if order[k] in idents {
      assert Replaceable(types, order, order[k], idents[order[k]]);
      var m: nat :| LeadsOther(types, order, m, order[k]);
      LeaderUnique(types, order, m, k);
    }
  }

  /** A type equal to a simple reference is one, to a target that resolves alike. */
  lemma EqualReferences(types: MetaTypes, x: TypeIdent, y: TypeIdent)
    requires x in types && IsSimpleRef(types, y) && TypeEq(types, types[x], types[y])
    ensures IsSimpleRef(types, x) && Resolve(types, Target(types, x)) == Resolve(types, Target(types, y))
  {
  }

  /** Equal types are terminal alike, and resolve alike if they are not. */
  lemma EqualResolve(types: MetaTypes, x: TypeIdent, y: TypeIdent)
    requires Acyclic(types) && x in types && y in types && TypeEq(types, types[x], types[y])
    ensures Terminal(types, x) <==> Terminal(types, y)
    ensures !Terminal(types, y) ==> Resolve(types, x) == Resolve(types, y)
  {
    if IsSimpleRef(types, y) {
      EqualReferences(types, x, y);
      ResolveTerminal(types, Target(types, x));
      ResolveTerminal(types, Target(types, y));
      ResolveUnfolds(types, x);
      ResolveUnfolds(types, y);
    } else if IsSimpleRef(types, x) {
      TypeEqEquivalence(types, types[x], types[y], types[x]);
      EqualReferences(types, y, x);
    }
  }

  /** The leader of a terminal type is terminal, so that it resolves to itself; other followers resolve like their leader. */
  lemma LeaderResolves(types: MetaTypes, order: seq<TypeIdent>, k: nat, i: TypeIdent)
    requires Acyclic(types) && LeadsOther(types, order, k, i)
    ensures Terminal(types, i) ==> Terminal(types, order[k]) && Resolve(types, order[k]) == order[k]
    ensures !Terminal(types, i) ==> Resolve(types, order[k]) == Resolve(types, i)
  {
    EqualResolve(types, order[k], i);
    ResolveTerminal(types, order[k]);
  }

  /**
    What a plan comes to: terminal types go to an equal one that stays,
    references to what they resolve to, and nothing goes where it is already.
   */
  ghost predicate GoodTarget(types: MetaTypes, idents: map<TypeIdent, TypeIdent>, i: TypeIdent)
    requires i in idents
  {
    && i in types && idents[i] in types && !RefersTo(types, i, idents[i])
    && (Terminal(types, i) ==>
          && Terminal(types, idents[i]) && idents[i] !in idents
          && SameUpToReferences(types, types[idents[i]], types[i]))
    && (!Terminal(types, i) ==> idents[i] == Resolve(types, i))
  }

  ghost predicate Redirects(types: MetaTypes, idents: map<TypeIdent, TypeIdent>) {
    Acyclic(types) && forall i | i in idents :: GoodTarget(types, idents, i)
  }

  lemma PlanRedirects(types: MetaTypes, order: seq<TypeIdent>, idents: map<TypeIdent, TypeIdent>)
    requires Plan(types, order, idents) && Enumerates(order, types.Keys) && Acyclic(types)
    ensures Redirects(types, idents)
  {
    forall i | i in idents
      ensures GoodTarget(types, idents, i)
    {
      assert Replaceable(types, order, i, idents[i]);
      var k: nat :| LeadsOther(types, order, k, i) && idents[i] == Resolve(types, order[k]) && !RefersTo(types, i, idents[i]);
      LeaderResolves(types, order, k, i);
      ResolveTerminal(types, order[k]);
      LeaderKept(types, order, idents, k);
      TypeEqIsSameUpToReferences(types, types[order[k]], types[i]);
    }
  }

  /** What a terminal type becomes. */
  function Rep(idents: map<TypeIdent, TypeIdent>, r: TypeIdent): TypeIdent {
    if r in idents then idents[r] else r
  }

  /** Chains stay finite. */
  lemma {:induction false} ChainAfter(types: MetaTypes, idents: map<TypeIdent, TypeIdent>, i: TypeIdent, k: nat)
    requires Redirects(types, idents) && EndsIn(types, i, k)
    ensures EndsIn(Apply(types, idents), i, k + 3)
    decreases k
  {
    var types' := Apply(types, idents);
    if i in types {
      if Terminal(types, i) {
        TerminalChain(types, idents, i);
        EndsLater(types', i, 2, k + 3);
      } else if i in idents {
        assert GoodTarget(types, idents, i);
        ResolveTerminal(types, i);
        TerminalChain(types, idents, idents[i]);
        EndsLater(types', idents[i], 2, k + 2);
      } else {
        ChainAfter(types, idents, Target(types, i), k - 1);
      }
    }
  }

  lemma {:induction false} EndsLater(types: MetaTypes, i: TypeIdent, k: nat, k': nat)
    requires EndsIn(types, i, k) && k <= k'
    ensures EndsIn(types, i, k')
    decreases k
  {
    if IsSimpleRef(types, i) {
      EndsLater(types, Target(types, i), k - 1, k' - 1);
    }
  }

  lemma TerminalChain(types: MetaTypes, idents: map<TypeIdent, TypeIdent>, r: TypeIdent)
    requires Redirects(types, idents) && Terminal(types, r)
    ensures EndsIn(Apply(types, idents), r, 2)
  {
    if r in idents {
      assert GoodTarget(types, idents, r);
      KeptTerminalChain(types, idents, idents[r]);
    } else {
      KeptTerminalChain(types, idents, r);
      EndsLater(Apply(types, idents), r, 1, 2);
    }
  }

  lemma KeptTerminalChain(types: MetaTypes, idents: map<TypeIdent, TypeIdent>, r: TypeIdent)
    requires Terminal(types, r) && r !in idents
    ensures EndsIn(Apply(types, idents), r, 1) && Terminal(Apply(types, idents), r)
  {
  }

  lemma AcyclicAfter(types: MetaTypes, idents: map<TypeIdent, TypeIdent>)
    requires Redirects(types, idents)
    ensures Acyclic(Apply(types, idents))
  {
    var k: nat :| ChainsEndIn(types, k);
    var types', k' := Apply(types, idents), k + 3;
    forall i
      ensures EndsIn(types', i, k')
    {
      assert EndsIn(types, i, k);
      ChainAfter(types, idents, i, k);
    }
    assert ChainsEndIn(types', k');
  }

  /** After the round an identifier resolves to what its old type became. */
  lemma {:induction false} ResolveAfter(types: MetaTypes, idents: map<TypeIdent, TypeIdent>, i: TypeIdent, k: nat)
    requires Redirects(types, idents) && i in types && EndsIn(types, i, k)
    ensures GetResolved(Apply(types, idents), i) == Some(Rep(idents, Resolve(types, i)))
    decreases k
  {
    var types' := Apply(types, idents);
    AcyclicAfter(types, idents);
    ResolveTerminal(types, i);
    if Terminal(types, i) {
      TerminalAfter(types, idents, i);
    } else if i in idents {
      assert GoodTarget(types, idents, i);
      TerminalAfter(types, idents, idents[i]);
      ResolveUnfolds(types', i);
    } else {
      ResolveUnfolds(types', i);
      ResolveUnfolds(types, i);
      ResolveAfter(types, idents, Target(types, i), k - 1);
    }
  }

  lemma TerminalAfter(types: MetaTypes, idents: map<TypeIdent, TypeIdent>, r: TypeIdent)
    requires Redirects(types, idents) && Terminal(types, r)
    ensures GetResolved(Apply(types, idents), r) == Some(Rep(idents, r))
  {
    var types' := Apply(types, idents);
    AcyclicAfter(types, idents);
    ResolveUnfolds(types', r);
    if r in idents {
      assert GoodTarget(types, idents, r);
      KeptTerminalChain(types, idents, idents[r]);
      ResolveTerminal(types', idents[r]);
    } else {
      KeptTerminalChain(types, idents, r);
      ResolveTerminal(types', r);
    }
  }

  /** One round changes the meaning of no identifier, to no depth. */
  lemma {:induction false} MeaningKept(types: MetaTypes, idents: map<TypeIdent, TypeIdent>, i: TypeIdent, n: nat)
    requires Redirects(types, idents)
    ensures Unfold(Apply(types, idents), i, n) == Unfold(types, i, n)
    decreases n
  {
    var types' := Apply(types, idents);
    AcyclicAfter(types, idents);
    ResolveTerminal(types, i);
    ResolveTerminal(types', i);
    if n > 0 && i in types {
      var k: nat :| ChainsEndIn(types, k);
      assert EndsIn(types, i, k);
      ResolveAfter(types, idents, i, k);
      var r := Resolve(types, i);
      var r' := Rep(idents, r);
      if r in idents {
        assert GoodTarget(types, idents, r);
      }
      assert types'[r'] == types[r'];
      ChildrenKept(types, idents, r, r', n);
    }
  }

  lemma ChildrenKept(types: MetaTypes, idents: map<TypeIdent, TypeIdent>, r: TypeIdent, r': TypeIdent, n: nat)
    requires Redirects(types, idents)
    requires r in types && r' in types && n > 0
    requires r == r' || SameUpToReferences(types, types[r'], types[r])
    ensures UnfoldType(Apply(types, idents), types[r'], n) == UnfoldType(types, types[r], n)
    decreases n, 0
  {
    var types' := Apply(types, idents);
    var a, b := Idents(types[r'].variant), Idents(types[r].variant);
    var x, y := UnfoldType(types', types[r'], n).children, UnfoldType(types, types[r], n).children;
    forall k | 0 <= k < |a|
      ensures x[k] == y[k]
    {
      assert OptionEq(types, a[k], b[k]);
      if a[k].Some? {
        MeaningKept(types, idents, a[k].value, n - 1);
        UnfoldResolved(types, a[k].value, b[k].value, n - 1);
      }
    }
    assert x == y;
  }

  // ---------- Termination

  /** Entries that are no simple references. */
  ghost function Solid(types: MetaTypes): set<TypeIdent> {
    set i | i in types && !IsSimpleRef(types, i)
  }

  /** Simple references to a missing type. */
  ghost function Dangling(types: MetaTypes): set<TypeIdent> {
    set i | i in types && IsSimpleRef(types, i) && Target(types, i) !in types
  }

  /** Simple references whose target is not what they resolve to. */
  ghost function Indirect(types: MetaTypes): set<TypeIdent> {
    set i | i in types && IsIndirect(types, i)
  }

  ghost predicate IsIndirect(types: MetaTypes, i: TypeIdent) {
    IsSimpleRef(types, i) && GetResolved(types, i) != Some(Target(types, i))
  }

  /** The lexicographic measure of the loop. */
  ghost predicate Smaller(types': MetaTypes, types: MetaTypes) {
    || Solid(types') < Solid(types)
    || (Solid(types') == Solid(types) && Dangling(types') < Dangling(types))
    || (Solid(types') == Solid(types) && Dangling(types') == Dangling(types) && Indirect(types') < Indirect(types))
  }

  lemma RoundShrinks(types: MetaTypes, idents: map<TypeIdent, TypeIdent>)
    requires Redirects(types, idents) && idents != map[]
    ensures Smaller(Apply(types, idents), types)
  {
    if i :| i in idents && !IsSimpleRef(types, i) {
      assert GoodTarget(types, idents, i);
      SolidShrinks(types, idents, i);
    } else {
      forall i | i in idents
        ensures IsSimpleRef(types, i) && i in types && idents[i] in types
      {
        assert GoodTarget(types, idents, i);
      }
      if i :| i in idents && Terminal(types, i) {
        DanglingShrinks(types, idents, i);
      } else {
        var i :| i in idents;
        ReferencesShrink(types, idents, i);
      }
    }
  }

  lemma SolidShrinks(types: MetaTypes, idents: map<TypeIdent, TypeIdent>, i: TypeIdent)
    requires i in types && i in idents && !IsSimpleRef(types, i)
    ensures Solid(Apply(types, idents)) < Solid(types)
  {
    assert i in Solid(types) && i !in Solid(Apply(types, idents));
  }

  /** Replacing references only leaves the other entries as they are. */
  lemma SolidSame(types: MetaTypes, idents: map<TypeIdent, TypeIdent>)
    requires forall i | i in idents :: IsSimpleRef(types, i)
    ensures Solid(Apply(types, idents)) == Solid(types)
  {
  }

  lemma DanglingShrinks(types: MetaTypes, idents: map<TypeIdent, TypeIdent>, i: TypeIdent)
    requires forall i | i in idents :: IsSimpleRef(types, i) && idents[i] in types
    requires i in types && i in idents && Terminal(types, i)
    ensures Solid(Apply(types, idents)) == Solid(types)
    ensures Dangling(Apply(types, idents)) < Dangling(types)
  {
    SolidSame(types, idents);
    assert i in Dangling(types) && i !in Dangling(Apply(types, idents));
  }

  /** If only references inside chains are replaced, no reference starts or stops to dangle. */
  lemma DanglingSame(types: MetaTypes, idents: map<TypeIdent, TypeIdent>)
    requires forall x | x in idents :: IsSimpleRef(types, x) && !Terminal(types, x) && idents[x] in types
    ensures Dangling(Apply(types, idents)) == Dangling(types)
  {
  }

  /** All of the replaced references become direct, and none indirect. */
  lemma ReferencesShrink(types: MetaTypes, idents: map<TypeIdent, TypeIdent>, i: TypeIdent)
    requires Redirects(types, idents) && i in idents
    requires forall x | x in idents :: IsSimpleRef(types, x) && !Terminal(types, x) && idents[x] in types
    ensures Solid(Apply(types, idents)) == Solid(types)
    ensures Dangling(Apply(types, idents)) == Dangling(types)
    ensures Indirect(Apply(types, idents)) < Indirect(types)
  {
    SolidSame(types, idents);
    DanglingSame(types, idents);
    forall x | x in types
      ensures IsIndirect(Apply(types, idents), x) ==> IsIndirect(types, x) && x !in idents
      ensures x in idents ==> IsIndirect(types, x)
    {
      BecomesDirect(types, idents, x);
    }
    assert i in types && IsIndirect(types, i);
    assert i in Indirect(types) && i !in Indirect(Apply(types, idents));
  }

  lemma BecomesDirect(types: MetaTypes, idents: map<TypeIdent, TypeIdent>, x: TypeIdent)
    requires Redirects(types, idents) && x in types
    requires forall y | y in idents :: IsSimpleRef(types, y) && !Terminal(types, y)
    ensures IsIndirect(Apply(types, idents), x) ==> IsIndirect(types, x) && x !in idents
    ensures x in idents ==> IsIndirect(types, x)
  {
    var k: nat :| ChainsEndIn(types, k);
    assert EndsIn(types, x, k);
    ResolveAfter(types, idents, x, k);
    ResolveTerminal(types, x);
    if x in idents {
      assert GoodTarget(types, idents, x);
    }
  }

  // ---------- The loop

  /** No two distinct types other than references are equal any more. */
  ghost predicate NoDuplicates(types: MetaTypes) {
    forall x, y | x in types && y in types && x != y && !types[x].variant.Reference? && !types[y].variant.Reference? ::
      !TypeEq(types, types[x], types[y])
  }

  /** With nothing to replace, only references follow another type. */
  lemma OwnLeader(types: MetaTypes, order: seq<TypeIdent>, k: nat, x: TypeIdent)
    requires Plan(types, order, map[]) && Leads(types, order, k) && x in types && !types[x].variant.Reference?
    requires TypeEq(types, types[order[k]], types[x])
    ensures order[k] == x
  {
    assert RefersToLeader(types, order, x);
  }

  lemma EmptyPlan(types: MetaTypes, order: seq<TypeIdent>)
    requires Plan(types, order, map[]) && Enumerates(order, types.Keys)
    ensures NoDuplicates(types)
  {
    forall x, y | x in types && y in types && x != y && !types[x].variant.Reference? && !types[y].variant.Reference?
      ensures !TypeEq(types, types[x], types[y])
    {
      if TypeEq(types, types[x], types[y]) {
        TypeEqIsSameUpToReferences(types, types[x], types[y]);
        var m :| 0 <= m < |order| && order[m] == x;
        var k := LeaderExists(types, order, m);
        TypeEqEquivalence(types, types[order[k]], types[x], types[y]);
        OwnLeader(types, order, k, x);
        OwnLeader(types, order, k, y);
      }
    }
  }

  /** Every identifier unfolds alike, to every depth. */
  ghost predicate SameMeaning(types: MetaTypes, types': MetaTypes) {
    forall i, n: nat :: Unfold(types', i, n) == Unfold(types, i, n)
  }

  lemma RoundKeepsMeaning(types: MetaTypes, idents: map<TypeIdent, TypeIdent>)
    requires Redirects(types, idents)
    ensures SameMeaning(types, Apply(types, idents))
  {
    var types' := Apply(types, idents);
    forall i, n: nat
      ensures Unfold(types', i, n) == Unfold(types, i, n)
    {
      MeaningKept(types, idents, i, n);
    }
  }

  // ---------- One round, type by type

  /** `keys` are the places of the types in the map after `n` types: the leaders so far. */
  ghost predicate Entries(types: MetaTypes, order: seq<TypeIdent>, keys: seq<nat>, n: nat) {
    && n <= |order|
    && (forall j | 0 <= j < |keys| :: keys[j] < n && Leads(types, order, keys[j]))
    && (forall m: nat | m < n && Leads(types, order, m) && Comparable(types[order[m]].variant) :: m in keys)
  }

  /** The plan, as far as the first `n` types are concerned. */
  ghost predicate PlanTo(types: MetaTypes, order: seq<TypeIdent>, idents: map<TypeIdent, TypeIdent>, n: nat)
    requires n <= |order| && forall x | x in order :: x in types
  {
    && (forall i | i in idents :: i in order[..n] && Replaceable(types, order, i, idents[i]))
    && (forall i | i in order[..n] && i !in idents :: RefersToLeader(types, order, i))
  }

  /** All leaders of one type are the same. */
  lemma FollowerOnce(types: MetaTypes, order: seq<TypeIdent>, k: nat, m: nat, i: TypeIdent)
    requires LeadsOther(types, order, k, i) && LeadsOther(types, order, m, i)
    ensures m == k
  {
    TypeEqEquivalence(types, types[order[k]], types[i], types[order[k]]);
    TypeEqEquivalence(types, types[order[m]], types[i], types[order[k]]);
    LeaderUnique(types, order, m, k);
  }

  lemma LeaderPlanned(types: MetaTypes, order: seq<TypeIdent>, idents: map<TypeIdent, TypeIdent>, n: nat)
    requires forall x | x in order :: x in types
    requires n < |order| && PlanTo(types, order, idents, n)
    requires forall k: nat :: !LeadsOther(types, order, k, order[n])
    ensures PlanTo(types, order, idents, n + 1)
  {
    assert order[..n + 1] == order[..n] + [order[n]];
  }

  lemma FollowerKept(types: MetaTypes, order: seq<TypeIdent>, idents: map<TypeIdent, TypeIdent>, n: nat, k: nat)
    requires forall x | x in order :: x in types
    requires n < |order| && PlanTo(types, order, idents, n)
    requires LeadsOther(types, order, k, order[n]) && RefersTo(types, order[n], Resolve(types, order[k]))
    ensures PlanTo(types, order, idents, n + 1)
  {
    assert order[..n + 1] == order[..n] + [order[n]];
    forall m: nat | LeadsOther(types, order, m, order[n])
      ensures RefersTo(types, order[n], Resolve(types, order[m]))
    {
      FollowerOnce(types, order, k, m, order[n]);
    }
    assert RefersToLeader(types, order, order[n]);
  }

  lemma FollowerReplaced(types: MetaTypes, order: seq<TypeIdent>, idents: map<TypeIdent, TypeIdent>, n: nat, k: nat)
    requires forall x | x in order :: x in types
    requires n < |order| && PlanTo(types, order, idents, n) && order[n] !in order[..n]
    requires LeadsOther(types, order, k, order[n]) && !RefersTo(types, order[n], Resolve(types, order[k]))
    ensures PlanTo(types, order, idents[order[n] := Resolve(types, order[k])], n + 1)
  {
    assert order[..n + 1] == order[..n] + [order[n]];
    assert Replaceable(types, order, order[n], Resolve(types, order[k]));
  }

  lemma NotLeading(types: MetaTypes, order: seq<TypeIdent>, k: nat, n: nat)
    requires k < n < |order| && order[k] in types && order[n] in types
    requires TypeEq(types, types[order[k]], types[order[n]])
    ensures !Leads(types, order, n)
  {
  }

  /** A type equal to an entry follows it. */
  lemma Follower(types: MetaTypes, order: seq<TypeIdent>, keys: seq<nat>, n: nat, k: nat)
    requires n < |order| && Entries(types, order, keys, n) && k in keys
    requires order[k] in types && order[n] in types && order[k] != order[n]
    requires TypeEq(types, types[order[k]], types[order[n]])
    ensures LeadsOther(types, order, k, order[n])
    ensures Entries(types, order, keys, n + 1)
  {
    var j :| 0 <= j < |keys| && keys[j] == k;
    NotLeading(types, order, k, n);
  }

  lemma EntryOf(types: MetaTypes, order: seq<TypeIdent>, keys: seq<nat>, n: nat, k: nat, t: MetaType)
    requires Entries(types, order, keys, n) && k < n && Leads(types, order, k) && Comparable(types[order[k]].variant)
    requires forall j | 0 <= j < |keys| :: !TypeEq(types, types[order[keys[j]]], t)
    ensures !TypeEq(types, types[order[k]], t)
  {
    assert k in keys;
  }

  /** A type without an equal entry has no equal type before it. */
  lemma NotEarlier(types: MetaTypes, order: seq<TypeIdent>, keys: seq<nat>, n: nat, j: nat)
    requires forall x | x in order :: x in types
    requires j < n < |order| && Entries(types, order, keys, n)
    requires forall m | 0 <= m < |keys| :: !TypeEq(types, types[order[keys[m]]], types[order[n]])
    ensures !TypeEq(types, types[order[j]], types[order[n]])
  {
    if TypeEq(types, types[order[j]], types[order[n]]) {
      TypeEqIsSameUpToReferences(types, types[order[j]], types[order[n]]);
      var k := LeaderExists(types, order, j);
      TypeEqIsSameUpToReferences(types, types[order[k]], types[order[j]]);
      EntryOf(types, order, keys, n, k, types[order[n]]);
      TypeEqEquivalence(types, types[order[k]], types[order[j]], types[order[n]]);
    }
  }

  /** A type without an equal entry leads its class. */
  lemma NewLeads(types: MetaTypes, order: seq<TypeIdent>, keys: seq<nat>, n: nat)
    requires forall x | x in order :: x in types
    requires n < |order| && Entries(types, order, keys, n)
    requires forall j | 0 <= j < |keys| :: !TypeEq(types, types[order[keys[j]]], types[order[n]])
    ensures Leads(types, order, n)
  {
    forall j: nat | j < n
      ensures !TypeEq(types, types[order[j]], types[order[n]])
    {
      NotEarlier(types, order, keys, n, j);
    }
  }

  /** The leader becomes an entry. */
  lemma EntriesGrow(types: MetaTypes, order: seq<TypeIdent>, keys: seq<nat>, n: nat)
    requires n < |order| && Entries(types, order, keys, n) && Leads(types, order, n)
    ensures Entries(types, order, keys + [n], n + 1)
  {
    forall m: nat | m < n + 1 && Leads(types, order, m) && Comparable(types[order[m]].variant)
      ensures m in keys + [n]
    {
      assert m < n ==> m in keys;
    }
  }

  /** A leader follows no other type. */
  lemma LeaderFollowsNone(types: MetaTypes, order: seq<TypeIdent>, n: nat, k: nat)
    requires Leads(types, order, n)
    ensures !LeadsOther(types, order, k, order[n])
  {
    if LeadsOther(types, order, k, order[n]) {
      LeaderUnique(types, order, k, n);
    }
  }

  class Optimizer {
    var types: MetaTypes

    constructor (types: MetaTypes)
      ensures this.types == types
    {
      this.types := types;
    }

    /** The body of one iteration: a map from types to resolved identifiers finds the duplicates. */
    method FindDuplicates(order: seq<TypeIdent>) returns (idents: map<TypeIdent, TypeIdent>)
      requires Enumerates(order, types.Keys) && Acyclic(types)
      ensures Plan(types, order, idents)
    {
      var keys: seq<nat> := [];
      idents := map[];
      for n := 0 to |order|
        invariant Entries(types, order, keys, n)
        invariant PlanTo(types, order, idents, n)
      {
        var i := order[n];
        var entry := FindEntry(order, keys, types[i]);
        if entry.None? {
          NewLeads(types, order, keys, n);
          EntriesGrow(types, order, keys, n);
          forall k: nat
            ensures !LeadsOther(types, order, k, order[n])
          {
            LeaderFollowsNone(types, order, n, k);
          }
          LeaderPlanned(types, order, idents, n);
          keys := keys + [n];
        } else {
          var k := entry.value;
          Follower(types, order, keys, n, k);
          ResolveTerminal(types, order[k]);
          var r := GetResolved(types, order[k]).value;
          if RefersTo(types, i, r) {
            FollowerKept(types, order, idents, n, k);
          } else {
            FollowerReplaced(types, order, idents, n, k);
            idents := idents[i := r];
          }
        }
      }
      assert order[..|order|] == order;
    }

    /** Looking a type up in the map of types seen so far. */
    method FindEntry(order: seq<TypeIdent>, keys: seq<nat>, t: MetaType) returns (r: Option<nat>)
      requires forall j | 0 <= j < |keys| :: keys[j] < |order| && order[keys[j]] in types
      ensures r.Some? ==> r.value in keys && TypeEq(types, types[order[r.value]], t)
      ensures r.None? ==> forall j | 0 <= j < |keys| :: !TypeEq(types, types[order[keys[j]]], t)
    {
      for j := 0 to |keys|
        invariant forall m | 0 <= m < j :: !TypeEq(types, types[order[keys[m]]], t)
      {
        if TypeEq(types, types[order[keys[j]]], t) {
          return Some(keys[j]);
        }
      }
      return None;
    }

    /** Replacing the duplicates, in the unspecified order of a hash map. */
    method ReplaceAll(idents: map<TypeIdent, TypeIdent>)
      requires idents.Keys <= types.Keys
      modifies this
      ensures types == Apply(old(types), idents)
    {
      var rest := idents.Keys;
      while rest != {}
        invariant rest <= idents.Keys && types.Keys == old(types.Keys)
        invariant forall i | i in types ::
                    types[i] == if i in idents && i !in rest then Redirect(old(types)[i], idents[i]) else old(types)[i]
        decreases rest
      {
        var i :| i in rest;
        types := types[i := Redirect(types[i], idents[i])];
        rest := rest - {i};
      }
    }

    /** One iteration of the loop. */
    method Round(order: seq<TypeIdent>) returns (changed: bool)
      requires Enumerates(order, types.Keys) && Acyclic(types)
      modifies this
      ensures types.Keys == old(types.Keys) && Acyclic(types)
      ensures SameMeaning(old(types), types) && OnlyReferences(old(types), types)
      ensures if changed then Smaller(types, old(types)) else NoDuplicates(types)
    {
      var idents := FindDuplicates(order);
      changed := idents != map[];
      PlanRedirects(types, order, idents);
      if changed {
        RoundShrinks(types, idents);
      } else {
        EmptyPlan(types, order);
      }
      AcyclicAfter(types, idents);
      RoundKeepsMeaning(types, idents);
      AppliedReferences(types, idents);
      ReplaceAll(idents);
      assert idents == map[] ==> types == old(types);
    }

    /**
      `remove_duplicates`: terminates on acyclic references, in whatever order
      the types are kept, and leaves every type's meaning as it was.
     */
    method RemoveDuplicates(order: seq<TypeIdent>)
      requires Enumerates(order, types.Keys) && Acyclic(types)
      modifies this
      ensures types.Keys == old(types.Keys)
      ensures Acyclic(types) && NoDuplicates(types)
      ensures SameMeaning(old(types), types) && OnlyReferences(old(types), types)
    {
      var changed := true;
      while changed
        invariant types.Keys == old(types.Keys) && Acyclic(types)
        invariant SameMeaning(old(types), types) && OnlyReferences(old(types), types)
        invariant !changed ==> NoDuplicates(types)
        decreases changed, Solid(types), Dangling(types), Indirect(types)
      {
        ghost var before := types;
        changed := Round(order);
        ReferencesJoin(old(types), before, types);
      }
    }
  }
}
