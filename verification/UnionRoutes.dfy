/**
  The leaves of a union, found by following its members: each leaf is the end of
  one route, routes are ordered by the positions of the members they take, and a
  leaf is shown under the display name of the last member on its route.
 */
module UnionRoutes {
  import opened Wrappers
  import opened Occurs
  import opened Meta
  import opened Relations
  import opened TypeGraph
  import opened Unions

  /** A step from a union to the member at a position, or from a simple reference to its target. */
  datatype Hop = Hop(from: TypeIdent, position: Option<nat>, to: TypeIdent)

  type Route = seq<Hop>

  predicate IsHop(types: MetaTypes, h: Hop) {
    && h.from in types
    && match h.position
       case Some(n) =>
         && types[h.from].variant.Union? && n < |types[h.from].variant.union_.types|
         && types[h.from].variant.union_.types[n].type_ == h.to
       case None =>
         types[h.from].variant == Reference(ReferenceMeta(h.to, false, 1, Bounded(1)))
  }

  /** The hops lead from `i` on, one after the other. */
  ghost predicate IsRoute(types: MetaTypes, i: TypeIdent, r: Route) {
    && (r != [] ==> r[0].from == i)
    && (forall k | 0 <= k < |r| :: IsHop(types, r[k]))
    && (forall k | 0 < k < |r| :: r[k].from == r[k - 1].to)
  }

  function EndOf(i: TypeIdent, r: Route): TypeIdent {
    if r == [] then i else r[|r| - 1].to
  }

  /** The display name of the last member on the route. */
  function NameOn(types: MetaTypes, displayName: Option<string>, r: Route): Option<string> {
    if r == [] then displayName
    else
      var h := r[|r| - 1];
      if h.position.Some? && IsHop(types, h) then types[h.from].variant.union_.types[h.position.value].displayName
      else NameOn(types, displayName, r[..|r| - 1])
  }

  /** A route to a type that is neither a union nor a simple reference. */
  ghost predicate LeafRoute(types: MetaTypes, i: TypeIdent, r: Route) {
    IsRoute(types, i, r) && IsLeaf(types, EndOf(i, r))
  }

  /** The routes part at some union, and the first one takes an earlier member. */
  ghost predicate Before(a: Route, b: Route) {
    exists k :: PartAt(a, b, k)
  }

  ghost predicate PartAt(a: Route, b: Route, k: nat) {
    && k < |a| && k < |b| && a[..k] == b[..k]
    && a[k].position.Some? && b[k].position.Some? && a[k].position.value < b[k].position.value
  }

  ghost predicate Ordered(rs: seq<Route>) {
    forall j, k | 0 <= j < k < |rs| :: Before(rs[j], rs[k])
  }

  // ---------- One hop more

  function Via(h: Hop, rs: seq<Route>): (r: seq<Route>)
    ensures |r| == |rs|
    ensures forall k | 0 <= k < |rs| :: r[k] == [h] + rs[k]
  {
    seq(|rs|, k requires 0 <= k < |rs| => [h] + rs[k])
  }

  lemma ConsRoute(types: MetaTypes, h: Hop, r: Route)
    requires IsHop(types, h) && LeafRoute(types, h.to, r)
    ensures LeafRoute(types, h.from, [h] + r) && EndOf(h.from, [h] + r) == EndOf(h.to, r)
  {
    var all := [h] + r;
    forall k | 0 <= k < |all|
      ensures IsHop(types, all[k]) && (k > 0 ==> all[k].from == all[k - 1].to)
    {
      if k > 0 {
        assert all[k] == r[k - 1];
        assert k > 1 ==> all[k - 1] == r[k - 2];
      }
    }
  }

  lemma SplitRoute(types: MetaTypes, i: TypeIdent, r: Route)
    requires LeafRoute(types, i, r) && r != []
    ensures r[0].from == i && IsHop(types, r[0]) && LeafRoute(types, r[0].to, r[1..])
    ensures r == [r[0]] + r[1..]
  {
    var rest := r[1..];
    forall k | 0 <= k < |rest|
      ensures IsHop(types, rest[k]) && (k > 0 ==> rest[k].from == rest[k - 1].to)
    {
      assert rest[k] == r[k + 1];
      assert k > 0 ==> rest[k - 1] == r[k];
    }
    assert rest != [] ==> r[1].from == r[0].to;
  }

  lemma {:induction false} NameOnCons(types: MetaTypes, displayName: Option<string>, h: Hop, r: Route)
    requires IsHop(types, h)
    ensures NameOn(types, displayName, [h] + r) ==
              NameOn(types, if h.position.Some? then Members(types, h.from)[h.position.value].displayName else displayName, r)
    decreases |r|
  {
    var all := [h] + r;
    if r == [] {
      assert all[..0] == [];
    } else {
      NameOnCons(types, displayName, h, r[..|r| - 1]);
      assert all[..|all| - 1] == [h] + r[..|r| - 1];
      assert all[|all| - 1] == r[|r| - 1];
    }
  }

  lemma BeforeCons(h: Hop, a: Route, b: Route)
    requires Before(a, b)
    ensures Before([h] + a, [h] + b)
  {
    var k: nat :| PartAt(a, b, k);
    assert ([h] + a)[..k + 1] == [h] + a[..k] && ([h] + b)[..k + 1] == [h] + b[..k];
    assert PartAt([h] + a, [h] + b, k + 1);
  }

  lemma BeforeMember(g: Hop, h: Hop, a: Route, b: Route)
    requires g.position.Some? && h.position.Some? && g.position.value < h.position.value
    ensures Before([g] + a, [h] + b)
  {
    assert ([g] + a)[..0] == ([h] + b)[..0];
    assert PartAt([g] + a, [h] + b, 0);
  }

  lemma OrderedVia(h: Hop, rs: seq<Route>)
    requires Ordered(rs)
    ensures Ordered(Via(h, rs))
  {
    forall j, k | 0 <= j < k < |rs|
      ensures Before(Via(h, rs)[j], Via(h, rs)[k])
    {
      BeforeCons(h, rs[j], rs[k]);
    }
  }

  // ---------- The routes to all leaves

  /** `rs` are the routes from `i` to its leaves, in the order of the leaves. */
  ghost predicate Charts(types: MetaTypes, i: TypeIdent, displayName: Option<string>, rs: seq<Route>)
    requires AcyclicBelow(types, i)
  {
    && Ordered(rs) && AllCharted(types, i, displayName, rs, Leaves(types, i, displayName))
    && (forall r | LeafRoute(types, i, r) :: r in rs)
  }

  ghost predicate AllCharted(types: MetaTypes, i: TypeIdent, displayName: Option<string>, rs: seq<Route>, leaves: seq<UnionMetaType>) {
    |rs| == |leaves| && forall k | 0 <= k < |rs| :: Charted(types, i, displayName, rs[k], leaves[k])
  }

  /** The route leads to the leaf. */
  ghost predicate Charted(types: MetaTypes, i: TypeIdent, displayName: Option<string>, r: Route, t: UnionMetaType) {
    LeafRoute(types, i, r) && t == UnionMetaType(EndOf(i, r), NameOn(types, displayName, r))
  }

  lemma ChartedVia(types: MetaTypes, h: Hop, inner: Option<string>, displayName: Option<string>, r: Route, t: UnionMetaType)
    requires IsHop(types, h) && Charted(types, h.to, inner, r, t)
    requires inner == if h.position.Some? then Members(types, h.from)[h.position.value].displayName else displayName
    ensures Charted(types, h.from, displayName, [h] + r, t)
  {
    ConsRoute(types, h, r);
    NameOnCons(types, displayName, h, r);
  }

  /**
    The leaves are the ends of all routes through the members, in the order of
    the positions taken, each under the name of the last member on its route.
   */
  lemma {:induction false} LeavesInOrder(types: MetaTypes, i: TypeIdent, displayName: Option<string>) returns (rs: seq<Route>)
    requires AcyclicBelow(types, i)
    ensures Charts(types, i, displayName, rs)
    decreases Above(UnionGraph(types), i), 1, 0
  {
    if IsUnion(types, i) {
      rs := MembersInOrder(types, i, |Members(types, i)|, displayName);
      forall r | LeafRoute(types, i, r)
        ensures r in rs
      {
        SplitRoute(types, i, r);
        assert TakesBefore(r, |Members(types, i)|);
      }
    } else if IsSimpleRef(types, i) {
      rs := TargetInOrder(types, i, displayName);
    } else if i in types {
      rs := [[]];
      assert Charted(types, i, displayName, [], UnionMetaType(i, displayName));
      forall r | LeafRoute(types, i, r)
        ensures r in rs
      {
        if r != [] {
          SplitRoute(types, i, r);
        }
      }
    } else {
      rs := [];
      forall r
        ensures !LeafRoute(types, i, r)
      {
        if LeafRoute(types, i, r) && r != [] {
          SplitRoute(types, i, r);
        }
      }
    }
  }

  /** One hop before each route. */
  lemma AllChartedVia(types: MetaTypes, h: Hop, inner: Option<string>, displayName: Option<string>, rs: seq<Route>, leaves: seq<UnionMetaType>)
    requires IsHop(types, h) && AllCharted(types, h.to, inner, rs, leaves)
    requires inner == if h.position.Some? then Members(types, h.from)[h.position.value].displayName else displayName
    ensures AllCharted(types, h.from, displayName, Via(h, rs), leaves)
  {
    forall k | 0 <= k < |rs|
      ensures Charted(types, h.from, displayName, Via(h, rs)[k], leaves[k])
    {
      ChartedVia(types, h, inner, displayName, rs[k], leaves[k]);
    }
  }

  lemma AllChartedAppend(types: MetaTypes, i: TypeIdent, displayName: Option<string>,
                         rs: seq<Route>, leaves: seq<UnionMetaType>, more: seq<Route>, leaves': seq<UnionMetaType>)
    requires AllCharted(types, i, displayName, rs, leaves) && AllCharted(types, i, displayName, more, leaves')
    ensures AllCharted(types, i, displayName, rs + more, leaves + leaves')
  {
  }

  lemma {:induction false} TargetInOrder(types: MetaTypes, i: TypeIdent, displayName: Option<string>) returns (rs: seq<Route>)
    requires AcyclicBelow(types, i) && IsSimpleRef(types, i)
    ensures Charts(types, i, displayName, rs)
    decreases Above(UnionGraph(types), i), 0, 0
  {
    var h := Hop(i, None, Target(types, i));
    Down(types, i, Target(types, i));
    var inner := LeavesInOrder(types, Target(types, i), displayName);
    rs := Via(h, inner);
    OrderedVia(h, inner);
    AllChartedVia(types, h, displayName, displayName, inner, Leaves(types, i, displayName));
    forall r | LeafRoute(types, i, r)
      ensures r in rs
    {
      SplitRoute(types, i, r);
      assert r[0] == h;
      var k :| 0 <= k < |inner| && inner[k] == r[1..];
      assert rs[k] == r;
    }
  }

  /** The route starts with one of the first `n` members. */
  ghost predicate TakesBefore(r: Route, n: nat) {
    r != [] && r[0].position.Some? && r[0].position.value < n
  }

  ghost predicate AllTakeBefore(rs: seq<Route>, n: nat) {
    forall k | 0 <= k < |rs| :: TakesBefore(rs[k], n)
  }

  /** All leaf routes through the first `n` members are there. */
  ghost predicate Complete(types: MetaTypes, i: TypeIdent, n: nat, rs: seq<Route>) {
    forall r | LeafRoute(types, i, r) && TakesBefore(r, n) :: r in rs
  }

  /** The routes through the first `n` members. */
  ghost predicate ChartsMembers(types: MetaTypes, i: TypeIdent, n: nat, displayName: Option<string>, rs: seq<Route>)
    requires AcyclicBelow(types, i) && IsUnion(types, i) && n <= |Members(types, i)|
  {
    && Ordered(rs) && AllTakeBefore(rs, n) && Complete(types, i, n, rs)
    && AllCharted(types, i, displayName, rs, LeavesOf(types, i, n))
  }

  lemma {:induction false} MembersInOrder(types: MetaTypes, i: TypeIdent, n: nat, displayName: Option<string>) returns (rs: seq<Route>)
    requires AcyclicBelow(types, i) && IsUnion(types, i) && n <= |Members(types, i)|
    ensures ChartsMembers(types, i, n, displayName, rs)
    decreases Above(UnionGraph(types), i), 0, n
  {
    if n == 0 {
      rs := [];
    } else {
      var t := Members(types, i)[n - 1];
      DownMember(types, i, n - 1);
      var before := MembersInOrder(types, i, n - 1, displayName);
      var inner := LeavesInOrder(types, t.type_, t.displayName);
      rs := before + Via(Hop(i, Some(n - 1), t.type_), inner);
      OneMoreMember(types, i, n, displayName, before, inner);
    }
  }

  lemma OrderedMembers(before: seq<Route>, inner: seq<Route>, h: Hop, n: nat)
    requires Ordered(before) && Ordered(inner) && h.position == Some(n) && AllTakeBefore(before, n)
    ensures Ordered(before + Via(h, inner)) && AllTakeBefore(before + Via(h, inner), n + 1)
  {
    var more := Via(h, inner);
    var rs := before + more;
    OrderedVia(h, inner);
    forall j, k | 0 <= j < k < |rs|
      ensures Before(rs[j], rs[k])
    {
      if j < |before| <= k {
        BeforeMember(before[j][0], h, before[j][1..], inner[k - |before|]);
        assert before[j] == [before[j][0]] + before[j][1..];
      } else if k >= |before| {
        assert rs[j] == more[j - |before|] && rs[k] == more[k - |before|];
      }
    }
  }

  lemma LastMemberRoute(types: MetaTypes, i: TypeIdent, n: nat, r: Route, inner: seq<Route>)
    requires IsUnion(types, i) && 0 < n <= |Members(types, i)|
    requires LeafRoute(types, i, r) && TakesBefore(r, n) && !TakesBefore(r, n - 1)
    requires forall x | LeafRoute(types, Members(types, i)[n - 1].type_, x) :: x in inner
    ensures r in Via(Hop(i, Some(n - 1), Members(types, i)[n - 1].type_), inner)
  {
    var h := Hop(i, Some(n - 1), Members(types, i)[n - 1].type_);
    SplitRoute(types, i, r);
    assert r[0] == h;
    var rest := r[1..];
    assert LeafRoute(types, Members(types, i)[n - 1].type_, rest);
    assert rest in inner;
    var k :| 0 <= k < |inner| && inner[k] == rest;
    assert Via(h, inner)[k] == r;
  }

  lemma CompleteMembers(types: MetaTypes, i: TypeIdent, n: nat, before: seq<Route>, inner: seq<Route>)
    requires IsUnion(types, i) && 0 < n <= |Members(types, i)| && Complete(types, i, n - 1, before)
    requires forall x | LeafRoute(types, Members(types, i)[n - 1].type_, x) :: x in inner
    ensures Complete(types, i, n, before + Via(Hop(i, Some(n - 1), Members(types, i)[n - 1].type_), inner))
  {
    forall r | LeafRoute(types, i, r) && TakesBefore(r, n)
      ensures r in before + Via(Hop(i, Some(n - 1), Members(types, i)[n - 1].type_), inner)
    {
      if !TakesBefore(r, n - 1) {
        LastMemberRoute(types, i, n, r, inner);
      }
    }
  }

  lemma OneMoreMember(types: MetaTypes, i: TypeIdent, n: nat, displayName: Option<string>, before: seq<Route>, inner: seq<Route>)
    requires AcyclicBelow(types, i) && IsUnion(types, i) && 0 < n <= |Members(types, i)|
    requires ChartsMembers(types, i, n - 1, displayName, before)
    requires AcyclicBelow(types, Members(types, i)[n - 1].type_)
    requires Charts(types, Members(types, i)[n - 1].type_, Members(types, i)[n - 1].displayName, inner)
    ensures ChartsMembers(types, i, n, displayName, before + Via(Hop(i, Some(n - 1), Members(types, i)[n - 1].type_), inner))
  {
    var t := Members(types, i)[n - 1];
    var h := Hop(i, Some(n - 1), t.type_);
    var a, b := LeavesOf(types, i, n - 1), Leaves(types, t.type_, t.displayName);
    OrderedMembers(before, inner, h, n - 1);
    CompleteMembers(types, i, n, before, inner);
    AllChartedVia(types, h, t.displayName, displayName, inner, b);
    AllChartedAppend(types, i, displayName, before, a, Via(h, inner), b);
    assert LeavesOf(types, i, n) == a + b;
  }
}
