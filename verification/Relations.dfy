/** Paths in finite relations between type identifiers, and induction over acyclic ones. */
module Relations {
  import opened Meta

  type Relation = map<TypeIdent, set<TypeIdent>>

  predicate Edge(r: Relation, x: TypeIdent, y: TypeIdent) {
    x in r && y in r[x]
  }

  /** `y` is reached from `x` over exactly `n` edges. */
  ghost predicate Steps(r: Relation, x: TypeIdent, y: TypeIdent, n: nat)
    decreases n
  {
    if n == 0 then x == y else exists z :: Edge(r, x, z) && Steps(r, z, y, n - 1)
  }

  ghost predicate Reaches(r: Relation, x: TypeIdent, y: TypeIdent) {
    exists n: nat :: Steps(r, x, y, n)
  }

  ghost predicate ReachesAfter(r: Relation, x: TypeIdent, y: TypeIdent, least: nat) {
    exists n: nat :: n >= least && Steps(r, x, y, n)
  }

  ghost predicate Acyclic(r: Relation) {
    forall x :: !ReachesAfter(r, x, x, 1)
  }

  /** Nothing reached from `x` is on a cycle. */
  ghost predicate AcyclicFrom(r: Relation, x: TypeIdent) {
    forall y | Reaches(r, x, y) :: !ReachesAfter(r, y, y, 1)
  }

  lemma {:induction false} StepsJoin(r: Relation, x: TypeIdent, y: TypeIdent, z: TypeIdent, n: nat, m: nat)
    requires Steps(r, x, y, n) && Steps(r, y, z, m)
    ensures Steps(r, x, z, n + m)
    decreases n
  {
    if n > 0 {
      var v :| Edge(r, x, v) && Steps(r, v, y, n - 1);
      StepsJoin(r, v, y, z, n - 1, m);
    }
  }

  lemma ReachesJoin(r: Relation, x: TypeIdent, y: TypeIdent, z: TypeIdent, a: nat, b: nat)
    requires ReachesAfter(r, x, y, a) && ReachesAfter(r, y, z, b)
    ensures ReachesAfter(r, x, z, a + b)
  {
    var n: nat :| n >= a && Steps(r, x, y, n);
    var m: nat :| m >= b && Steps(r, y, z, m);
    StepsJoin(r, x, y, z, n, m);
  }

  lemma EdgeReaches(r: Relation, x: TypeIdent, y: TypeIdent)
    requires Edge(r, x, y)
    ensures ReachesAfter(r, x, y, 1)
  {
    assert Steps(r, y, y, 0);
    assert Steps(r, x, y, 1);
  }

  // ---------- What lies above a type

  ghost function Targets(r: Relation): set<TypeIdent> {
    set x, y | x in r && y in r[x] :: y
  }

  /** Everything reached over at least one edge. */
  ghost function Above(r: Relation, x: TypeIdent): set<TypeIdent> {
    set y | y in Targets(r) && ReachesAfter(r, x, y, 1)
  }

  lemma {:induction false} ReachedIsTarget(r: Relation, x: TypeIdent, y: TypeIdent, n: nat)
    requires n > 0 && Steps(r, x, y, n)
    ensures y in Targets(r)
    decreases n
  {
    var z :| Edge(r, x, z) && Steps(r, z, y, n - 1);
    if n > 1 {
      ReachedIsTarget(r, z, y, n - 1);
    }
  }

  lemma AboveIsReached(r: Relation, x: TypeIdent, y: TypeIdent)
    ensures y in Above(r, x) <==> ReachesAfter(r, x, y, 1)
  {
    if n: nat :| n >= 1 && Steps(r, x, y, n) {
      ReachedIsTarget(r, x, y, n);
    }
  }

  /** Less lies above whatever is higher up and on no cycle. */
  lemma AboveShrinks(r: Relation, x: TypeIdent, y: TypeIdent)
    requires ReachesAfter(r, x, y, 1) && !ReachesAfter(r, y, y, 1)
    ensures Above(r, y) < Above(r, x)
  {
    AboveIsReached(r, x, y);
    AboveIsReached(r, y, y);
    forall z | z in Above(r, y)
      ensures z in Above(r, x)
    {
      AboveIsReached(r, y, z);
      ReachesJoin(r, x, y, z, 1, 1);
      AboveIsReached(r, x, z);
    }
  }

  /** What is one edge away is as acyclic, and has less above. */
  lemma AcyclicEdge(r: Relation, x: TypeIdent, y: TypeIdent)
    requires AcyclicFrom(r, x) && Edge(r, x, y)
    ensures AcyclicFrom(r, y) && Above(r, y) < Above(r, x)
  {
    EdgeReaches(r, x, y);
    assert Steps(r, y, y, 0);
    assert Steps(r, x, y, 1);
    assert Reaches(r, x, y);
    AboveShrinks(r, x, y);
    forall z | Reaches(r, y, z)
      ensures Reaches(r, x, z)
    {
      EdgeThenReaches(r, x, y, z);
    }
  }

  lemma EdgeThenReaches(r: Relation, x: TypeIdent, y: TypeIdent, z: TypeIdent)
    requires Edge(r, x, y) && Reaches(r, y, z)
    ensures Reaches(r, x, z)
  {
    var n: nat :| Steps(r, y, z, n);
    assert Steps(r, x, z, n + 1);
  }

  lemma ReachesSelf(r: Relation, x: TypeIdent)
    ensures Reaches(r, x, x)
  {
    assert Steps(r, x, x, 0);
  }

  lemma SmallerSet<T>(a: set<T>, b: set<T>)
    requires a < b
    ensures |a| < |b|
  {
    var x :| x in b && x !in a;
    assert a <= b - {x};
    SubsetSize(a, b - {x});
  }

  lemma {:induction false} SubsetSize<T>(a: set<T>, b: set<T>)
    requires a <= b
    ensures |a| <= |b|
    decreases |a|
  {
    if a != {} {
      var x :| x in a;
      SubsetSize(a - {x}, b - {x});
    }
  }

  lemma {:induction false} SubRelationSteps(sub: Relation, r: Relation, x: TypeIdent, y: TypeIdent, n: nat)
    requires forall a, b :: Edge(sub, a, b) ==> Edge(r, a, b)
    requires Steps(sub, x, y, n)
    ensures Steps(r, x, y, n)
    decreases n
  {
    if n > 0 {
      var z :| Edge(sub, x, z) && Steps(sub, z, y, n - 1);
      SubRelationSteps(sub, r, z, y, n - 1);
    }
  }

  lemma Apart(r: Relation, x: TypeIdent, y: TypeIdent)
    requires Reaches(r, x, y) && x != y
    ensures ReachesAfter(r, x, y, 1)
  {
    var n: nat :| Steps(r, x, y, n);
    assert n != 0;
  }
}
