/**
  Lists of enumeration variants without repeated identifiers, as they are built
  up with `find_or_insert` (`vec_helper.rs`).
 */
module EnumVariants {
  import opened Wrappers
  import opened Meta

  type Variant = EnumerationMetaVariant

  function NewVariant(ident: PropertyIdent, type_: Option<TypeIdent>, displayName: Option<string>): Variant {
    EnumerationMetaVariant(ident, "optional", type_, displayName, [], None)
  }

  /** A variant with everything but identifier, type and display name forgotten. */
  function Plain(v: Variant): Variant {
    NewVariant(v.ident, v.type_, v.displayName)
  }

  predicate AllPlain(vs: seq<Variant>) {
    forall v | v in vs :: v == Plain(v)
  }

  predicate HasIdent(vs: seq<Variant>, ident: PropertyIdent) {
    exists k | 0 <= k < |vs| :: vs[k].ident == ident
  }

  ghost predicate Distinct(vs: seq<Variant>) {
    forall i, j | 0 <= i < j < |vs| :: vs[i].ident != vs[j].ident
  }

  // ---------- Removing repetitions

  /** The variants whose identifier does not occur earlier, without display names. */
  function Firsts(vs: seq<Variant>): seq<Variant> {
    if vs == [] then []
    else
      var v := vs[|vs| - 1];
      var before := vs[..|vs| - 1];
      if HasIdent(before, v.ident) then Firsts(before) else Firsts(before) + [v.(displayName := None)]
  }

  /** The display name of the last variant with the identifier. */
  function LastName(vs: seq<Variant>, ident: PropertyIdent): Option<string> {
    if vs == [] then None
    else if vs[|vs| - 1].ident == ident then vs[|vs| - 1].displayName
    else LastName(vs[..|vs| - 1], ident)
  }

  /** The first variant of every identifier, with the last display name. */
  function Deduplicated(vs: seq<Variant>): (r: seq<Variant>)
    ensures |r| == |Firsts(vs)|
  {
    var firsts := Firsts(vs);
    seq(|firsts|, k requires 0 <= k < |firsts| => firsts[k].(displayName := LastName(vs, firsts[k].ident)))
  }

  lemma HasSnoc(vs: seq<Variant>, v: Variant, ident: PropertyIdent)
    ensures HasIdent(vs + [v], ident) <==> HasIdent(vs, ident) || v.ident == ident
  {
    if HasIdent(vs, ident) {
      var k :| 0 <= k < |vs| && vs[k].ident == ident;
      assert (vs + [v])[k].ident == ident;
    }
    if v.ident == ident {
      assert (vs + [v])[|vs|].ident == ident;
    }
  }

  lemma {:induction false} HasAppend(a: seq<Variant>, b: seq<Variant>, ident: PropertyIdent)
    ensures HasIdent(a + b, ident) <==> HasIdent(a, ident) || HasIdent(b, ident)
  {
    if k :| 0 <= k < |a| && a[k].ident == ident {
      assert (a + b)[k].ident == ident;
    }
    if k :| 0 <= k < |b| && b[k].ident == ident {
      assert (a + b)[|a| + k].ident == ident;
    }
  }

  lemma {:induction false} FirstsDistinct(vs: seq<Variant>, ident: PropertyIdent)
    ensures Distinct(Firsts(vs))
    ensures HasIdent(Firsts(vs), ident) <==> HasIdent(vs, ident)
    decreases |vs|
  {
    if vs != [] {
      var v := vs[|vs| - 1];
      var before := vs[..|vs| - 1];
      assert vs == before + [v];
      FirstsDistinct(before, v.ident);
      FirstsDistinct(before, ident);
      HasSnoc(before, v, ident);
      HasSnoc(Firsts(before), v.(displayName := None), ident);
    }
  }

  lemma DeduplicatedIdents(vs: seq<Variant>, ident: PropertyIdent)
    ensures Distinct(Deduplicated(vs))
    ensures HasIdent(Deduplicated(vs), ident) <==> HasIdent(vs, ident)
  {
    FirstsDistinct(vs, ident);
    var d, f := Deduplicated(vs), Firsts(vs);
    assert forall k | 0 <= k < |d| :: d[k].ident == f[k].ident;
    if k :| 0 <= k < |f| && f[k].ident == ident {
      assert d[k].ident == ident;
    }
  }

  // ---------- What the result is

  ghost predicate FirstAt(vs: seq<Variant>, i: nat, ident: PropertyIdent) {
    i < |vs| && vs[i].ident == ident && forall j | 0 <= j < i :: vs[j].ident != ident
  }

  ghost predicate LastAt(vs: seq<Variant>, i: nat, ident: PropertyIdent) {
    i < |vs| && vs[i].ident == ident && forall j | i < j < |vs| :: vs[j].ident != ident
  }

  lemma {:induction false} LastNameAt(vs: seq<Variant>, i: nat, ident: PropertyIdent)
    requires LastAt(vs, i, ident)
    ensures LastName(vs, ident) == vs[i].displayName
    decreases |vs|
  {
    if i < |vs| - 1 {
      assert vs[|vs| - 1].ident != ident;
      var before := vs[..|vs| - 1];
      assert forall j | 0 <= j < |before| :: before[j] == vs[j];
      LastNameAt(before, i, ident);
    }
  }

  /** `i` is where the identifier of the `k`-th result first occurs. */
  lemma {:induction false} FirstsAt(vs: seq<Variant>, k: nat) returns (i: nat)
    requires k < |Firsts(vs)|
    ensures FirstAt(vs, i, Firsts(vs)[k].ident) && Firsts(vs)[k] == vs[i].(displayName := None)
    ensures k < |Firsts(vs[..i + 1])| && Firsts(vs[..i + 1])[k] == Firsts(vs)[k] && |Firsts(vs[..i])| == k
    decreases |vs|
  {
    var before := vs[..|vs| - 1];
    if k < |Firsts(before)| {
      i := FirstsAt(before, k);
      assert before[..i + 1] == vs[..i + 1] && before[..i] == vs[..i];
      assert forall j | 0 <= j < |before| :: before[j] == vs[j];
    } else {
      i := |vs| - 1;
      assert vs[..i + 1] == vs;
      assert forall j | 0 <= j < |before| :: before[j] == vs[j];
    }
  }

  /**
    Every identifier once, in the order of first occurrences, with the type of
    its first and the display name of its last occurrence.
   */
  lemma DeduplicatedMeaning(vs: seq<Variant>, k: nat, first: nat, last: nat)
    requires k < |Deduplicated(vs)|
    ensures exists i :: FirstAt(vs, i, Deduplicated(vs)[k].ident)
    ensures var v := Deduplicated(vs)[k];
            && (FirstAt(vs, first, v.ident) ==> v == vs[first].(displayName := v.displayName))
            && (LastAt(vs, last, v.ident) ==> v.displayName == vs[last].displayName)
  {
    var i := FirstsAt(vs, k);
    var v := Deduplicated(vs)[k];
    assert FirstAt(vs, i, v.ident);
    if FirstAt(vs, first, v.ident) {
      assert first == i;
    }
    if LastAt(vs, last, v.ident) {
      LastNameAt(vs, last, v.ident);
    }
  }

  lemma {:induction false} FirstsGrow(vs: seq<Variant>, n: nat)
    requires n <= |vs|
    ensures |Firsts(vs[..n])| <= |Firsts(vs)|
    decreases |vs|
  {
    if n < |vs| {
      assert vs[..|vs| - 1][..n] == vs[..n];
      FirstsGrow(vs[..|vs| - 1], n);
    } else {
      assert vs[..n] == vs;
    }
  }

  lemma DeduplicatedInOrder(vs: seq<Variant>, k: nat, l: nat, i: nat, j: nat)
    requires k < l < |Deduplicated(vs)|
    requires FirstAt(vs, i, Deduplicated(vs)[k].ident) && FirstAt(vs, j, Deduplicated(vs)[l].ident)
    ensures i < j
  {
    var i' := FirstsAt(vs, k);
    var j' := FirstsAt(vs, l);
    assert i == i' && j == j';
    if j < i {
      assert vs[..i][..j + 1] == vs[..j + 1];
      FirstsGrow(vs[..i], j + 1);
    }
  }

  // ---------- One more variant

  /** How a found or a new variant gets its display name. */
  lemma DeduplicatedStep(vs: seq<Variant>, v: Variant, k: nat)
    ensures var d := Deduplicated(vs);
            && (FirstAt(d, k, v.ident) ==> Deduplicated(vs + [v]) == d[k := d[k].(displayName := v.displayName)])
            && (!HasIdent(d, v.ident) ==> Deduplicated(vs + [v]) == d + [v])
  {
    var d := Deduplicated(vs);
    var longer := vs + [v];
    assert longer[..|longer| - 1] == vs;
    DeduplicatedIdents(vs, v.ident);
    FirstsDistinct(vs, v.ident);
    var f := Firsts(vs);
    assert forall l | 0 <= l < |d| :: d[l] == f[l].(displayName := LastName(vs, f[l].ident)) && d[l].ident == f[l].ident;
    if FirstAt(d, k, v.ident) {
      assert HasIdent(d, v.ident);
      assert Firsts(longer) == f;
      forall l | 0 <= l < |d|
        ensures Deduplicated(longer)[l] == d[k := d[k].(displayName := v.displayName)][l]
      {
        if l != k {
          assert f[l].ident != f[k].ident;
        }
      }
    }
    if !HasIdent(d, v.ident) {
      assert Firsts(longer) == f + [v.(displayName := None)];
      forall l | 0 <= l < |d|
        ensures Deduplicated(longer)[l] == d[l]
      {
        assert d[l].ident != v.ident;
      }
    }
  }

  /** `find_or_insert`: the position of the identifier, after adding the new variant if there is none. */
  method FindOrInsert(variants: seq<Variant>, ident: PropertyIdent, new_: Variant) returns (r: seq<Variant>, k: nat)
    requires new_.ident == ident
    ensures FirstAt(r, k, ident)
    ensures HasIdent(variants, ident) ==> r == variants
    ensures !HasIdent(variants, ident) ==> r == variants + [new_] && k == |variants|
  {
    k := 0;
    while k < |variants|
      invariant k <= |variants|
      invariant forall j | 0 <= j < k :: variants[j].ident != ident
    {
      if variants[k].ident == ident {
        return variants, k;
      }
      k := k + 1;
    }
    r := variants + [new_];
  }

  /** Adds one variant, or renames the one that is there. */
  method InsertVariant(variants: seq<Variant>, v: Variant, ghost vs: seq<Variant>) returns (r: seq<Variant>)
    requires variants == Deduplicated(vs)
    ensures r == Deduplicated(vs + [Plain(v)])
  {
    var k;
    r, k := FindOrInsert(variants, v.ident, NewVariant(v.ident, v.type_, None));
    r := r[k := r[k].(displayName := v.displayName)];
    DeduplicatedStep(vs, Plain(v), k);
    if HasIdent(variants, v.ident) {
      assert FirstAt(variants, k, v.ident);
    } else {
      assert r == variants + [Plain(v)];
    }
  }

  // ---------- Removing repetitions piecewise

  /** Without those that have an identifier of `a`. */
  function Minus(b: seq<Variant>, a: seq<Variant>): seq<Variant> {
    if b == [] then []
    else if HasIdent(a, b[|b| - 1].ident) then Minus(b[..|b| - 1], a)
    else Minus(b[..|b| - 1], a) + [b[|b| - 1]]
  }

  lemma {:induction false} FirstsAppend(a: seq<Variant>, b: seq<Variant>)
    ensures Firsts(a + b) == Firsts(a) + Minus(Firsts(b), Firsts(a))
    decreases |b|
  {
    if b == [] {
      assert a + b == a;
    } else {
      var v := b[|b| - 1];
      var before := b[..|b| - 1];
      assert (a + b)[..|a + b| - 1] == a + before;
      FirstsAppend(a, before);
      HasAppend(a, before, v.ident);
      FirstsDistinct(a, v.ident);
      var last := v.(displayName := None);
      assert (Firsts(before) + [last])[..|Firsts(before)|] == Firsts(before);
    }
  }

  lemma {:induction false} LastNameAppend(a: seq<Variant>, b: seq<Variant>, ident: PropertyIdent)
    ensures LastName(a + b, ident) == if HasIdent(b, ident) then LastName(b, ident) else LastName(a, ident)
    decreases |b|
  {
    if b == [] {
      assert a + b == a;
    } else {
      var before := b[..|b| - 1];
      assert (a + b)[..|a + b| - 1] == a + before;
      LastNameAppend(a, before, ident);
      assert b == before + [b[|b| - 1]];
      HasSnoc(before, b[|b| - 1], ident);
    }
  }

  lemma {:induction false} FirstsOfDistinct(d: seq<Variant>)
    requires Distinct(d)
    ensures |Firsts(d)| == |d| && forall k | 0 <= k < |d| :: Firsts(d)[k] == d[k].(displayName := None)
    decreases |d|
  {
    if d != [] {
      var before := d[..|d| - 1];
      assert forall k | 0 <= k < |before| :: before[k] == d[k];
      FirstsOfDistinct(before);
    }
  }

  /** Removing repetitions forgets neither the order nor the last display names. */
  lemma DeduplicatedKeeps(vs: seq<Variant>, ident: PropertyIdent)
    ensures Firsts(Deduplicated(vs)) == Firsts(vs)
    ensures HasIdent(vs, ident) ==> LastName(Deduplicated(vs), ident) == LastName(vs, ident)
  {
    var d := Deduplicated(vs);
    DeduplicatedIdents(vs, ident);
    FirstsOfDistinct(d);
    forall k | 0 <= k < |d|
      ensures Firsts(d)[k] == Firsts(vs)[k]
    {
      var i := FirstsAt(vs, k);
    }
    assert Firsts(d) == Firsts(vs);
    if HasIdent(vs, ident) {
      var k :| 0 <= k < |d| && d[k].ident == ident;
      assert LastAt(d, k, ident);
      LastNameAt(d, k, ident);
    }
  }

  lemma DeduplicatedTwice(vs: seq<Variant>)
    ensures Deduplicated(Deduplicated(vs)) == Deduplicated(vs)
  {
    var d := Deduplicated(vs);
    forall k | 0 <= k < |d|
      ensures |Deduplicated(d)| == |d| && Deduplicated(d)[k] == d[k]
    {
      DeduplicatedKeeps(vs, d[k].ident);
      assert d[k].ident == d[k].ident && HasIdent(d, d[k].ident);
      DeduplicatedIdents(vs, d[k].ident);
    }
    if d == [] {
      DeduplicatedKeeps(vs, PropertyIdent(0, Named("")));
    }
  }

  /** Parts of a list may be replaced by lists with the same variants. */
  lemma DeduplicatedAppend(a: seq<Variant>, b: seq<Variant>, a': seq<Variant>, b': seq<Variant>)
    requires Deduplicated(a) == Deduplicated(a') && Deduplicated(b) == Deduplicated(b')
    ensures Deduplicated(a + b) == Deduplicated(a' + b')
  {
    var any := PropertyIdent(0, Named(""));
    DeduplicatedKeeps(a, any);
    DeduplicatedKeeps(a', any);
    DeduplicatedKeeps(b, any);
    DeduplicatedKeeps(b', any);
    FirstsAppend(a, b);
    FirstsAppend(a', b');
    var f := Firsts(a + b);
    assert f == Firsts(a' + b');
    forall k | 0 <= k < |f|
      ensures LastName(a + b, f[k].ident) == LastName(a' + b', f[k].ident)
    {
      assert HasIdent(f, f[k].ident);
      FirstsDistinct(a + b, f[k].ident);
      SameLastName(a, b, a', b', f[k].ident);
    }
  }

  lemma SameLastName(a: seq<Variant>, b: seq<Variant>, a': seq<Variant>, b': seq<Variant>, ident: PropertyIdent)
    requires Deduplicated(a) == Deduplicated(a') && Deduplicated(b) == Deduplicated(b')
    requires HasIdent(a + b, ident)
    ensures LastName(a + b, ident) == LastName(a' + b', ident)
  {
    HasAppend(a, b, ident);
    LastNameAppend(a, b, ident);
    LastNameAppend(a', b', ident);
    DeduplicatedIdents(a, ident);
    DeduplicatedIdents(a', ident);
    DeduplicatedIdents(b, ident);
    DeduplicatedIdents(b', ident);
    DeduplicatedKeeps(a, ident);
    DeduplicatedKeeps(a', ident);
    DeduplicatedKeeps(b, ident);
    DeduplicatedKeeps(b', ident);
  }
}
