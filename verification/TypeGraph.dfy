/**
  Resolving simple references (`types.rs`) and equality of types up to
  references (`type_eq.rs` and the `TypeEq` implementations of the meta types).
 */
module TypeGraph {
  import opened Wrappers
  import opened Occurs
  import opened Meta

  // ---------- Resolving references

  predicate IsSimpleRef(types: MetaTypes, i: TypeIdent) {
    i in types && types[i].variant.Reference? && types[i].variant.reference.IsSimple()
  }

  function Target(types: MetaTypes, i: TypeIdent): TypeIdent
    requires IsSimpleRef(types, i)
  {
    types[i].variant.reference.type_
  }

  /** `get_resolved_impl`: `visited` stops at reference loops, so that every graph is resolved. */
  function GetResolvedImpl(types: MetaTypes, i: TypeIdent, visited: seq<TypeIdent>): (r: Option<TypeIdent>)
    ensures r.Some? ==> r.value in types
    decreases types.Keys - set x | x in visited
  {
    if i in visited then None
    else if i !in types then None
    else if IsSimpleRef(types, i) then
      assert (set x | x in visited + [i]) == (set x | x in visited) + {i};
      match GetResolvedImpl(types, Target(types, i), visited + [i])
      case None => Some(i)
      case Some(r) => Some(r)
    else Some(i)
  }

  /** `get_resolved_ident`. */
  function GetResolved(types: MetaTypes, i: TypeIdent): (r: Option<TypeIdent>)
    ensures r.Some? ==> r.value in types
  {
    GetResolvedImpl(types, i, [])
  }

  /** The identifier a type identifier is compared and hashed by. */
  function Resolve(types: MetaTypes, i: TypeIdent): TypeIdent {
    match GetResolved(types, i)
    case None => i
    case Some(r) => r
  }

  /** The chain of simple references from `i` ends after at most `k` of them. */
  predicate EndsIn(types: MetaTypes, i: TypeIdent, k: nat)
    decreases k
  {
    IsSimpleRef(types, i) ==> k > 0 && EndsIn(types, Target(types, i), k - 1)
  }

  /** No chain of simple references is circular: their length is bounded. */
  ghost predicate Acyclic(types: MetaTypes) {
    exists k: nat :: ChainsEndIn(types, k)
  }

  ghost predicate ChainsEndIn(types: MetaTypes, k: nat) {
    forall i :: EndsIn(types, i, k)
  }

  function Hops(types: MetaTypes, i: TypeIdent, k: nat): nat
    requires EndsIn(types, i, k)
    decreases k
  {
    if IsSimpleRef(types, i) then 1 + Hops(types, Target(types, i), k - 1) else 0
  }

  lemma {:induction false} HopsStable(types: MetaTypes, i: TypeIdent, k: nat, k': nat)
    requires EndsIn(types, i, k) && k <= k'
    ensures EndsIn(types, i, k') && Hops(types, i, k') == Hops(types, i, k)
    decreases k
  {
    if IsSimpleRef(types, i) {
      HopsStable(types, Target(types, i), k - 1, k' - 1);
    }
  }

  /** The end of a finite chain: its last reference if that one dangles. */
  function End(types: MetaTypes, i: TypeIdent, k: nat): Option<TypeIdent>
    requires EndsIn(types, i, k)
    decreases k
  {
    if i !in types then None
    else if IsSimpleRef(types, i) then
      match End(types, Target(types, i), k - 1)
      case None => Some(i)
      case Some(r) => Some(r)
    else Some(i)
  }

  /** With finite chains the `visited` list never stops the search. */
  lemma {:induction false} ResolvedIsEnd(types: MetaTypes, i: TypeIdent, visited: seq<TypeIdent>, k: nat)
    requires ChainsEndIn(types, k)
    requires forall v | v in visited :: Hops(types, v, k) > Hops(types, i, k)
    ensures GetResolvedImpl(types, i, visited) == End(types, i, k)
    decreases Hops(types, i, k)
  {
    if IsSimpleRef(types, i) {
      var t := Target(types, i);
      assert EndsIn(types, i, k);
      HopsStable(types, t, k - 1, k);
      assert forall v | v in visited + [i] :: Hops(types, v, k) > Hops(types, t, k);
      ResolvedIsEnd(types, t, visited + [i], k);
      EndStable(types, t, k - 1, k);
    }
  }

  lemma {:induction false} EndStable(types: MetaTypes, i: TypeIdent, k: nat, k': nat)
    requires EndsIn(types, i, k) && EndsIn(types, i, k') && k <= k'
    ensures End(types, i, k) == End(types, i, k')
    decreases k
  {
    if IsSimpleRef(types, i) {
      EndStable(types, Target(types, i), k - 1, k' - 1);
    }
  }

  /** On acyclic references, resolving follows the chain one reference at a time. */
  lemma ResolveUnfolds(types: MetaTypes, i: TypeIdent)
    requires Acyclic(types)
    ensures IsSimpleRef(types, i) ==>
              GetResolved(types, i) ==
                (if GetResolved(types, Target(types, i)).None? then Some(i) else GetResolved(types, Target(types, i)))
    ensures i in types && !IsSimpleRef(types, i) ==> GetResolved(types, i) == Some(i)
    ensures i !in types ==> GetResolved(types, i) == None
  {
    var k: nat :| ChainsEndIn(types, k);
    ResolvedIsEnd(types, i, [], k);
    if IsSimpleRef(types, i) {
      ResolvedIsEnd(types, Target(types, i), [], k);
      assert EndsIn(types, i, k) && EndsIn(types, Target(types, i), k);
      EndStable(types, Target(types, i), k - 1, k);
    }
  }

  /** `r` resolves to itself: it is no simple reference, or one to a missing type. */
  predicate Terminal(types: MetaTypes, r: TypeIdent) {
    r in types && (IsSimpleRef(types, r) ==> Target(types, r) !in types)
  }

  /** A resolved identifier is known and terminal, and resolves to itself. */
  lemma {:induction false} ResolveTerminal(types: MetaTypes, i: TypeIdent)
    requires Acyclic(types)
    ensures GetResolved(types, i).Some? <==> i in types
    ensures i in types ==> Terminal(types, Resolve(types, i))
    ensures Resolve(types, Resolve(types, i)) == Resolve(types, i)
    ensures Terminal(types, i) ==> Resolve(types, i) == i
  {
    var k: nat :| ChainsEndIn(types, k);
    ResolveTerminalIn(types, i, k);
    ResolveUnfolds(types, i);
    if IsSimpleRef(types, i) {
      ResolveUnfolds(types, Target(types, i));
    }
    if i in types {
      var r := Resolve(types, i);
      ResolveUnfolds(types, r);
      if IsSimpleRef(types, r) {
        ResolveUnfolds(types, Target(types, r));
      }
    }
  }

  lemma {:induction false} ResolveTerminalIn(types: MetaTypes, i: TypeIdent, k: nat)
    requires ChainsEndIn(types, k)
    ensures GetResolved(types, i).Some? <==> i in types
    ensures i in types ==> Terminal(types, Resolve(types, i))
    decreases Hops(types, i, k)
  {
    ResolveUnfolds(types, i);
    if IsSimpleRef(types, i) {
      assert EndsIn(types, i, k);
      HopsStable(types, Target(types, i), k - 1, k);
      ResolveTerminalIn(types, Target(types, i), k);
    }
  }

  // ---------- Content of complex types

  /** `content_meta`: the content type of a complex type, behind references. */
  function ContentMeta(types: MetaTypes, ci: ComplexMeta): Option<MetaType> {
    if ci.content.None? then None
    else
      match GetResolved(types, ci.content.value)
      case None => None
      case Some(r) => Some(types[r])
  }

  /** A complex type whose content is a group. */
  predicate HasComplexContent(types: MetaTypes, i: TypeIdent) {
    && i in types && types[i].variant.ComplexType?
    && var content := ContentMeta(types, types[i].variant.complex);
       content.Some? && content.value.variant.IsGroup()
  }

  /** A complex type whose content is a choice. */
  predicate HasComplexChoiceContent(types: MetaTypes, i: TypeIdent) {
    && i in types && types[i].variant.ComplexType?
    && var content := ContentMeta(types, types[i].variant.complex);
       content.Some? && content.value.variant.Choice?
  }

  // ---------- Chains of references

  /** Each type of the list is a reference to the next: a single one that is not nillable. */
  ghost predicate RefChain(types: MetaTypes, path: seq<TypeIdent>) {
    path != [] && forall k | 0 <= k < |path| - 1 :: RefersOn(types, path[k], path[k + 1])
  }

  predicate RefersOn(types: MetaTypes, x: TypeIdent, y: TypeIdent) {
    x in types && types[x].variant == Reference(ReferenceMeta(y, false, 1, Bounded(1)))
  }

  lemma SimpleRefersOn(types: MetaTypes, x: TypeIdent, y: TypeIdent)
    ensures RefersOn(types, x, y) <==> IsSimpleRef(types, x) && Target(types, x) == y
  {
  }

  /** Simple references lead from `i` to `g`. */
  ghost predicate LeadsTo(types: MetaTypes, i: TypeIdent, g: TypeIdent) {
    exists path :: RefChain(types, path) && path[0] == i && path[|path| - 1] == g
  }

  /** The same way leads on from the same type. */
  lemma {:induction false} ChainRepeats(types: MetaTypes, path: seq<TypeIdent>, a: nat, b: nat, n: nat)
    requires RefChain(types, path) && a < b && b + n < |path| && path[a] == path[b]
    ensures path[a + n] == path[b + n]
    decreases n
  {
    if n > 0 {
      ChainRepeats(types, path, a, b, n - 1);
      assert RefersOn(types, path[a + n - 1], path[a + n]) && RefersOn(types, path[b + n - 1], path[b + n]);
    }
  }

  /** A chain that ends at something else than a simple reference visits nothing twice. */
  lemma ChainDistinct(types: MetaTypes, path: seq<TypeIdent>, a: nat, b: nat)
    requires RefChain(types, path) && !IsSimpleRef(types, path[|path| - 1]) && a < b < |path|
    ensures path[a] != path[b]
  {
    var k := a + (|path| - 1 - b);
    assert RefersOn(types, path[k], path[k + 1]);
    if path[a] == path[b] {
      ChainRepeats(types, path, a, b, |path| - 1 - b);
    }
  }

  lemma {:induction false} ChainResolves(types: MetaTypes, path: seq<TypeIdent>, k: nat)
    requires RefChain(types, path) && k < |path|
    requires path[|path| - 1] in types && !IsSimpleRef(types, path[|path| - 1])
    ensures GetResolvedImpl(types, path[k], path[..k]) == Some(path[|path| - 1])
    decreases |path| - k
  {
    forall a | 0 <= a < k
      ensures path[a] != path[k]
    {
      ChainDistinct(types, path, a, k);
    }
    if k < |path| - 1 {
      ChainResolves(types, path, k + 1);
      assert RefersOn(types, path[k], path[k + 1]);
      assert path[..k + 1] == path[..k] + [path[k]];
    }
  }

  lemma {:induction false} ResolvedByChain(types: MetaTypes, i: TypeIdent, visited: seq<TypeIdent>)
    requires GetResolvedImpl(types, i, visited).Some?
    ensures LeadsTo(types, i, GetResolvedImpl(types, i, visited).value)
    decreases types.Keys - set x | x in visited
  {
    var g := GetResolvedImpl(types, i, visited).value;
    if IsSimpleRef(types, i) && g != i {
      assert (set x | x in visited + [i]) == (set x | x in visited) + {i};
      ResolvedByChain(types, Target(types, i), visited + [i]);
      var path :| RefChain(types, path) && path[0] == Target(types, i) && path[|path| - 1] == g;
      ChainCons(types, i, path);
    } else {
      assert RefChain(types, [i]);
    }
  }

  lemma ChainCons(types: MetaTypes, i: TypeIdent, path: seq<TypeIdent>)
    requires IsSimpleRef(types, i) && RefChain(types, path) && path[0] == Target(types, i)
    ensures LeadsTo(types, i, path[|path| - 1])
  {
    var longer := [i] + path;
    forall k | 0 <= k < |longer| - 1
      ensures RefersOn(types, longer[k], longer[k + 1])
    {
      SimpleRefersOn(types, i, path[0]);
      if k > 0 {
        assert longer[k] == path[k - 1] && longer[k + 1] == path[k];
      }
    }
    assert RefChain(types, longer);
  }

  /** On every graph, resolving ends at a type that is no simple reference exactly if such references lead there. */
  lemma ResolvesIff(types: MetaTypes, i: TypeIdent, g: TypeIdent)
    requires g in types && !IsSimpleRef(types, g)
    ensures GetResolved(types, i) == Some(g) <==> LeadsTo(types, i, g)
  {
    if GetResolved(types, i) == Some(g) {
      ResolvedByChain(types, i, []);
    }
    if LeadsTo(types, i, g) {
      var path :| RefChain(types, path) && path[0] == i && path[|path| - 1] == g;
      ChainResolves(types, path, 0);
      assert path[..0] == [];
    }
  }

  /** The passes over complex types list exactly those whose content is a group, or a choice, or leads to one. */
  lemma ListedIff(types: MetaTypes, i: TypeIdent)
    ensures HasComplexContent(types, i) <==>
              && i in types && types[i].variant.ComplexType? && types[i].variant.complex.content.Some?
              && exists g :: g in types && (types[g].variant.All? || types[g].variant.Choice? || types[g].variant.Sequence?)
                             && LeadsTo(types, types[i].variant.complex.content.value, g)
    ensures HasComplexChoiceContent(types, i) <==>
              && i in types && types[i].variant.ComplexType? && types[i].variant.complex.content.Some?
              && exists g :: g in types && types[g].variant.Choice? && LeadsTo(types, types[i].variant.complex.content.value, g)
  {
    if i in types && types[i].variant.ComplexType? && types[i].variant.complex.content.Some? {
      var t := types[i].variant.complex.content.value;
      forall g | g in types && !types[g].variant.Reference?
        ensures GetResolved(types, t) == Some(g) <==> LeadsTo(types, t, g)
      {
        ResolvesIff(types, t, g);
      }
    }
  }

  /** In particular, a type with a group of its own as content is listed. */
  lemma DirectContentListed(types: MetaTypes, i: TypeIdent)
    requires i in types && types[i].variant.ComplexType? && types[i].variant.complex.content.Some?
    requires var t := types[i].variant.complex.content.value;
             t in types && (types[t].variant.All? || types[t].variant.Choice? || types[t].variant.Sequence?)
    ensures HasComplexContent(types, i)
    ensures types[types[i].variant.complex.content.value].variant.Choice? ==> HasComplexChoiceContent(types, i)
  {
    assert RefChain(types, [types[i].variant.complex.content.value]);
    ListedIff(types, i);
  }

  // ---------- Equality of types, implementation by implementation

  predicate IdentEq(types: MetaTypes, x: TypeIdent, y: TypeIdent) {
    Resolve(types, x) == Resolve(types, y)
  }

  predicate OptionEq(types: MetaTypes, x: Option<TypeIdent>, y: Option<TypeIdent>) {
    match (x, y)
    case (Some(a), Some(b)) => IdentEq(types, a, b)
    case (None, None) => true
    case (_, _) => false
  }

  predicate BaseEq(types: MetaTypes, x: Base, y: Base) {
    match (x, y)
    case (NoBase, NoBase) => true
    case (Extension(a), Extension(b)) => IdentEq(types, a, b)
    case (Restriction(a), Restriction(b)) => IdentEq(types, a, b)
    case (_, _) => false
  }

  predicate UnionTypeEq(types: MetaTypes, x: UnionMetaType, y: UnionMetaType) {
    IdentEq(types, x.type_, y.type_) && x.displayName == y.displayName
  }

  predicate EnumVariantEq(types: MetaTypes, x: EnumerationMetaVariant, y: EnumerationMetaVariant) {
    && x.ident == y.ident && x.use_ == y.use_ && OptionEq(types, x.type_, y.type_)
    && x.displayName == y.displayName && x.documentation == y.documentation && x.namespaces == y.namespaces
  }

  predicate DerivedEq(types: MetaTypes, x: DerivedTypeMeta, y: DerivedTypeMeta) {
    IdentEq(types, x.type_, y.type_) && x.displayName == y.displayName
  }

  /** The source has no case for two text elements. */
  predicate ElementVariantEq(types: MetaTypes, x: ElementMetaVariant, y: ElementMetaVariant) {
    match (x, y)
    case (Any(a), Any(b)) => a == b
    case (Typed(a, m), Typed(b, n)) => m == n && IdentEq(types, a, b)
    case (_, _) => false
  }

  predicate ElementEq(types: MetaTypes, x: ElementMeta, y: ElementMeta) {
    && x.ident == y.ident && ElementVariantEq(types, x.variant, y.variant)
    && x.form == y.form && x.nillable == y.nillable
    && x.minOccurs == y.minOccurs && x.maxOccurs == y.maxOccurs
    && x.displayName == y.displayName && x.documentation == y.documentation
  }

  predicate AttributeVariantEq(types: MetaTypes, x: AttributeMetaVariant, y: AttributeMetaVariant) {
    match (x, y)
    case (AnyAttribute(a), AnyAttribute(b)) => a == b
    case (AttributeType(a), AttributeType(b)) => IdentEq(types, a, b)
    case (_, _) => false
  }

  predicate AttributeEq(types: MetaTypes, x: AttributeMeta, y: AttributeMeta) {
    && x.ident == y.ident && AttributeVariantEq(types, x.variant, y.variant)
    && x.use_ == y.use_ && x.form == y.form && x.default == y.default
    && x.displayName == y.displayName && x.documentation == y.documentation && x.namespaces == y.namespaces
  }

  /** `type_eq_iter`. */
  predicate ListEq<T(!new)>(xs: seq<T>, ys: seq<T>, eq: (T, T) -> bool) {
    |xs| == |ys| && forall i | 0 <= i < |xs| :: eq(xs[i], ys[i])
  }

  /** The loop of the source over two iterators. */
  method TypeEqIter<T(!new)>(xs: seq<T>, ys: seq<T>, eq: (T, T) -> bool) returns (r: bool)
    ensures r <==> ListEq(xs, ys, eq)
  {
    var i := 0;
    while true
      invariant i <= |xs| && i <= |ys|
      invariant forall j | 0 <= j < i :: eq(xs[j], ys[j])
      decreases |xs| - i
    {
      if i == |xs| && i == |ys| {
        return true;
      } else if i < |xs| && i < |ys| {
        if !eq(xs[i], ys[i]) {
          return false;
        }
        i := i + 1;
      } else {
        return false;
      }
    }
  }

  predicate GroupEq(types: MetaTypes, x: GroupMeta, y: GroupMeta) {
    x.isMixed == y.isMixed && ListEq(x.elements, y.elements, (a, b) => ElementEq(types, a, b))
  }

  predicate VariantEq(types: MetaTypes, x: MetaTypeVariant, y: MetaTypeVariant) {
    match (x, y)
    case (Union(a), Union(b)) =>
      BaseEq(types, a.base, b.base) && ListEq(a.types, b.types, (p, q) => UnionTypeEq(types, p, q))
      && a.constrains == b.constrains
    case (BuildIn(a), BuildIn(b)) => a == b
    case (Reference(a), Reference(b)) =>
      IdentEq(types, a.type_, b.type_) && a.nillable == b.nillable
      && a.minOccurs == b.minOccurs && a.maxOccurs == b.maxOccurs
    case (Enumeration(a), Enumeration(b)) =>
      BaseEq(types, a.base, b.base) && ListEq(a.variants, b.variants, (p, q) => EnumVariantEq(types, p, q))
      && a.constrains == b.constrains
    case (Dynamic(a), Dynamic(b)) =>
      OptionEq(types, a.type_, b.type_) && ListEq(a.derivedTypes, b.derivedTypes, (p, q) => DerivedEq(types, p, q))
    case (All(a), All(b)) => GroupEq(types, a, b)
    case (Choice(a), Choice(b)) => GroupEq(types, a, b)
    case (Sequence(a), Sequence(b)) => GroupEq(types, a, b)
    case (ComplexType(a), ComplexType(b)) =>
      && BaseEq(types, a.base, b.base) && OptionEq(types, a.content, b.content)
      && a.minOccurs == b.minOccurs && a.maxOccurs == b.maxOccurs
      && a.isDynamic == b.isDynamic && a.isMixed == b.isMixed
      && ListEq(a.attributes, b.attributes, (p, q) => AttributeEq(types, p, q))
    case (SimpleType(a), SimpleType(b)) =>
      IdentEq(types, a.base, b.base) && a.isList == b.isList && a.constrains == b.constrains
    case (_, _) => false
  }

  /** `MetaType::type_eq`. */
  predicate TypeEq(types: MetaTypes, x: MetaType, y: MetaType) {
    x.displayName == y.displayName && VariantEq(types, x.variant, y.variant)
  }

  // ---------- What the equality amounts to

  /** Stands for an identifier whose identity is left open. */
  function Blank(): TypeIdent {
    TypeIdent(UNKNOWN, UNKNOWN, Named(""), Type)
  }

  function BaseIdent(b: Base): Option<TypeIdent> {
    match b
    case NoBase => None
    case Extension(i) => Some(i)
    case Restriction(i) => Some(i)
  }

  function BlankBase(b: Base): Base {
    match b
    case NoBase => NoBase
    case Extension(_) => Extension(Blank())
    case Restriction(_) => Restriction(Blank())
  }

  function BlankOption(o: Option<TypeIdent>): Option<TypeIdent> {
    if o.None? then None else Some(Blank())
  }

  function UnionTypeIdent(t: UnionMetaType): Option<TypeIdent> {
    Some(t.type_)
  }

  function BlankUnionType(t: UnionMetaType): UnionMetaType {
    t.(type_ := Blank())
  }

  function EnumVariantIdent(x: EnumerationMetaVariant): Option<TypeIdent> {
    x.type_
  }

  function BlankEnumVariant(x: EnumerationMetaVariant): EnumerationMetaVariant {
    x.(type_ := BlankOption(x.type_))
  }

  function DerivedIdent(x: DerivedTypeMeta): Option<TypeIdent> {
    Some(x.type_)
  }

  function BlankDerived(x: DerivedTypeMeta): DerivedTypeMeta {
    x.(type_ := Blank())
  }

  function ElementIdent(e: ElementMeta): Option<TypeIdent> {
    if e.variant.Typed? then Some(e.variant.type_) else None
  }

  function BlankElement(e: ElementMeta): ElementMeta {
    if e.variant.Typed? then e.(variant := e.variant.(type_ := Blank())) else e
  }

  function AttributeIdent(a: AttributeMeta): Option<TypeIdent> {
    if a.variant.AttributeType? then Some(a.variant.type_) else None
  }

  function BlankAttribute(a: AttributeMeta): AttributeMeta {
    if a.variant.AttributeType? then a.(variant := AttributeType(Blank())) else a
  }

  function MapSeq<A, B>(xs: seq<A>, f: A -> B): (ys: seq<B>)
    ensures |ys| == |xs|
    ensures forall i | 0 <= i < |xs| :: ys[i] == f(xs[i])
  {
    seq(|xs|, i requires 0 <= i < |xs| => f(xs[i]))
  }

  /** The identifiers a type refers to, in order of appearance; None where an item names no type. */
  function Idents(v: MetaTypeVariant): seq<Option<TypeIdent>> {
    match v
    case Union(u) => [BaseIdent(u.base)] + MapSeq(u.types, UnionTypeIdent)
    case BuildIn(_) => []
    case Custom(_) => []
    case Reference(r) => [Some(r.type_)]
    case Enumeration(e) => [BaseIdent(e.base)] + MapSeq(e.variants, EnumVariantIdent)
    case Dynamic(d) => [d.type_] + MapSeq(d.derivedTypes, DerivedIdent)
    case All(g) => MapSeq(g.elements, ElementIdent)
    case Choice(g) => MapSeq(g.elements, ElementIdent)
    case Sequence(g) => MapSeq(g.elements, ElementIdent)
    case ComplexType(c) => [BaseIdent(c.base), c.content] + MapSeq(c.attributes, AttributeIdent)
    case SimpleType(s) => [Some(s.base)]
  }

  /** Everything else a type says. */
  function Shape(v: MetaTypeVariant): MetaTypeVariant {
    match v
    case Union(u) =>
      Union(u.(base := BlankBase(u.base), types := MapSeq(u.types, BlankUnionType)))
    case BuildIn(_) => v
    case Custom(_) => v
    case Reference(r) => Reference(r.(type_ := Blank()))
    case Enumeration(e) =>
      MetaTypeVariant.Enumeration(e.(base := BlankBase(e.base),
                     variants := MapSeq(e.variants, BlankEnumVariant)))
    case Dynamic(d) =>
      Dynamic(DynamicMeta(BlankOption(d.type_),
                          MapSeq(d.derivedTypes, BlankDerived)))
    case All(g) => All(g.(elements := MapSeq(g.elements, BlankElement)))
    case Choice(g) => Choice(g.(elements := MapSeq(g.elements, BlankElement)))
    case Sequence(g) => Sequence(g.(elements := MapSeq(g.elements, BlankElement)))
    case ComplexType(c) =>
      ComplexType(c.(base := BlankBase(c.base), content := BlankOption(c.content),
                     attributes := MapSeq(c.attributes, BlankAttribute)))
    case SimpleType(s) => SimpleType(s.(base := Blank()))
  }

  /** Custom types and groups with a text element are not even equal to themselves. */
  predicate Comparable(v: MetaTypeVariant) {
    !v.Custom? && (v.IsGroup() ==> forall i | 0 <= i < |v.group.elements| :: !v.group.elements[i].variant.Text?)
  }

  /** The same identifiers, reference by reference. */
  predicate SameIdents(types: MetaTypes, xs: seq<Option<TypeIdent>>, ys: seq<Option<TypeIdent>>) {
    |xs| == |ys| && forall i | 0 <= i < |xs| :: OptionEq(types, xs[i], ys[i])
  }

  /** Type equality is equality of everything but the identifiers, and of what the identifiers resolve to. */
  ghost predicate SameUpToReferences(types: MetaTypes, x: MetaType, y: MetaType) {
    && x.displayName == y.displayName && Comparable(x.variant)
    && Shape(x.variant) == Shape(y.variant) && SameIdents(types, Idents(x.variant), Idents(y.variant))
  }

  // ---------- The two views agree

  lemma BaseViews(types: MetaTypes, x: Base, y: Base)
    ensures BaseEq(types, x, y) <==> BlankBase(x) == BlankBase(y) && OptionEq(types, BaseIdent(x), BaseIdent(y))
  {
  }

  /** A list is equal item by item if each item is. */
  lemma PointwiseViews<T(!new)>(types: MetaTypes, xs: seq<T>, ys: seq<T>, eq: (T, T) -> bool,
                                shape: T -> T, ident: T -> Option<TypeIdent>, ok: T -> bool)
    requires forall p, q :: eq(p, q) <==> ok(p) && shape(p) == shape(q) && OptionEq(types, ident(p), ident(q))
    ensures ListEq(xs, ys, eq) <==>
              && (forall i | 0 <= i < |xs| :: ok(xs[i]))
              && MapSeq(xs, shape) == MapSeq(ys, shape)
              && SameIdents(types, MapSeq(xs, ident), MapSeq(ys, ident))
  {
    var a, b := MapSeq(xs, shape), MapSeq(ys, shape);
    var c, d := MapSeq(xs, ident), MapSeq(ys, ident);
    if ListEq(xs, ys, eq) {
      assert forall i | 0 <= i < |xs| :: eq(xs[i], ys[i]);
      assert a == b;
      assert SameIdents(types, c, d);
    }
    if (forall i | 0 <= i < |xs| :: ok(xs[i])) && a == b && SameIdents(types, c, d) {
      assert |xs| == |a| == |b| == |ys|;
      forall i | 0 <= i < |xs|
        ensures eq(xs[i], ys[i])
      {
        assert a[i] == b[i] && OptionEq(types, c[i], d[i]);
      }
    }
  }

  lemma SameIdentsAppend(types: MetaTypes, a: seq<Option<TypeIdent>>, b: seq<Option<TypeIdent>>,
                         xs: seq<Option<TypeIdent>>, ys: seq<Option<TypeIdent>>)
    requires |a| == |b|
    ensures SameIdents(types, a + xs, b + ys) <==> SameIdents(types, a, b) && SameIdents(types, xs, ys)
  {
    if SameIdents(types, a + xs, b + ys) {
      forall i | 0 <= i < |a|
        ensures OptionEq(types, a[i], b[i])
      {
        assert OptionEq(types, (a + xs)[i], (b + ys)[i]);
      }
      forall i | 0 <= i < |xs|
        ensures OptionEq(types, xs[i], ys[i])
      {
        assert OptionEq(types, (a + xs)[|a| + i], (b + ys)[|a| + i]);
      }
    }
  }

  lemma GroupViews(types: MetaTypes, x: GroupMeta, y: GroupMeta)
    ensures GroupEq(types, x, y) <==>
              && (forall i | 0 <= i < |x.elements| :: !x.elements[i].variant.Text?)
              && x.(elements := MapSeq(x.elements, BlankElement)) == y.(elements := MapSeq(y.elements, BlankElement))
              && SameIdents(types, MapSeq(x.elements, ElementIdent), MapSeq(y.elements, ElementIdent))
  {
    PointwiseViews(types, x.elements, y.elements, (a, b) => ElementEq(types, a, b), BlankElement, ElementIdent,
                   (e: ElementMeta) => !e.variant.Text?);
  }

  lemma SingleIdent(types: MetaTypes, x: Option<TypeIdent>, y: Option<TypeIdent>)
    ensures SameIdents(types, [x], [y]) <==> OptionEq(types, x, y)
  {
    assert SameIdents(types, [x], [y]) ==> OptionEq(types, [x][0], [y][0]);
  }

  lemma UnionViews(types: MetaTypes, a: UnionMeta, b: UnionMeta)
    ensures VariantEq(types, Union(a), Union(b)) <==>
              Shape(Union(a)) == Shape(Union(b)) && SameIdents(types, Idents(Union(a)), Idents(Union(b)))
  {
    BaseViews(types, a.base, b.base);
    PointwiseViews(types, a.types, b.types, (p, q) => UnionTypeEq(types, p, q), BlankUnionType, UnionTypeIdent, p => true);
    SameIdentsAppend(types, [BaseIdent(a.base)], [BaseIdent(b.base)],
                     MapSeq(a.types, UnionTypeIdent), MapSeq(b.types, UnionTypeIdent));
    SingleIdent(types, BaseIdent(a.base), BaseIdent(b.base));
  }

  lemma EnumerationViews(types: MetaTypes, a: EnumerationMeta, b: EnumerationMeta)
    ensures var x, y := MetaTypeVariant.Enumeration(a), MetaTypeVariant.Enumeration(b);
            VariantEq(types, x, y) <==> Shape(x) == Shape(y) && SameIdents(types, Idents(x), Idents(y))
  {
    BaseViews(types, a.base, b.base);
    PointwiseViews(types, a.variants, b.variants, (p, q) => EnumVariantEq(types, p, q), BlankEnumVariant,
                   EnumVariantIdent, p => true);
    SameIdentsAppend(types, [BaseIdent(a.base)], [BaseIdent(b.base)],
                     MapSeq(a.variants, EnumVariantIdent), MapSeq(b.variants, EnumVariantIdent));
    SingleIdent(types, BaseIdent(a.base), BaseIdent(b.base));
  }

  lemma DynamicViews(types: MetaTypes, a: DynamicMeta, b: DynamicMeta)
    ensures VariantEq(types, Dynamic(a), Dynamic(b)) <==>
              Shape(Dynamic(a)) == Shape(Dynamic(b)) && SameIdents(types, Idents(Dynamic(a)), Idents(Dynamic(b)))
  {
    PointwiseViews(types, a.derivedTypes, b.derivedTypes, (p, q) => DerivedEq(types, p, q), BlankDerived, DerivedIdent,
                   p => true);
    SameIdentsAppend(types, [a.type_], [b.type_],
                     MapSeq(a.derivedTypes, DerivedIdent), MapSeq(b.derivedTypes, DerivedIdent));
    SingleIdent(types, a.type_, b.type_);
  }

  lemma ComplexViews(types: MetaTypes, x: MetaTypeVariant, y: MetaTypeVariant)
    requires x.ComplexType? && y.ComplexType?
    ensures VariantEq(types, x, y) <==> Shape(x) == Shape(y) && SameIdents(types, Idents(x), Idents(y))
  {
    var a, b := x.complex, y.complex;
    BaseViews(types, a.base, b.base);
    PointwiseViews(types, a.attributes, b.attributes, (p, q) => AttributeEq(types, p, q), BlankAttribute, AttributeIdent,
                   p => true);
    var c, d := [BaseIdent(a.base), a.content], [BaseIdent(b.base), b.content];
    SameIdentsAppend(types, c, d, MapSeq(a.attributes, AttributeIdent), MapSeq(b.attributes, AttributeIdent));
    assert SameIdents(types, c, d) <==> OptionEq(types, c[0], d[0]) && OptionEq(types, c[1], d[1]);
  }

  /** Numbers the kinds of types. */
  function Tag(v: MetaTypeVariant): nat {
    match v
    case Union(_) => 0
    case BuildIn(_) => 1
    case Custom(_) => 2
    case Reference(_) => 3
    case Enumeration(_) => 4
    case Dynamic(_) => 5
    case All(_) => 6
    case Choice(_) => 7
    case Sequence(_) => 8
    case ComplexType(_) => 9
    case SimpleType(_) => 10
  }

  lemma TagsAgree(types: MetaTypes, x: MetaTypeVariant, y: MetaTypeVariant)
    ensures Tag(Shape(x)) == Tag(x)
    ensures VariantEq(types, x, y) ==> Tag(x) == Tag(y)
  {
  }

  lemma VariantViews(types: MetaTypes, x: MetaTypeVariant, y: MetaTypeVariant)
    requires Tag(x) == Tag(y)
    ensures VariantEq(types, x, y) <==>
              Comparable(x) && Shape(x) == Shape(y) && SameIdents(types, Idents(x), Idents(y))
  {
    match x
    case Union(a) => UnionViews(types, a, y.union_);
    case BuildIn(a) =>
    case Custom(a) =>
    case Reference(a) => SingleIdent(types, Some(a.type_), Some(y.reference.type_));
    case Enumeration(a) => EnumerationViews(types, a, y.enumeration);
    case Dynamic(a) => DynamicViews(types, a, y.dynamic_);
    case All(a) => GroupViews(types, a, y.group);
    case Choice(a) => GroupViews(types, a, y.group);
    case Sequence(a) => GroupViews(types, a, y.group);
    case ComplexType(a) => ComplexViews(types, x, y);
    case SimpleType(a) => SingleIdent(types, Some(a.base), Some(y.simple.base));
  }

  /**
    Type equality holds exactly if both types agree on everything but their
    identifiers, all identifiers resolve alike, and the first type is
    comparable at all.
   */
  lemma TypeEqIsSameUpToReferences(types: MetaTypes, x: MetaType, y: MetaType)
    ensures TypeEq(types, x, y) <==> SameUpToReferences(types, x, y)
  {
    TagsAgree(types, x.variant, y.variant);
    TagsAgree(types, y.variant, x.variant);
    if Tag(x.variant) == Tag(y.variant) {
      VariantViews(types, x.variant, y.variant);
    }
  }

  /** Types of one shape are comparable alike. */
  lemma ShapeComparable(x: MetaTypeVariant, y: MetaTypeVariant)
    requires Shape(x) == Shape(y)
    ensures Comparable(x) <==> Comparable(y)
  {
    if x.IsGroup() {
      var a, b := MapSeq(x.group.elements, BlankElement), MapSeq(y.group.elements, BlankElement);
      assert a == b;
      forall i | 0 <= i < |x.group.elements|
        ensures x.group.elements[i].variant.Text? <==> y.group.elements[i].variant.Text?
      {
        assert a[i] == b[i];
      }
    }
  }

  /** `type_eq` is symmetric and transitive, and reflexive exactly on comparable types. */
  lemma TypeEqEquivalence(types: MetaTypes, x: MetaType, y: MetaType, z: MetaType)
    ensures TypeEq(types, x, y) ==> TypeEq(types, y, x)
    ensures TypeEq(types, x, y) && TypeEq(types, y, z) ==> TypeEq(types, x, z)
    ensures TypeEq(types, x, x) <==> Comparable(x.variant)
  {
    TypeEqIsSameUpToReferences(types, x, y);
    TypeEqIsSameUpToReferences(types, y, x);
    TypeEqIsSameUpToReferences(types, y, z);
    TypeEqIsSameUpToReferences(types, x, z);
    TypeEqIsSameUpToReferences(types, x, x);
    if TypeEq(types, x, y) {
      ShapeComparable(x.variant, y.variant);
    }
  }
}
