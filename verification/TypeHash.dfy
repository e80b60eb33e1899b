/**
  What a type feeds to a hasher (`TypeEq::type_hash` of the meta types).
  The map of known types in `remove_duplicates` finds equal types only because
  they feed the same.
 */
module TypeHash {
  import opened Wrappers
  import opened Occurs
  import opened Meta
  import opened TypeGraph

  /** One value fed to the hasher. */
  datatype Token =
    | U8(byte: nat)
    | Usize(size: nat)
    | Bool(flag: bool)
    | Ident(ident: TypeIdent)
    | Property(property: PropertyIdent)
    | Word(text: string)
    | OptionText(option: Option<string>)
    | Texts(texts: seq<string>)
    | MaxOccursToken(max: MaxOccurs)
    | Mode(mode: ElementMode)

  type Fed = seq<Token>

  function IdentHash(types: MetaTypes, i: TypeIdent): Fed {
    [Ident(Resolve(types, i))]
  }

  function OptionHash(types: MetaTypes, o: Option<TypeIdent>): Fed {
    match o
    case Some(i) => [U8(1)] + IdentHash(types, i)
    case None => [U8(0)]
  }

  function BaseHash(types: MetaTypes, b: Base): Fed {
    match b
    case NoBase => [U8(0)]
    case Extension(i) => [U8(1)] + IdentHash(types, i)
    case Restriction(i) => [U8(2)] + IdentHash(types, i)
  }

  function UnionTypeHash(types: MetaTypes, t: UnionMetaType): Fed {
    IdentHash(types, t.type_) + [OptionText(t.displayName)]
  }

  function EnumVariantHash(types: MetaTypes, v: EnumerationMetaVariant): Fed {
    [Property(v.ident), Word(v.use_)] + OptionHash(types, v.type_)
    + [OptionText(v.displayName), Texts(v.documentation), OptionText(v.namespaces)]
  }

  function DerivedHash(types: MetaTypes, d: DerivedTypeMeta): Fed {
    IdentHash(types, d.type_) + [OptionText(d.displayName)]
  }

  /** Of a wildcard only the identifier is hashed. */
  function ElementVariantHash(types: MetaTypes, v: ElementMetaVariant): Fed {
    match v
    case Any(meta) => [U8(0), OptionText(meta.id)]
    case Typed(i, mode) => [U8(1)] + IdentHash(types, i) + [Mode(mode)]
    case Text => [U8(2)]
  }

  function ElementHash(types: MetaTypes, e: ElementMeta): Fed {
    [Property(e.ident)] + ElementVariantHash(types, e.variant)
    + [Word(e.form), Bool(e.nillable), Usize(e.minOccurs), MaxOccursToken(e.maxOccurs),
       OptionText(e.displayName), Texts(e.documentation)]
  }

  function AttributeVariantHash(types: MetaTypes, v: AttributeMetaVariant): Fed {
    match v
    case AnyAttribute(meta) => [U8(0), OptionText(meta.id)]
    case AttributeType(i) => [U8(1)] + IdentHash(types, i)
  }

  function AttributeHash(types: MetaTypes, a: AttributeMeta): Fed {
    [Property(a.ident)] + AttributeVariantHash(types, a.variant)
    + [Word(a.use_), Word(a.form), OptionText(a.default), OptionText(a.displayName),
       Texts(a.documentation), OptionText(a.namespaces)]
  }

  function Concat<T>(xs: seq<T>, feed: T -> Fed): Fed {
    if xs == [] then [] else Concat(xs[..|xs| - 1], feed) + feed(xs[|xs| - 1])
  }

  /** `type_hash_slice`: the length, then the items. */
  function SliceHash<T>(xs: seq<T>, feed: T -> Fed): Fed {
    [Usize(|xs|)] + Concat(xs, feed)
  }

  method TypeHashSlice<T>(fed: Fed, xs: seq<T>, feed: T -> Fed) returns (r: Fed)
    ensures r == fed + SliceHash(xs, feed)
  {
    r := fed + [Usize(|xs|)];
    for i := 0 to |xs|
      invariant r == fed + [Usize(|xs|)] + Concat(xs[..i], feed)
    {
      assert xs[..i + 1][..i] == xs[..i];
      r := r + feed(xs[i]);
    }
    assert xs[..|xs|] == xs;
  }

  function GroupHash(types: MetaTypes, g: GroupMeta): Fed {
    [Bool(g.isMixed)] + SliceHash(g.elements, e => ElementHash(types, e))
  }

  function VariantHash(types: MetaTypes, v: MetaTypeVariant): Fed {
    match v
    case Union(u) => BaseHash(types, u.base) + SliceHash(u.types, t => UnionTypeHash(types, t)) + [Texts(u.constrains)]
    case Custom(name) => [Word(name)]
    case BuildIn(b) => [Word(b)]
    case Reference(r) =>
      IdentHash(types, r.type_) + [Bool(r.nillable), Usize(r.minOccurs), MaxOccursToken(r.maxOccurs)]
    case Enumeration(e) =>
      BaseHash(types, e.base) + SliceHash(e.variants, x => EnumVariantHash(types, x)) + [Texts(e.constrains)]
    case Dynamic(d) => OptionHash(types, d.type_) + SliceHash(d.derivedTypes, x => DerivedHash(types, x))
    case All(g) => GroupHash(types, g)
    case Choice(g) => GroupHash(types, g)
    case Sequence(g) => GroupHash(types, g)
    case ComplexType(c) =>
      BaseHash(types, c.base) + OptionHash(types, c.content)
      + [Usize(c.minOccurs), MaxOccursToken(c.maxOccurs), Bool(c.isDynamic), Bool(c.isMixed)]
      + SliceHash(c.attributes, a => AttributeHash(types, a))
    case SimpleType(s) => IdentHash(types, s.base) + [Bool(s.isList), Texts(s.constrains)]
  }

  /** `MetaType::type_hash`. */
  function TypeHash(types: MetaTypes, t: MetaType): Fed {
    [OptionText(t.displayName)] + VariantHash(types, t.variant)
  }

  // ---------- Equal types feed the same

  lemma {:induction false} SliceAgrees<T(!new)>(xs: seq<T>, ys: seq<T>, eq: (T, T) -> bool, feed: T -> Fed)
    requires ListEq(xs, ys, eq) && forall p, q :: eq(p, q) ==> feed(p) == feed(q)
    ensures SliceHash(xs, feed) == SliceHash(ys, feed)
  {
    ConcatAgrees(xs, ys, feed);
  }

  lemma {:induction false} ConcatAgrees<T(!new)>(xs: seq<T>, ys: seq<T>, feed: T -> Fed)
    requires |xs| == |ys| && forall i | 0 <= i < |xs| :: feed(xs[i]) == feed(ys[i])
    ensures Concat(xs, feed) == Concat(ys, feed)
    decreases |xs|
  {
    if xs != [] {
      ConcatAgrees(xs[..|xs| - 1], ys[..|ys| - 1], feed);
    }
  }

  lemma GroupAgrees(types: MetaTypes, x: GroupMeta, y: GroupMeta)
    requires GroupEq(types, x, y)
    ensures GroupHash(types, x) == GroupHash(types, y)
  {
    SliceAgrees(x.elements, y.elements, (a, b) => ElementEq(types, a, b), e => ElementHash(types, e));
  }

  lemma UnionAgrees(types: MetaTypes, x: UnionMeta, y: UnionMeta)
    requires BaseEq(types, x.base, y.base) && ListEq(x.types, y.types, (p, q) => UnionTypeEq(types, p, q))
    ensures BaseHash(types, x.base) == BaseHash(types, y.base)
    ensures SliceHash(x.types, t => UnionTypeHash(types, t)) == SliceHash(y.types, t => UnionTypeHash(types, t))
  {
    SliceAgrees(x.types, y.types, (p, q) => UnionTypeEq(types, p, q), t => UnionTypeHash(types, t));
  }

  lemma EnumerationAgrees(types: MetaTypes, x: EnumerationMeta, y: EnumerationMeta)
    requires BaseEq(types, x.base, y.base) && ListEq(x.variants, y.variants, (p, q) => EnumVariantEq(types, p, q))
    ensures BaseHash(types, x.base) == BaseHash(types, y.base)
    ensures SliceHash(x.variants, v => EnumVariantHash(types, v)) == SliceHash(y.variants, v => EnumVariantHash(types, v))
  {
    SliceAgrees(x.variants, y.variants, (p, q) => EnumVariantEq(types, p, q), v => EnumVariantHash(types, v));
  }

  lemma DynamicAgrees(types: MetaTypes, x: DynamicMeta, y: DynamicMeta)
    requires OptionEq(types, x.type_, y.type_) && ListEq(x.derivedTypes, y.derivedTypes, (p, q) => DerivedEq(types, p, q))
    ensures OptionHash(types, x.type_) == OptionHash(types, y.type_)
    ensures SliceHash(x.derivedTypes, d => DerivedHash(types, d)) == SliceHash(y.derivedTypes, d => DerivedHash(types, d))
  {
    SliceAgrees(x.derivedTypes, y.derivedTypes, (p, q) => DerivedEq(types, p, q), d => DerivedHash(types, d));
  }

  lemma ComplexAgrees(types: MetaTypes, x: ComplexMeta, y: ComplexMeta)
    requires BaseEq(types, x.base, y.base) && OptionEq(types, x.content, y.content)
    requires ListEq(x.attributes, y.attributes, (p, q) => AttributeEq(types, p, q))
    ensures BaseHash(types, x.base) == BaseHash(types, y.base) && OptionHash(types, x.content) == OptionHash(types, y.content)
    ensures SliceHash(x.attributes, a => AttributeHash(types, a)) == SliceHash(y.attributes, a => AttributeHash(types, a))
  {
    SliceAgrees(x.attributes, y.attributes, (p, q) => AttributeEq(types, p, q), a => AttributeHash(types, a));
  }

  lemma VariantAgrees(types: MetaTypes, x: MetaTypeVariant, y: MetaTypeVariant)
    requires VariantEq(types, x, y)
    ensures VariantHash(types, x) == VariantHash(types, y)
  {
    TagsAgree(types, x, y);
    match x
    case Union(a) => UnionAgrees(types, a, y.union_);
    case BuildIn(_) =>
    case Custom(_) =>
    case Reference(_) =>
    case Enumeration(a) => EnumerationAgrees(types, a, y.enumeration);
    case Dynamic(a) => DynamicAgrees(types, a, y.dynamic_);
    case All(a) => GroupAgrees(types, a, y.group);
    case Choice(a) => GroupAgrees(types, a, y.group);
    case Sequence(a) => GroupAgrees(types, a, y.group);
    case ComplexType(a) => ComplexAgrees(types, a, y.complex);
    case SimpleType(_) =>
  }

  /** Type-equal types feed identical data to the hasher. */
  lemma EqualTypesHashAlike(types: MetaTypes, x: MetaType, y: MetaType)
    requires TypeEq(types, x, y)
    ensures TypeHash(types, x) == TypeHash(types, y)
  {
    VariantAgrees(types, x.variant, y.variant);
  }
}
