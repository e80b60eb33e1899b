/**
  The type graph the optimizer works on (`MetaTypes`): a map from type
  identifiers to interpreted types. Data that no modelled operation inspects
  beyond equality (facets, forms, documentation, namespaces of a default value)
  is kept as plain text.
 */
module Meta {
  import opened Wrappers
  import opened Occurs

  datatype Name = Named(text: string) | Generated(text: string) {
    predicate IsGenerated() {
      Generated?
    }
  }

  datatype IdentType =
    | Type | Group | Element | ElementType | Attribute | AttributeGroup
    | BuildIn | Enumeration | NillableContent | DynamicElement

  type NamespaceId = nat
  type SchemaId = nat

  const UNKNOWN: nat := 0

  datatype PropertyIdent = PropertyIdent(ns: NamespaceId, name: Name)

  datatype TypeIdent = TypeIdent(ns: NamespaceId, schema: SchemaId, name: Name, type_: IdentType) {
    function ToPropertyIdent(): PropertyIdent {
      PropertyIdent(ns, name)
    }
  }

  datatype Base = NoBase | Extension(base: TypeIdent) | Restriction(base: TypeIdent)

  datatype UnionMetaType = UnionMetaType(type_: TypeIdent, displayName: Option<string>)

  datatype UnionMeta = UnionMeta(base: Base, types: seq<UnionMetaType>, constrains: seq<string>)

  datatype EnumerationMetaVariant = EnumerationMetaVariant(
    ident: PropertyIdent, use_: string, type_: Option<TypeIdent>,
    displayName: Option<string>, documentation: seq<string>, namespaces: Option<string>)

  datatype EnumerationMeta = EnumerationMeta(
    base: Base, variants: seq<EnumerationMetaVariant>, constrains: seq<string>)

  datatype ReferenceMeta = ReferenceMeta(
    type_: TypeIdent, nillable: bool, minOccurs: nat, maxOccurs: MaxOccurs)
  {
    predicate IsSingle() {
      minOccurs == 1 && maxOccurs == Bounded(1)
    }

    predicate IsSimple() {
      IsSingle() && !nillable
    }

    static function New(type_: TypeIdent): ReferenceMeta {
      ReferenceMeta(type_, false, 1, Bounded(1))
    }
  }

  datatype DerivedTypeMeta = DerivedTypeMeta(type_: TypeIdent, displayName: Option<string>)

  datatype DynamicMeta = DynamicMeta(type_: Option<TypeIdent>, derivedTypes: seq<DerivedTypeMeta>)

  datatype AnyMeta = AnyMeta(id: Option<string>, rest: seq<string>)

  datatype ElementMode = ElementMode | GroupMode

  datatype ElementMetaVariant =
    | Text
    | Any(meta: AnyMeta)
    | Typed(type_: TypeIdent, mode: ElementMode)

  datatype ElementMeta = ElementMeta(
    ident: PropertyIdent, variant: ElementMetaVariant, form: string, nillable: bool,
    minOccurs: nat, maxOccurs: MaxOccurs,
    displayName: Option<string>, documentation: seq<string>)
  {
    /** The element stands for a nested group instead of one child. */
    predicate IsGroup() {
      variant.Typed? && variant.mode.GroupMode?
    }

    function Bounds(): Range {
      Range(minOccurs, maxOccurs)
    }

    function WithRange(r: Range): ElementMeta {
      this.(minOccurs := r.min, maxOccurs := r.max)
    }
  }

  datatype GroupMeta = GroupMeta(isMixed: bool, elements: seq<ElementMeta>)

  datatype AttributeMetaVariant = AnyAttribute(meta: AnyMeta) | AttributeType(type_: TypeIdent)

  datatype AttributeMeta = AttributeMeta(
    ident: PropertyIdent, variant: AttributeMetaVariant, use_: string, form: string,
    default: Option<string>, displayName: Option<string>,
    documentation: seq<string>, namespaces: Option<string>)

  datatype ComplexMeta = ComplexMeta(
    base: Base, content: Option<TypeIdent>, minOccurs: nat, maxOccurs: MaxOccurs,
    isDynamic: bool, isMixed: bool, attributes: seq<AttributeMeta>)
  {
    function Bounds(): Range {
      Range(minOccurs, maxOccurs)
    }
  }

  datatype SimpleMeta = SimpleMeta(base: TypeIdent, isList: bool, constrains: seq<string>)

  datatype MetaTypeVariant =
    | Union(union_: UnionMeta)
    | BuildIn(buildIn: string)
    | Custom(name: string)
    | Reference(reference: ReferenceMeta)
    | Enumeration(enumeration: EnumerationMeta)
    | Dynamic(dynamic_: DynamicMeta)
    | All(group: GroupMeta)
    | Choice(group: GroupMeta)
    | Sequence(group: GroupMeta)
    | ComplexType(complex: ComplexMeta)
    | SimpleType(simple: SimpleMeta)
  {
    predicate IsGroup() {
      All? || Choice? || Sequence?
    }
  }

  datatype MetaType = MetaType(
    variant: MetaTypeVariant, form: Option<string>, schema: Option<SchemaId>,
    displayName: Option<string>, redefinedBase: Option<TypeIdent>, documentation: seq<string>)
  {
    static function New(variant: MetaTypeVariant): MetaType {
      MetaType(variant, None, None, None, None, [])
    }
  }

  type MetaTypes = map<TypeIdent, MetaType>

  /** Errors of the optimizer; the mismatch of two element variants is a custom error in the source. */
  datatype Error =
    | UnknownType(ident: TypeIdent)
    | ExpectedUnion(ident: TypeIdent)
    | ExpectedComplexType(ident: TypeIdent)
    | ExpectedComplexChoice(ident: TypeIdent)
    | ExpectedChoiceContent(ident: TypeIdent)
    | MissingContentType(ident: TypeIdent)
    | MismatchingVariants(a: ElementMetaVariant, b: ElementMetaVariant)
}
