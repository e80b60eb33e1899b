/** Small types with which concrete cases are written down. */
module Samples {
  import opened Wrappers
  import opened Occurs
  import opened Meta

  function Id(name: string): TypeIdent {
    TypeIdent(UNKNOWN, UNKNOWN, Named(name), Type)
  }

  /** A mandatory particle. */
  function Child(name: string, mode: ElementMode, max: nat): ElementMeta {
    ElementMeta(PropertyIdent(UNKNOWN, Named(name)), Typed(Id(name), mode), "", false, 1, Bounded(max), None, [])
  }

  /** A complex type whose content occurs once. */
  function Complex(content: TypeIdent): MetaType {
    MetaType.New(ComplexType(ComplexMeta(NoBase, Some(content), 1, Bounded(1), false, false, [])))
  }
}
