/** Which groups are nested in which. */
module GroupGraph {
  import opened Meta
  import opened Relations

  predicate IsGroupType(types: MetaTypes, i: TypeIdent) {
    i in types && types[i].variant.IsGroup()
  }

  function Elements(types: MetaTypes, i: TypeIdent): seq<ElementMeta>
    requires IsGroupType(types, i)
  {
    types[i].variant.group.elements
  }

  /** The groups the elements refer to. */
  function GroupTypes(es: seq<ElementMeta>): set<TypeIdent> {
    if es == [] then {}
    else
      var e := es[|es| - 1];
      GroupTypes(es[..|es| - 1]) + (if e.IsGroup() then {e.variant.type_} else {})
  }

  lemma {:induction false} GroupTypesExact(es: seq<ElementMeta>, x: TypeIdent)
    ensures x in GroupTypes(es) <==> exists j | 0 <= j < |es| :: es[j].IsGroup() && es[j].variant.type_ == x
    decreases |es|
  {
    if es != [] {
      var n := |es| - 1;
      GroupTypesExact(es[..n], x);
      assert forall j | 0 <= j < n :: es[..n][j] == es[j];
    }
  }

  /** A group leads to the groups nested in it. */
  function NestGraph(types: MetaTypes): Relation {
    map i | i in types && IsGroupType(types, i) :: GroupTypes(Elements(types, i))
  }

  lemma NestedEdge(types: MetaTypes, i: TypeIdent, j: nat)
    requires IsGroupType(types, i) && j < |Elements(types, i)| && Elements(types, i)[j].IsGroup()
    ensures Edge(NestGraph(types), i, Elements(types, i)[j].variant.type_)
  {
    GroupTypesExact(Elements(types, i), Elements(types, i)[j].variant.type_);
  }
}
