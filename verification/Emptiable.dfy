/**
  Types that may go without any element (`is_emptiable` of the meta types),
  compared with what their content models accept. A text element is no child:
  words that consist of text letters only are the childless ones.
 */
module Emptiable {
  import opened Wrappers
  import opened Occurs
  import opened Meta
  import opened Relations
  import opened GroupGraph
  import opened ContentModel

  // ---------- The types a type is made of

  function Parts(types: MetaTypes, i: TypeIdent): set<TypeIdent>
    requires i in types
  {
    match types[i].variant
    case Reference(x) => {x.type_}
    case All(x) => GroupTypes(x.elements)
    case Choice(x) => GroupTypes(x.elements)
    case Sequence(x) => GroupTypes(x.elements)
    case ComplexType(x) => if x.content.None? then {} else {x.content.value}
    case _ => {}
  }

  function PartGraph(types: MetaTypes): Relation {
    map i | i in types :: Parts(types, i)
  }

  /** No part of the type is part of itself. */
  ghost predicate AcyclicParts(types: MetaTypes, i: TypeIdent) {
    AcyclicFrom(PartGraph(types), i)
  }

  lemma Part(types: MetaTypes, i: TypeIdent, j: TypeIdent)
    requires AcyclicParts(types, i) && i in types && j in Parts(types, i)
    ensures AcyclicParts(types, j)
    ensures Edge(PartGraph(types), i, j) && Above(PartGraph(types), j) < Above(PartGraph(types), i)
  {
    AcyclicEdge(PartGraph(types), i, j);
  }

  lemma NestedPart(types: MetaTypes, i: TypeIdent, j: nat)
    requires AcyclicParts(types, i) && IsGroupType(types, i)
    requires j < |Elements(types, i)| && Elements(types, i)[j].IsGroup()
    ensures var x := Elements(types, i)[j].variant.type_;
            && AcyclicParts(types, x) && Edge(PartGraph(types), i, x)
            && Above(PartGraph(types), x) < Above(PartGraph(types), i)
  {
    var x := Elements(types, i)[j].variant.type_;
    GroupTypesExact(Elements(types, i), x);
    assert x in Parts(types, i);
    Part(types, i, x);
  }

  // ---------- Emptiable types

  /** `MetaTypeVariant::is_emptiable`: of a group all elements, whatever its kind; a missing type does not stand in the way. */
  ghost predicate IsEmptiable(types: MetaTypes, i: TypeIdent)
    requires AcyclicParts(types, i)
    decreases Above(PartGraph(types), i), 1
  {
    i in types ==>
      match types[i].variant
      case Union(_) => true
      case BuildIn(_) => true
      case Enumeration(_) => true
      case SimpleType(_) => true
      case Custom(_) => false
      case Dynamic(_) => false
      case Reference(x) => Part(types, i, x.type_); x.minOccurs == 0 || IsEmptiable(types, x.type_)
      case ComplexType(x) =>
        || x.minOccurs == 0
        || x.content.None?
        || (Part(types, i, x.content.value); IsEmptiable(types, x.content.value))
      case _ => forall j | 0 <= j < |Elements(types, i)| :: IsOptional(types, i, j)
  }

  /** An element of a group that is reported as optional. */
  ghost predicate IsOptional(types: MetaTypes, i: TypeIdent, j: nat)
    requires AcyclicParts(types, i) && IsGroupType(types, i) && j < |Elements(types, i)|
    decreases Above(PartGraph(types), i), 0
  {
    var e := Elements(types, i)[j];
    e.minOccurs == 0 || e.variant.Text? || (e.IsGroup() && (NestedPart(types, i, j); IsEmptiable(types, e.variant.type_)))
  }

  /** The recursion of the source, with the loop of `GroupMeta::is_emptiable`. */
  method ComputeEmptiable(types: MetaTypes, i: TypeIdent) returns (r: bool)
    requires AcyclicParts(types, i)
    ensures r == IsEmptiable(types, i)
    decreases Above(PartGraph(types), i)
  {
    if i !in types {
      return true;
    }
    match types[i].variant {
      case Union(_) => return true;
      case BuildIn(_) => return true;
      case Enumeration(_) => return true;
      case SimpleType(_) => return true;
      case Custom(_) => return false;
      case Dynamic(_) => return false;
      case Reference(x) =>
        if x.minOccurs == 0 {
          return true;
        }
        Part(types, i, x.type_);
        r := ComputeEmptiable(types, x.type_);
      case ComplexType(x) =>
        if x.minOccurs == 0 || x.content.None? {
          return true;
        }
        Part(types, i, x.content.value);
        r := ComputeEmptiable(types, x.content.value);
      case _ =>
        var es := Elements(types, i);
        for n := 0 to |es|
          invariant forall j | 0 <= j < n :: IsOptional(types, i, j)
        {
          if es[n].minOccurs != 0 && !es[n].variant.Text? {
            if !es[n].IsGroup() {
              assert !IsOptional(types, i, n);
              return false;
            }
            NestedPart(types, i, n);
            var nested := ComputeEmptiable(types, es[n].variant.type_);
            if !nested {
              assert !IsOptional(types, i, n);
              return false;
            }
          }
        }
        return true;
    }
  }

  /** A chain of references, none of them part of itself. */
  ghost predicate References(types: MetaTypes, path: seq<TypeIdent>) {
    && path != []
    && forall k | 0 <= k < |path| - 1 ::
         path[k] in types && types[path[k]].variant.Reference? && types[path[k]].variant.reference.type_ == path[k + 1]
  }

  /** A chain of references is emptiable exactly if one of them is optional or the type at its end is emptiable. */
  lemma {:induction false} ReferencesEmptiableIff(types: MetaTypes, path: seq<TypeIdent>)
    requires References(types, path) && AcyclicParts(types, path[0])
    ensures AcyclicParts(types, path[|path| - 1])
    ensures IsEmptiable(types, path[0]) <==>
              || (exists k | 0 <= k < |path| - 1 :: types[path[k]].variant.reference.minOccurs == 0)
              || IsEmptiable(types, path[|path| - 1])
    decreases |path|
  {
    if |path| > 1 {
      var rest := path[1..];
      Part(types, path[0], path[1]);
      forall k | 0 <= k < |rest| - 1
        ensures rest[k] in types && types[rest[k]].variant.Reference? && types[rest[k]].variant.reference.type_ == rest[k + 1]
      {
        assert rest[k] == path[k + 1] && rest[k + 1] == path[k + 2];
      }
      ReferencesEmptiableIff(types, rest);
      if k :| 0 <= k < |path| - 1 && types[path[k]].variant.reference.minOccurs == 0 {
        assert k > 0 ==> rest[k - 1] == path[k];
      }
      if k :| 0 <= k < |rest| - 1 && types[rest[k]].variant.reference.minOccurs == 0 {
        assert path[k + 1] == rest[k];
      }
    }
  }

  /** Types without a content model may go without an element, except for custom and dynamic ones. */
  lemma WithoutModel(types: MetaTypes, i: TypeIdent)
    requires AcyclicParts(types, i) && i in types
    ensures types[i].variant.ComplexType? && types[i].variant.complex.content == None ==> IsEmptiable(types, i)
    ensures types[i].variant.ComplexType? && types[i].variant.complex.minOccurs == 0 ==> IsEmptiable(types, i)
    ensures types[i].variant.Custom? || types[i].variant.Dynamic? ==> !IsEmptiable(types, i)
    ensures types[i].variant.Union? || types[i].variant.BuildIn? || types[i].variant.Enumeration? || types[i].variant.SimpleType? ==>
              IsEmptiable(types, i)
  {
  }

  // ---------- Groups that can do without children

  /** A choice with some alternative that can, any other group if all of its particles can. */
  ghost predicate CanBeEmpty(types: MetaTypes, i: TypeIdent)
    requires AcyclicParts(types, i)
    decreases Above(PartGraph(types), i), 1
  {
    && IsGroupType(types, i)
    && if types[i].variant.Choice? then exists j | 0 <= j < |Elements(types, i)| :: ElementCanBeEmpty(types, i, j)
       else forall j | 0 <= j < |Elements(types, i)| :: ElementCanBeEmpty(types, i, j)
  }

  ghost predicate ElementCanBeEmpty(types: MetaTypes, i: TypeIdent, j: nat)
    requires AcyclicParts(types, i) && IsGroupType(types, i) && j < |Elements(types, i)|
    decreases Above(PartGraph(types), i), 0
  {
    var e := Elements(types, i)[j];
    e.minOccurs == 0 || e.variant.Text? || (e.IsGroup() && (NestedPart(types, i, j); CanBeEmpty(types, e.variant.type_)))
  }

  // ---------- Childless words

  type Texts = iset<PropertyIdent>

  ghost predicate Childless(texts: Texts, w: Word) {
    forall x | x in w :: x in texts
  }

  ghost predicate AcceptsChildless(types: MetaTypes, texts: Texts, i: TypeIdent) {
    exists w, d: nat :: GroupAccepts(types, i, w, d) && Childless(texts, w)
  }

  /** A group whose bounds admit some count, and in which `texts` are the identifiers of the text elements. */
  ghost predicate Regular(types: MetaTypes, texts: Texts, i: TypeIdent) {
    && IsGroupType(types, i)
    && forall j | 0 <= j < |Elements(types, i)| :: RegularElement(types, texts, Elements(types, i)[j])
  }

  ghost predicate RegularElement(types: MetaTypes, texts: Texts, e: ElementMeta) {
    && e.maxOccurs.Allows(e.minOccurs)
    && (e.IsGroup() ==> IsGroupType(types, e.variant.type_))
    && (!e.IsGroup() ==> (e.ident in texts <==> e.variant.Text?))
  }

  /** All groups below are regular. */
  ghost predicate RegularBelow(types: MetaTypes, texts: Texts, i: TypeIdent) {
    forall x | Reaches(PartGraph(types), i, x) :: Regular(types, texts, x)
  }

  lemma RegularHere(types: MetaTypes, texts: Texts, i: TypeIdent, j: nat)
    requires RegularBelow(types, texts, i) && IsGroupType(types, i) && j < |Elements(types, i)|
    ensures RegularElement(types, texts, Elements(types, i)[j])
  {
    ReachesSelf(PartGraph(types), i);
    assert Regular(types, texts, i);
  }

  lemma Nested(types: MetaTypes, texts: Texts, i: TypeIdent, j: nat)
    requires AcyclicParts(types, i) && RegularBelow(types, texts, i) && IsGroupType(types, i)
    requires j < |Elements(types, i)| && Elements(types, i)[j].IsGroup()
    ensures var x := Elements(types, i)[j].variant.type_;
            && IsGroupType(types, x) && AcyclicParts(types, x) && RegularBelow(types, texts, x)
            && Above(PartGraph(types), x) < Above(PartGraph(types), i)
            && |Above(PartGraph(types), x)| < |Above(PartGraph(types), i)|
  {
    var x := Elements(types, i)[j].variant.type_;
    NestedPart(types, i, j);
    RegularHere(types, texts, i, j);
    SmallerSet(Above(PartGraph(types), x), Above(PartGraph(types), i));
    forall y | Reaches(PartGraph(types), x, y)
      ensures Reaches(PartGraph(types), i, y)
    {
      EdgeThenReaches(PartGraph(types), i, x, y);
    }
  }

  // ---------- What can be empty accepts a childless word

  lemma {:induction false} RepeatChildless(texts: Texts, u: Word, k: nat)
    requires Childless(texts, u)
    ensures Childless(texts, Repeat(u, k))
    decreases k
  {
    if k > 0 {
      RepeatChildless(texts, u, k - 1);
    }
  }

  /** The minimal number of occurrences of one element. */
  lemma {:induction false} ChildlessElement(types: MetaTypes, texts: Texts, i: TypeIdent, j: nat, d: nat) returns (w: Word)
    requires AcyclicParts(types, i) && IsGroupType(types, i) && RegularBelow(types, texts, i)
    requires j < |Elements(types, i)| && ElementCanBeEmpty(types, i, j) && |Above(PartGraph(types), i)| <= d
    ensures Particle(types, Elements(types, i)[j], w, d) && Childless(texts, w)
    decreases d, 0
  {
    var e := Elements(types, i)[j];
    RegularHere(types, texts, i, j);
    var u: Word := [];
    if e.minOccurs > 0 && e.IsGroup() {
      Nested(types, texts, i, j);
      u := ChildlessGroup(types, texts, e.variant.type_, d - 1);
    } else if e.minOccurs > 0 {
      u := [e.ident];
    }
    RepeatChildless(texts, u, e.minOccurs);
    TimesRepeat(types, e, u, e.minOccurs, d);
    assert e.Bounds().Has(e.minOccurs);
    w := Repeat(u, e.minOccurs);
  }

  /** One word for a list of particles, in order or as an interleaving. */
  lemma {:induction false} ChildlessList(types: MetaTypes, texts: Texts, i: TypeIdent, n: nat, d: nat) returns (w: Word)
    requires AcyclicParts(types, i) && IsGroupType(types, i) && RegularBelow(types, texts, i)
    requires n <= |Elements(types, i)| && forall j | 0 <= j < n :: ElementCanBeEmpty(types, i, j)
    requires |Above(PartGraph(types), i)| <= d
    ensures SequenceOf(types, Elements(types, i)[..n], w, d) && AllOf(types, Elements(types, i)[..n], w, d)
    ensures Childless(texts, w)
    decreases d, 1, n
  {
    var es := Elements(types, i)[..n];
    if n == 0 {
      w := [];
    } else {
      var u := ChildlessList(types, texts, i, n - 1, d);
      var v := ChildlessElement(types, texts, i, n - 1, d);
      w := u + v;
      assert es[..n - 1] == Elements(types, i)[..n - 1];
      assert w[..|u|] == u && w[|u|..] == v;
      InterleavesAppend(u, v);
    }
  }

  /** A group that can be empty accepts a childless word. */
  lemma {:induction false} ChildlessGroup(types: MetaTypes, texts: Texts, i: TypeIdent, d: nat) returns (w: Word)
    requires AcyclicParts(types, i) && RegularBelow(types, texts, i)
    requires CanBeEmpty(types, i) && |Above(PartGraph(types), i)| <= d
    ensures GroupAccepts(types, i, w, d) && Childless(texts, w)
    decreases d, 2
  {
    var es := Elements(types, i);
    if types[i].variant.Choice? {
      var j: nat :| j < |es| && ElementCanBeEmpty(types, i, j);
      w := ChildlessElement(types, texts, i, j, d);
      assert ChoiceOf(types, es, w, d);
    } else {
      w := ChildlessList(types, texts, i, |es|, d);
      assert es[..|es|] == es;
    }
    assert VariantAccepts(types, types[i].variant, w, d);
  }

  // ---------- What accepts a childless word can be empty

  /** Each particle accepts a part of the word. */
  lemma {:induction false} PartOfList(types: MetaTypes, texts: Texts, es: seq<ElementMeta>, w: Word, j: nat, d: nat)
    returns (v: Word)
    requires Childless(texts, w) && j < |es| && (SequenceOf(types, es, w, d) || AllOf(types, es, w, d))
    ensures Particle(types, es[j], v, d) && Childless(texts, v)
    decreases |es|
  {
    var n := |es| - 1;
    if SequenceOf(types, es, w, d) {
      var i :| 0 <= i <= |w| && SequenceOf(types, es[..n], w[..i], d) && Particle(types, es[n], w[i..], d);
      if j == n {
        v := w[i..];
      } else {
        v := PartOfList(types, texts, es[..n], w[..i], j, d);
      }
    } else {
      var a, b :| AllOf(types, es[..n], a, d) && Particle(types, es[n], b, d) && Interleaves(a, b, w);
      InterleavesLetters(texts, a, b, w);
      if j == n {
        v := b;
      } else {
        v := PartOfList(types, texts, es[..n], a, j, d);
      }
    }
  }

  lemma InterleavesLetters(texts: Texts, a: Word, b: Word, w: Word)
    requires Interleaves(a, b, w) && Childless(texts, w)
    ensures Childless(texts, a) && Childless(texts, b)
  {
    InterleavesCounts(a, b, w);
    forall x | x in a || x in b
      ensures x in w
    {
      assert multiset(w)[x] == multiset(a)[x] + multiset(b)[x];
    }
  }

  /** Some occurrence of an element that has to occur. */
  lemma SomeOccurrence(types: MetaTypes, texts: Texts, e: ElementMeta, w: Word, d: nat) returns (v: Word)
    requires e.minOccurs > 0 && Particle(types, e, w, d) && Childless(texts, w)
    ensures Once(types, e, v, d) && Childless(texts, v)
  {
    var k: nat :| e.Bounds().Has(k) && Times(types, e, k, w, d);
    var s :| 0 <= s <= |w| && Times(types, e, k - 1, w[..s], d) && Once(types, e, w[s..], d);
    v := w[s..];
  }

  lemma {:induction false} ElementMeansEmpty(types: MetaTypes, texts: Texts, i: TypeIdent, j: nat, w: Word, d: nat)
    requires AcyclicParts(types, i) && IsGroupType(types, i) && RegularBelow(types, texts, i)
    requires j < |Elements(types, i)| && Particle(types, Elements(types, i)[j], w, d) && Childless(texts, w)
    ensures ElementCanBeEmpty(types, i, j)
    decreases d, 0
  {
    var e := Elements(types, i)[j];
    RegularHere(types, texts, i, j);
    if e.minOccurs > 0 {
      var v := SomeOccurrence(types, texts, e, w, d);
      if e.IsGroup() {
        Nested(types, texts, i, j);
        MeansEmpty(types, texts, e.variant.type_, v, d - 1);
      } else {
        assert v[0] in v;
      }
    }
  }

  lemma {:induction false} MeansEmpty(types: MetaTypes, texts: Texts, i: TypeIdent, w: Word, d: nat)
    requires AcyclicParts(types, i) && RegularBelow(types, texts, i)
    requires GroupAccepts(types, i, w, d) && Childless(texts, w)
    ensures CanBeEmpty(types, i)
    decreases d, 1
  {
    assert VariantAccepts(types, types[i].variant, w, d);
    var es := Elements(types, i);
    if types[i].variant.Choice? {
      assert ChoiceOf(types, es, w, d);
      var j :| 0 <= j < |es| && Particle(types, es[j], w, d);
      ElementMeansEmpty(types, texts, i, j, w, d);
    } else {
      forall j | 0 <= j < |es|
        ensures ElementCanBeEmpty(types, i, j)
      {
        var v := PartOfList(types, texts, es, w, j, d);
        ElementMeansEmpty(types, texts, i, j, v, d);
      }
    }
  }

  /** Regular groups, with choices at any depth, accept a childless word exactly if they can be empty. */
  lemma ChildlessIff(types: MetaTypes, texts: Texts, i: TypeIdent)
    requires AcyclicParts(types, i) && RegularBelow(types, texts, i)
    ensures AcceptsChildless(types, texts, i) <==> CanBeEmpty(types, i)
  {
    if CanBeEmpty(types, i) {
      var d: nat := |Above(PartGraph(types), i)|;
      var w := ChildlessGroup(types, texts, i, d);
      assert GroupAccepts(types, i, w, d);
    }
    if AcceptsChildless(types, texts, i) {
      var w, d: nat :| GroupAccepts(types, i, w, d) && Childless(texts, w);
      MeansEmpty(types, texts, i, w, d);
    }
  }

  // ---------- When the report is right

  /** The type is reported as emptiable exactly if it accepts a childless word. */
  ghost predicate Right(types: MetaTypes, texts: Texts, i: TypeIdent)
    requires AcyclicParts(types, i)
  {
    IsEmptiable(types, i) <==> AcceptsChildless(types, texts, i)
  }

  ghost predicate NestedRight(types: MetaTypes, texts: Texts, i: TypeIdent)
    requires AcyclicParts(types, i) && IsGroupType(types, i)
  {
    forall j | 0 <= j < |Elements(types, i)| :: Elements(types, i)[j].IsGroup() ==> ElementRight(types, texts, i, j)
  }

  ghost predicate ElementRight(types: MetaTypes, texts: Texts, i: TypeIdent, j: nat)
    requires AcyclicParts(types, i) && IsGroupType(types, i)
    requires j < |Elements(types, i)| && Elements(types, i)[j].IsGroup()
  {
    NestedPart(types, i, j);
    Right(types, texts, Elements(types, i)[j].variant.type_)
  }

  /** With right nested groups, an element is reported as optional exactly if it can be empty. */
  lemma OptionalIsRight(types: MetaTypes, texts: Texts, i: TypeIdent, j: nat)
    requires AcyclicParts(types, i) && RegularBelow(types, texts, i) && IsGroupType(types, i)
    requires NestedRight(types, texts, i) && j < |Elements(types, i)|
    ensures IsOptional(types, i, j) <==> ElementCanBeEmpty(types, i, j)
  {
    if Elements(types, i)[j].IsGroup() {
      Nested(types, texts, i, j);
      assert ElementRight(types, texts, i, j);
      ChildlessIff(types, texts, Elements(types, i)[j].variant.type_);
    }
  }

  lemma GroupReport(types: MetaTypes, texts: Texts, i: TypeIdent)
    requires AcyclicParts(types, i) && RegularBelow(types, texts, i) && IsGroupType(types, i)
    requires NestedRight(types, texts, i)
    ensures IsEmptiable(types, i) <==> AllCanBeEmpty(types, i)
  {
    forall j | 0 <= j < |Elements(types, i)|
      ensures IsOptional(types, i, j) <==> ElementCanBeEmpty(types, i, j)
    {
      OptionalIsRight(types, texts, i, j);
    }
  }

  /** The recursive test, one level at a time. */
  lemma CanBeEmptyExact(types: MetaTypes, i: TypeIdent)
    requires AcyclicParts(types, i) && IsGroupType(types, i)
    ensures CanBeEmpty(types, i) <==> if types[i].variant.Choice? then SomeCanBeEmpty(types, i) else AllCanBeEmpty(types, i)
  {
    forall j | 0 <= j < |Elements(types, i)| && ElementCanBeEmpty(types, i, j)
      ensures SomeCanBeEmpty(types, i)
    {
    }
  }

  ghost predicate SomeCanBeEmpty(types: MetaTypes, i: TypeIdent)
    requires AcyclicParts(types, i) && IsGroupType(types, i)
  {
    exists j | 0 <= j < |Elements(types, i)| :: ElementCanBeEmpty(types, i, j)
  }

  ghost predicate AllCanBeEmpty(types: MetaTypes, i: TypeIdent)
    requires AcyclicParts(types, i) && IsGroupType(types, i)
  {
    forall j | 0 <= j < |Elements(types, i)| :: ElementCanBeEmpty(types, i, j)
  }

  /** An `all` or a sequence is reported right whenever the groups nested in it are. */
  lemma ParticlesRight(types: MetaTypes, texts: Texts, i: TypeIdent)
    requires AcyclicParts(types, i) && RegularBelow(types, texts, i) && IsGroupType(types, i)
    requires NestedRight(types, texts, i) && !types[i].variant.Choice?
    ensures Right(types, texts, i)
  {
    GroupReport(types, texts, i);
    ChildlessIff(types, texts, i);
    CanBeEmptyExact(types, i);
  }

  /** A choice is reported right exactly if all of its alternatives can be empty, or none, and it has some. */
  lemma ChoiceRightIff(types: MetaTypes, texts: Texts, i: TypeIdent)
    requires AcyclicParts(types, i) && RegularBelow(types, texts, i) && IsGroupType(types, i)
    requires NestedRight(types, texts, i) && types[i].variant.Choice?
    ensures Right(types, texts, i) <==>
              Elements(types, i) != [] && (AllCanBeEmpty(types, i) || !SomeCanBeEmpty(types, i))
  {
    GroupReport(types, texts, i);
    ChildlessIff(types, texts, i);
    CanBeEmptyExact(types, i);
    assert Elements(types, i) != [] && AllCanBeEmpty(types, i) ==> ElementCanBeEmpty(types, i, 0);
  }

  /** No choice below is without alternatives. */
  ghost predicate NoEmptyChoice(types: MetaTypes, i: TypeIdent) {
    forall x | Reaches(PartGraph(types), i, x) && IsGroupType(types, x) && types[x].variant.Choice? :: Elements(types, x) != []
  }

  /** Even where the report is not exact, what is reported as emptiable can be empty. */
  lemma {:induction false} EmptiableCanBeEmpty(types: MetaTypes, texts: Texts, i: TypeIdent)
    requires AcyclicParts(types, i) && RegularBelow(types, texts, i) && NoEmptyChoice(types, i) && IsGroupType(types, i)
    requires IsEmptiable(types, i)
    ensures CanBeEmpty(types, i)
    decreases Above(PartGraph(types), i)
  {
    ReachesSelf(PartGraph(types), i);
    forall j | 0 <= j < |Elements(types, i)|
      ensures ElementCanBeEmpty(types, i, j)
    {
      assert IsOptional(types, i, j);
      var e := Elements(types, i)[j];
      if e.minOccurs > 0 && e.IsGroup() {
        Nested(types, texts, i, j);
        NestedPart(types, i, j);
        forall y | Reaches(PartGraph(types), e.variant.type_, y)
          ensures Reaches(PartGraph(types), i, y)
        {
          EdgeThenReaches(PartGraph(types), i, e.variant.type_, y);
        }
        EmptiableCanBeEmpty(types, texts, e.variant.type_);
      }
    }
    assert types[i].variant.Choice? ==> ElementCanBeEmpty(types, i, 0);
  }

  // ---------- Complex types

  /** The content of a complex type is a regular group. */
  ghost predicate RegularContent(types: MetaTypes, texts: Texts, ident: TypeIdent) {
    && ident in types && types[ident].variant.ComplexType?
    && var ci := types[ident].variant.complex;
       && ci.content.Some? && ci.maxOccurs.Allows(ci.minOccurs)
       && IsGroupType(types, ci.content.value) && RegularBelow(types, texts, ci.content.value)
  }

  ghost predicate ComplexAcceptsChildless(types: MetaTypes, texts: Texts, ident: TypeIdent) {
    exists w :: ComplexAccepts(types, ident, w) && Childless(texts, w)
  }

  /** A complex type accepts a childless word exactly if it is optional itself or its content can be empty. */
  lemma ComplexChildlessIff(types: MetaTypes, texts: Texts, ident: TypeIdent)
    requires RegularContent(types, texts, ident) && AcyclicParts(types, types[ident].variant.complex.content.value)
    ensures ComplexAcceptsChildless(types, texts, ident) <==>
              || types[ident].variant.complex.minOccurs == 0
              || CanBeEmpty(types, types[ident].variant.complex.content.value)
  {
    var ci := types[ident].variant.complex;
    var t := ci.content.value;
    if ci.minOccurs == 0 || CanBeEmpty(types, t) {
      ComplexChildless(types, texts, ident);
    }
    if ComplexAcceptsChildless(types, texts, ident) && ci.minOccurs > 0 {
      var w :| ComplexAccepts(types, ident, w) && Childless(texts, w);
      var d: nat :| Particle(types, ContentParticle(ci), w, d);
      var v := SomeOccurrence(types, texts, ContentParticle(ci), w, d);
      MeansEmpty(types, texts, t, v, d - 1);
    }
  }

  lemma ComplexChildless(types: MetaTypes, texts: Texts, ident: TypeIdent)
    requires RegularContent(types, texts, ident) && AcyclicParts(types, types[ident].variant.complex.content.value)
    requires types[ident].variant.complex.minOccurs == 0 || CanBeEmpty(types, types[ident].variant.complex.content.value)
    ensures ComplexAcceptsChildless(types, texts, ident)
  {
    var ci := types[ident].variant.complex;
    var t := ci.content.value;
    var e := ContentParticle(ci);
    var d: nat := |Above(PartGraph(types), t)|;
    var u: Word := [];
    if ci.minOccurs > 0 {
      u := ChildlessGroup(types, texts, t, d);
      assert Once(types, e, u, d + 1);
    }
    TimesRepeat(types, e, u, ci.minOccurs, d + 1);
    RepeatChildless(texts, u, ci.minOccurs);
    assert e.Bounds().Has(ci.minOccurs);
    assert Particle(types, e, Repeat(u, ci.minOccurs), d + 1);
    assert ComplexAccepts(types, ident, Repeat(u, ci.minOccurs));
  }

  /** A complex type is reported right exactly if it is optional itself or its content is reported right. */
  lemma ComplexRightIff(types: MetaTypes, texts: Texts, ident: TypeIdent)
    requires RegularContent(types, texts, ident) && AcyclicParts(types, ident)
    ensures AcyclicParts(types, types[ident].variant.complex.content.value)
    ensures (IsEmptiable(types, ident) <==> ComplexAcceptsChildless(types, texts, ident)) <==>
              || types[ident].variant.complex.minOccurs == 0
              || Right(types, texts, types[ident].variant.complex.content.value)
  {
    var t := types[ident].variant.complex.content.value;
    Part(types, ident, t);
    ComplexChildlessIff(types, texts, ident);
    ChildlessIff(types, texts, t);
  }
}
