/**
  Conditions on an element and the ones around it, without the writer's stack,
  under which printing and parsing undo each other; and an element that is read
  back wrongly.
 */
module XmlFaithful {
  import opened Wrappers
  import opened XmlModel
  import opened XmlWriter
  import opened XmlReader
  import opened XmlRoundTrip

  // ---------- Faithful elements

  function Pairs(m: Bindings): set<(string, string)> {
    set p | p in m :: (p, m[p])
  }

  /**
    Seen from the outer elements' bindings: nothing is bound to the empty name,
    nor is `xml` bound;
    a binding that the parent does not have was not made by any outer element
    (`seen`); a binding of the parent that is missing is undeclared by an
    attribute; and other declarations among the attributes undeclare, too.
   */
  ghost predicate Faithful(seen: set<(string, string)>, parent: Bindings, e: Element<Namespaces>)
    decreases e, 1
  {
    && (forall p | p in e.namespaces.bindings :: p != "xml" && e.namespaces.bindings[p] != "")
    && (forall p | p in e.namespaces.bindings && (p, e.namespaces.bindings[p]) in seen :: p in parent && parent[p] == e.namespaces.bindings[p])
    && (forall p | p in parent && p !in e.namespaces.bindings :: Attribute(XmlnsKey(p), "") in e.attributes)
    && (forall a | a in e.attributes && DeclaredPrefix(a.key).Some? && DeclaredPrefix(a.key).value !in e.namespaces.bindings ::
          a.value == "")
    && FaithfulValues(seen + Pairs(e.namespaces.bindings), e.namespaces.bindings, e.values)
  }

  ghost predicate FaithfulValues(seen: set<(string, string)>, parent: Bindings, values: seq<Value<Namespaces>>)
    decreases values, 0
  {
    values != [] ==> FaithfulValue(seen, parent, values[0]) && FaithfulValues(seen, parent, values[1..])
  }

  ghost predicate FaithfulValue(seen: set<(string, string)>, parent: Bindings, v: Value<Namespaces>)
    decreases v, 2
  {
    v.Child? ==> Faithful(seen, parent, v.element)
  }

  /** Every declaration on the stack was made by an outer element. */
  ghost predicate StackSeen(s: Scope, seen: set<(string, string)>) {
    forall x | x in s.entries :: x.prefix != Some("") && (PrefixText(x.prefix), x.namespace) in seen
  }

  /** A left-out declaration was made outside, with the same prefix and namespace. */
  lemma LeftOutOnStack(s: Scope, n: Namespaces, i: nat) returns (x: Entry)
    requires i < |n.prefixes| && LeftOut(Begin(s), n, i)
    ensures n.prefixes[i] in n.bindings
    ensures x in s.entries && x.prefix == PrefixOf(n.prefixes[i]) && x.namespace == n.bindings[n.prefixes[i]]
  {
    var p := n.prefixes[i];
    var entries := WriteAll(Begin(s), n.prefixes[..i], n.bindings).0.entries;
    WrittenAttributes(Begin(s), n.prefixes[..i], n.bindings);
    InnermostIsEntry(entries, n.bindings[p]);
    x := Innermost(entries, n.bindings[p]).value;
    forall q | q in n.prefixes[..i]
      ensures PrefixOf(q) != PrefixOf(p)
    {
    }
    assert !EntryFor(x, n.prefixes[..i], n.bindings);
  }

  lemma FaithfulRestorable(s: Scope, b: Bindings, seen: set<(string, string)>, e: Element<Namespaces>)
    requires Faithful(seen, b, e) && StackSeen(s, seen)
    ensures Restorable(Begin(s), b, e)
  {
    var n := e.namespaces;
    forall i | 0 <= i < |n.prefixes|
      ensures PrefixRestorable(Begin(s), b, n, i)
    {
      var p := n.prefixes[i];
      assert p in n.prefixes;
      if LeftOut(Begin(s), n, i) {
        var x := LeftOutOnStack(s, n, i);
        assert (p, n.bindings[p]) in seen;
      }
    }
    forall p | p in b && p !in n.bindings
      ensures Declares(e.attributes, p)
    {
      var i :| 0 <= i < |e.attributes| && e.attributes[i] == Attribute(XmlnsKey(p), "");
    }
  }

  /** The stack inside an element holds declarations of outer elements and its own. */
  lemma OpenSeen(s: Scope, seen: set<(string, string)>, e: Element<Namespaces>)
    requires StackSeen(s, seen)
    ensures StackSeen(Open(s, e).0, seen + Pairs(e.namespaces.bindings))
  {
    var n := e.namespaces;
    var t := Open(s, e).0;
    WrittenAttributes(Begin(s), n.prefixes, n.bindings);
    forall x | x in t.entries
      ensures x.prefix != Some("") && (PrefixText(x.prefix), x.namespace) in seen + Pairs(n.bindings)
    {
      if x !in s.entries {
        var p :| p in n.prefixes && x.prefix == PrefixOf(p) && x.namespace == n.bindings[p];
        assert (p, n.bindings[p]) in Pairs(n.bindings);
      }
    }
  }

  lemma {:induction false} FaithfulAllRestorable(s: Scope, b: Bindings, seen: set<(string, string)>, e: Element<Namespaces>)
    requires Faithful(seen, b, e) && StackSeen(s, seen)
    ensures AllRestorable(s, b, e)
    decreases e, 1
  {
    FaithfulRestorable(s, b, seen, e);
    OpenSeen(s, seen, e);
    FaithfulValuesRestorable(Open(s, e).0, e.namespaces.bindings, seen + Pairs(e.namespaces.bindings), e.values);
  }

  lemma {:induction false} FaithfulValuesRestorable(
    s: Scope, b: Bindings, seen: set<(string, string)>, values: seq<Value<Namespaces>>)
    requires FaithfulValues(seen, b, values) && StackSeen(s, seen)
    ensures ValuesRestorable(s, b, values)
    decreases values, 0
  {
    if values != [] {
      FaithfulValueRestorable(s, b, seen, values[0]);
      FaithfulValuesRestorable(s, b, seen, values[1..]);
    }
  }

  lemma FaithfulValueRestorable(s: Scope, b: Bindings, seen: set<(string, string)>, v: Value<Namespaces>)
    requires FaithfulValue(seen, b, v) && StackSeen(s, seen)
    ensures ValueRestorable(s, b, v)
    decreases v, 2
  {
    if v.Child? {
      FaithfulAllRestorable(s, b, seen, v.element);
    }
  }

  /**
    Printing and parsing undo each other on every faithful element, in whatever
    order the namespace maps are listed: inherited, new, overridden and
    undeclared bindings included.
   */
  lemma FaithfulRoundTrip(name: Option<string>, e: Element<Namespaces>)
    requires Writable(e) && Faithful({}, map[], e)
    ensures var read := ReadAll(Reading([], []), Events(Scope(0, []), name, e));
            read.Finished? && SameElement(read.element, e.(name := NameOf(name, e)))
  {
    FaithfulAllRestorable(Scope(0, []), map[], {}, e);
    RoundTripIff(name, e);
  }

  /**
    The plain case: every element has all bindings of its parent, rebinds none
    of them nor `xml`, and lists each declaration among its attributes as a namespace.
   */
  ghost predicate Extending(parent: Bindings, e: Element<Namespaces>)
    decreases e, 1
  {
    && (forall p | p in e.namespaces.bindings :: p != "xml" && e.namespaces.bindings[p] != "")
    && (forall p | p in parent :: p in e.namespaces.bindings && e.namespaces.bindings[p] == parent[p])
    && (forall a | a in e.attributes && DeclaredPrefix(a.key).Some? :: DeclaredPrefix(a.key).value in e.namespaces.bindings)
    && ExtendingValues(e.namespaces.bindings, e.values)
  }

  ghost predicate ExtendingValues(parent: Bindings, values: seq<Value<Namespaces>>)
    decreases values, 0
  {
    values != [] ==> (ExtendingValue(parent, values[0]) && ExtendingValues(parent, values[1..]))
  }

  ghost predicate ExtendingValue(parent: Bindings, v: Value<Namespaces>)
    decreases v, 2
  {
    v.Child? ==> Extending(parent, v.element)
  }

  lemma {:induction false} ExtendingIsFaithful(seen: set<(string, string)>, parent: Bindings, e: Element<Namespaces>)
    requires Extending(parent, e) && seen <= Pairs(parent)
    ensures Faithful(seen, parent, e)
    decreases e, 1
  {
    ExtendingValuesFaithful(seen + Pairs(e.namespaces.bindings), e.namespaces.bindings, e.values);
  }

  lemma {:induction false} ExtendingValuesFaithful(seen: set<(string, string)>, parent: Bindings, values: seq<Value<Namespaces>>)
    requires ExtendingValues(parent, values) && seen <= Pairs(parent)
    ensures FaithfulValues(seen, parent, values)
    decreases values, 0
  {
    if values != [] {
      ExtendingValueFaithful(seen, parent, values[0]);
      ExtendingValuesFaithful(seen, parent, values[1..]);
    }
  }

  lemma ExtendingValueFaithful(seen: set<(string, string)>, parent: Bindings, v: Value<Namespaces>)
    requires ExtendingValue(parent, v) && seen <= Pairs(parent)
    ensures FaithfulValue(seen, parent, v)
    decreases v, 2
  {
    if v.Child? {
      ExtendingIsFaithful(seen, parent, v.element);
    }
  }

  // ---------- A binding that is overridden and then restored

  /** A namespace map of a single prefix. */
  function Single(p: string, n: string): Namespaces {
    Listing([p], map[p := n])
  }

  /** The start tag of an element with a single namespace and no attributes. */
  lemma SingleNamespace(s: Scope, e: Element<Namespaces>, p: string, n: string)
    requires e.attributes == [] && e.namespaces == Single(p, n)
    ensures LeftOut(Begin(s), e.namespaces, 0) <==> IsActive(Begin(s), PrefixOf(p), n)
    ensures Open(s, e).0 == if IsActive(Begin(s), PrefixOf(p), n) then Begin(s) else AddEntry(Begin(s), PrefixOf(p), n)
  {
    var prefixes := e.namespaces.prefixes;
    assert prefixes[..0] == [];
    assert WriteAll(Begin(s), prefixes[..0], e.namespaces.bindings) == (Begin(s), []);
  }

  function Restored(p: string, outer: string, inner: string): Element<Namespaces> {
    var c := Element("c", [], [], Single(p, outer));
    var b := Element("b", [Child(c)], [], Single(p, inner));
    Element("a", [Child(b)], [], Single(p, outer))
  }

  lemma SingleWritable(e: Element<Namespaces>, p: string, n: string)
    requires e.attributes == [] && e.namespaces == Single(p, n) && !IsReserved(Binding(p, n))
    requires e.values == [] || (|e.values| == 1 && WritableValue(e.values[0]))
    ensures Writable(e)
  {
    assert e.values != [] ==> e.values[1..] == [];
  }

  lemma RestoredWritable(p: string, outer: string, inner: string)
    requires !IsReserved(Binding(p, outer)) && !IsReserved(Binding(p, inner))
    ensures Writable(Restored(p, outer, inner))
  {
    var a := Restored(p, outer, inner);
    var b := a.values[0].element;
    SingleWritable(b.values[0].element, p, outer);
    SingleWritable(b, p, inner);
    SingleWritable(a, p, outer);
  }

  /** An element is not restorable if the only value in it is not. */
  lemma NotBelow(s: Scope, parent: Bindings, e: Element<Namespaces>, sub: Element<Namespaces>)
    requires e.values == [Child(sub)] && !AllRestorable(Open(s, e).0, e.namespaces.bindings, sub)
    ensures !AllRestorable(s, parent, e)
  {
    assert !ValueRestorable(Open(s, e).0, e.namespaces.bindings, e.values[0]);
  }

  /** The innermost element: its prefix is active for the outer namespace, but the parent has the inner one. */
  lemma InnermostNotRestorable(s: Scope, c: Element<Namespaces>, p: string, outer: string, inner: string)
    requires p != "" && outer != inner && c.attributes == [] && c.namespaces == Single(p, outer)
    requires s == Scope(2, [Entry(1, Some(p), outer), Entry(2, Some(p), inner)])
    ensures !AllRestorable(s, map[p := inner], c)
  {
    SingleNamespace(s, c, p, outer);
    assert s.entries[..1] == [Entry(1, Some(p), outer)];
    assert Innermost(s.entries, outer) == Some(Entry(1, Some(p), outer));
    assert !PrefixRestorable(Begin(s), map[p := inner], c.namespaces, 0);
  }

  /** The stack of the writer inside the outer two elements. */
  lemma OuterScopes(p: string, outer: string, inner: string)
    requires p != "" && outer != inner
    ensures var a := Restored(p, outer, inner);
            var s1 := Scope(1, [Entry(1, Some(p), outer)]);
            && Open(Scope(0, []), a).0 == s1
            && Open(s1, a.values[0].element).0 == Scope(2, [Entry(1, Some(p), outer), Entry(2, Some(p), inner)])
  {
    var a := Restored(p, outer, inner);
    var s1 := Scope(1, [Entry(1, Some(p), outer)]);
    SingleNamespace(Scope(0, []), a, p, outer);
    SingleNamespace(s1, a.values[0].element, p, inner);
    assert s1.entries[..0] == [] && Innermost(s1.entries, inner) == None;
  }

  /** The innermost of three elements that restores an overridden binding is not declared anew, and read back wrongly. */
  lemma RestoredIsLost(p: string, outer: string, inner: string)
    requires p != "" && outer != inner && !IsReserved(Binding(p, outer)) && !IsReserved(Binding(p, inner))
    ensures Writable(Restored(p, outer, inner))
    ensures var read := ReadAll(Reading([], []), Events(Scope(0, []), None, Restored(p, outer, inner)));
            read.Finished? && !SameElement(read.element, Restored(p, outer, inner))
  {
    var a := Restored(p, outer, inner);
    var b := a.values[0].element;
    var c := b.values[0].element;
    var s1 := Scope(1, [Entry(1, Some(p), outer)]);
    RestoredWritable(p, outer, inner);
    OuterScopes(p, outer, inner);
    InnermostNotRestorable(Open(s1, b).0, c, p, outer, inner);
    NotBelow(s1, map[p := outer], b, c);
    NotBelow(Scope(0, []), map[], a, b);
    RoundTripIff(None, a);
  }
}
