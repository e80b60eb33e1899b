/**
  Writing an unstructured element (`ElementSerializer` in `xml/element.rs`,
  `SerializeHelper` in `quick_xml/serialize.rs`): a state machine that produces
  one event per call, over a stack of namespace declarations.
 */
module XmlWriter {
  import opened Wrappers
  import opened XmlModel

  /** A namespace declaration that is active on the given level; no prefix for the default namespace. */
  datatype Entry = Entry(level: nat, prefix: Option<string>, namespace: string)

  /** The state of the serialize helper. */
  datatype Scope = Scope(level: nat, entries: seq<Entry>)

  // ---------- The helper as functions

  function Begin(s: Scope): Scope {
    s.(level := s.level + 1)
  }

  function DropAbove(entries: seq<Entry>, level: nat): seq<Entry> {
    if entries != [] && entries[|entries| - 1].level > level then DropAbove(entries[..|entries| - 1], level) else entries
  }

  function Finish(s: Scope): Scope {
    var level := if s.level == 0 then 0 else s.level - 1;
    Scope(level, DropAbove(s.entries, level))
  }

  /** The innermost declaration of a namespace. */
  function Innermost(entries: seq<Entry>, namespace: string): Option<Entry> {
    if entries == [] then None
    else if entries[|entries| - 1].namespace == namespace then Some(entries[|entries| - 1])
    else Innermost(entries[..|entries| - 1], namespace)
  }

  function PrefixOf(prefix: string): Option<string> {
    if prefix == "" then None else Some(prefix)
  }

  function PrefixText(prefix: Option<string>): string {
    if prefix.None? then "" else prefix.value
  }

  function AddEntry(s: Scope, prefix: Option<string>, namespace: string): Scope {
    s.(entries := s.entries + [Entry(s.level, prefix, namespace)])
  }

  function XmlnsAttribute(prefix: Option<string>, namespace: string): Attribute {
    Attribute(if prefix.None? then "xmlns" else "xmlns:" + prefix.value, namespace)
  }

  /** `write_xmlns` declares unless the innermost declaration of the namespace uses this prefix. */
  predicate IsActive(s: Scope, prefix: Option<string>, namespace: string) {
    var e := Innermost(s.entries, namespace);
    e.Some? && e.value.prefix == prefix
  }

  /** All prefixes of an element, in the order its namespace map lists them. */
  function WriteAll(s: Scope, prefixes: seq<string>, namespaces: Bindings): (Scope, seq<Attribute>)
    requires forall p | p in prefixes :: p in namespaces
  {
    if prefixes == [] then (s, [])
    else
      var (t, written) := WriteAll(s, prefixes[..|prefixes| - 1], namespaces);
      var p := prefixes[|prefixes| - 1];
      if IsActive(t, PrefixOf(p), namespaces[p]) then (t, written)
      else (AddEntry(t, PrefixOf(p), namespaces[p]), written + [XmlnsAttribute(PrefixOf(p), namespaces[p])])
  }

  /** A namespace declaration that the namespace map covers is not written a second time. */
  predicate IsKept(e: Element<Namespaces>, a: Attribute) {
    match DeclaredPrefix(a.key)
    case None => true
    case Some(p) => p !in e.namespaces.bindings
  }

  function Kept(e: Element<Namespaces>, attributes: seq<Attribute>): seq<Attribute> {
    if attributes == [] then []
    else
      var init := Kept(e, attributes[..|attributes| - 1]);
      if IsKept(e, attributes[|attributes| - 1]) then init + [attributes[|attributes| - 1]] else init
  }

  // ---------- The events of an element

  /** The scope inside an element, and the attributes of its start tag. */
  ghost function Open(s: Scope, e: Element<Namespaces>): (Scope, seq<Attribute>)
  {
    var (t, written) := WriteAll(Begin(s), e.namespaces.prefixes, e.namespaces.bindings);
    (t, written + Kept(e, e.attributes))
  }

  function NameOf(name: Option<string>, e: Element<Namespaces>): string {
    if name.None? then e.name else name.value
  }

  ghost function Events(s: Scope, name: Option<string>, e: Element<Namespaces>): seq<Event>
    decreases e, 1
  {
    var (t, attributes) := Open(s, e);
    if e.values == [] then [Empty(NameOf(name, e), attributes)]
    else [Start(NameOf(name, e), attributes)] + ValueEvents(t, e.values) + [End(NameOf(name, e))]
  }

  ghost function ValueEvents(s: Scope, values: seq<Value<Namespaces>>): seq<Event>
    decreases values, 0
  {
    if values == [] then []
    else OneValue(s, values[0]) + ValueEvents(s, values[1..])
  }

  ghost function OneValue(s: Scope, v: Value<Namespaces>): seq<Event>
    decreases v, 2
  {
    match v
    case Child(e) => Events(s, None, e)
    case Comment(text) => [CommentEvent(text)]
    case CData(text) => [CDataEvent(text)]
    case Text(text) => [TextEvent(text)]
  }

  // ---------- Scopes are restored

  /** Entries are stacked level by level, none above the current one. */
  ghost predicate WellScoped(s: Scope) {
    && (forall i, j | 0 <= i < j < |s.entries| :: s.entries[i].level <= s.entries[j].level)
    && (forall i | 0 <= i < |s.entries| :: s.entries[i].level <= s.level)
  }

  /** `t` was reached from `s` without leaving its scope: all further entries belong to inner levels. */
  ghost predicate Inside(s: Scope, t: Scope) {
    && s.level < t.level && WellScoped(t) && |s.entries| <= |t.entries| && t.entries[..|s.entries|] == s.entries
    && forall i | |s.entries| <= i < |t.entries| :: s.level < t.entries[i].level
  }

  /** Dropping stops at a place `n`, not before the first `m` entries that may stay. */
  lemma {:induction false} DropToLevel(entries: seq<Entry>, level: nat, m: nat) returns (n: nat)
    requires forall i, j | 0 <= i < j < |entries| :: entries[i].level <= entries[j].level
    requires m <= |entries| && forall i | 0 <= i < m :: entries[i].level <= level
    ensures m <= n <= |entries| && DropAbove(entries, level) == entries[..n]
    ensures forall i | 0 <= i < n :: entries[i].level <= level
    ensures (forall i | m <= i < |entries| :: level < entries[i].level) ==> n == m
    decreases |entries|
  {
    if entries != [] && entries[|entries| - 1].level > level {
      n := DropToLevel(entries[..|entries| - 1], level, m);
      assert entries[..|entries| - 1][..n] == entries[..n];
    } else {
      n := |entries|;
      assert entries[..n] == entries;
    }
  }

  /** Ending the innermost scope takes back exactly what was declared since it began. */
  lemma ScopeRestored(s: Scope, t: Scope)
    requires WellScoped(s) && Inside(s, t) && t.level == s.level + 1
    ensures Finish(t) == s
  {
    OuterEntries(s, t);
    var n := DropToLevel(t.entries, s.level, |s.entries|);
  }

  lemma OuterEntries(s: Scope, t: Scope)
    requires Inside(s, t)
    ensures forall i | 0 <= i < |s.entries| :: t.entries[i] == s.entries[i]
  {
    forall i | 0 <= i < |s.entries|
      ensures t.entries[i] == s.entries[i]
    {
      assert t.entries[..|s.entries|][i] == s.entries[i];
    }
  }

  /** Ending a further inner scope stays inside. */
  lemma FinishInside(s: Scope, t: Scope)
    requires WellScoped(s) && Inside(s, t) && t.level > s.level + 1
    ensures Inside(s, Finish(t))
  {
    OuterEntries(s, t);
    var n := DropToLevel(t.entries, t.level - 1, |s.entries|);
    assert t.entries[..n][..|s.entries|] == s.entries;
  }

  lemma FinishWellScoped(s: Scope)
    requires WellScoped(s)
    ensures WellScoped(Finish(s))
  {
    var n := DropToLevel(s.entries, Finish(s).level, 0);
  }

  lemma InsideMore(s: Scope, t: Scope, prefix: Option<string>, namespace: string)
    requires Inside(s, t)
    ensures Inside(s, AddEntry(t, prefix, namespace))
  {
    assert (t.entries + [Entry(t.level, prefix, namespace)])[..|s.entries|] == t.entries[..|s.entries|];
  }

  lemma {:induction false} WriteAllInside(s: Scope, prefixes: seq<string>, namespaces: Bindings)
    requires WellScoped(s) && forall p | p in prefixes :: p in namespaces
    ensures Inside(s, WriteAll(Begin(s), prefixes, namespaces).0)
    ensures WriteAll(Begin(s), prefixes, namespaces).0.level == s.level + 1
    decreases |prefixes|
  {
    if prefixes != [] {
      var p := prefixes[|prefixes| - 1];
      WriteAllInside(s, prefixes[..|prefixes| - 1], namespaces);
      InsideMore(s, WriteAll(Begin(s), prefixes[..|prefixes| - 1], namespaces).0, PrefixOf(p), namespaces[p]);
    } else {
      assert s.entries[..|s.entries|] == s.entries;
    }
  }

  lemma OpenInside(s: Scope, e: Element<Namespaces>)
    requires WellScoped(s)
    ensures WellScoped(Open(s, e).0) && Finish(Open(s, e).0) == s
  {
    WriteAllInside(s, e.namespaces.prefixes, e.namespaces.bindings);
    ScopeRestored(s, Open(s, e).0);
  }

  // ---------- The helper

  datatype QName = QName(prefix: Option<string>, local: string, namespace: Option<string>)

  class SerializeHelper {
    var level: nat
    var namespaces: seq<Entry>

    ghost function View(): Scope
      reads this
    {
      Scope(level, namespaces)
    }

    constructor ()
      ensures View() == Scope(0, [])
    {
      level, namespaces := 0, [];
    }

    method BeginNsScope()
      modifies this
      ensures View() == Begin(old(View()))
    {
      level := level + 1;
    }

    /** Pops entries until the last one belongs to the level again. */
    method EndNsScope()
      modifies this
      ensures View() == Finish(old(View()))
    {
      level := if level == 0 then 0 else level - 1;
      while namespaces != [] && namespaces[|namespaces| - 1].level > level
        invariant level == Finish(old(View())).level
        invariant DropAbove(namespaces, level) == DropAbove(old(namespaces), level)
        decreases |namespaces|
      {
        namespaces := namespaces[..|namespaces| - 1];
      }
    }

    method AddNamespaceEntry(bytes: seq<Attribute>, prefix: Option<string>, namespace: string)
      returns (bytes': seq<Attribute>)
      modifies this
      ensures View() == AddEntry(old(View()), prefix, namespace)
      ensures bytes' == bytes + [XmlnsAttribute(prefix, namespace)]
    {
      bytes' := bytes + [Attribute(if prefix.None? then "xmlns" else "xmlns:" + prefix.value, namespace)];
      namespaces := namespaces + [Entry(level, prefix, namespace)];
    }

    /** The search from the innermost entry outwards that several operations share. */
    method FindInnermost(namespace: string) returns (r: Option<Entry>)
      ensures r == Innermost(namespaces, namespace)
    {
      var i := |namespaces|;
      assert namespaces[..i] == namespaces;
      while i > 0
        invariant i <= |namespaces|
        invariant Innermost(namespaces[..i], namespace) == Innermost(namespaces, namespace)
      {
        i := i - 1;
        assert namespaces[..i + 1][..i] == namespaces[..i];
        if namespaces[i].namespace == namespace {
          return Some(namespaces[i]);
        }
      }
      return None;
    }

    method WriteXmlns(bytes: seq<Attribute>, prefix: Option<string>, namespace: string)
      returns (bytes': seq<Attribute>)
      modifies this
      ensures var p := if prefix == Some("") then None else prefix;
              if IsActive(old(View()), p, namespace) then View() == old(View()) && bytes' == bytes
              else View() == AddEntry(old(View()), p, namespace) && bytes' == bytes + [XmlnsAttribute(p, namespace)]
    {
      var p := if prefix.Some? && prefix.value == "" then None else prefix;
      var entry := FindInnermost(namespace);
      if entry.Some? && entry.value.prefix == p {
        return bytes;
      }
      bytes' := AddNamespaceEntry(bytes, p, namespace);
    }

    /** The prefix of a qualified name follows the namespace that is active already. */
    method AddQnameNamespace(bytes: seq<Attribute>, qname: QName) returns (bytes': seq<Attribute>, r: QName)
      modifies this
      ensures qname.namespace.None? ==> r == qname && bytes' == bytes && View() == old(View())
      ensures qname.namespace.Some? ==>
                match Innermost(old(namespaces), qname.namespace.value)
                case Some(e) => r == QName(e.prefix, qname.local, qname.namespace) && bytes' == bytes && View() == old(View())
                case None => r == qname.(namespace := None)
                             && View() == AddEntry(old(View()), qname.prefix, qname.namespace.value)
                             && bytes' == bytes + [XmlnsAttribute(qname.prefix, qname.namespace.value)]
    {
      if qname.namespace.None? {
        return bytes, qname;
      }
      var ns := qname.namespace.value;
      r := qname.(namespace := None);
      var entry := FindInnermost(ns);
      if entry.Some? {
        r := QName(entry.value.prefix, qname.local, Some(ns));
        bytes' := bytes;
      } else {
        bytes' := AddNamespaceEntry(bytes, qname.prefix, ns);
      }
    }

    method GetNamespacePrefix(namespace: string) returns (r: Result<Option<string>, string>)
      ensures r == match Innermost(namespaces, namespace)
                   case Some(e) => Ok(e.prefix)
                   case None => Err(namespace)
    {
      var entry := FindInnermost(namespace);
      return if entry.Some? then Ok(entry.value.prefix) else Err(namespace);
    }
  }

  // ---------- The serializer machine

  datatype ElementSerializer =
    | StartState(name: Option<string>, element: Element<Namespaces>)
    | EndState(name: Option<string>, element: Element<Namespaces>)
    | NextValue(name: Option<string>, element: Element<Namespaces>, values: seq<Value<Namespaces>>)
    | SubElement(name: Option<string>, element: Element<Namespaces>, values: seq<Value<Namespaces>>, serializer: ElementSerializer)
    | Done

  /** The scopes the machine has begun and not ended yet. */
  function Levels(m: ElementSerializer): nat {
    match m
    case StartState(_, _) => 0
    case EndState(_, _) => 1
    case NextValue(_, _, _) => 1
    case SubElement(_, _, _, sub) => 1 + Levels(sub)
    case Done => 0
  }

  function Outer(s: Scope, n: nat): Scope
    decreases n
  {
    if n == 0 then s else Outer(Finish(s), n - 1)
  }

  /** The events the machine will still produce. */
  ghost function Pending(m: ElementSerializer, s: Scope): seq<Event>
  {
    match m
    case StartState(name, e) => Events(s, name, e)
    case EndState(name, e) => [End(NameOf(name, e))]
    case NextValue(name, e, values) => ValueEvents(s, values) + [End(NameOf(name, e))]
    case SubElement(name, e, values, sub) =>
      Pending(sub, s) + ValueEvents(Outer(s, Levels(sub)), values) + [End(NameOf(name, e))]
    case Done => []
  }

  /** An upper bound for the transitions left, the silent ones included. */
  ghost function Weight(m: ElementSerializer): nat {
    match m
    case StartState(_, e) => ElementWeight(e)
    case EndState(_, _) => 1
    case NextValue(_, _, values) => 2 + ValuesWeight(values)
    case SubElement(_, _, values, sub) => 3 + Weight(sub) + ValuesWeight(values)
    case Done => 0
  }

  ghost function ElementWeight(e: Element<Namespaces>): nat
    decreases e, 1
  {
    3 + ValuesWeight(e.values)
  }

  ghost function ValuesWeight(values: seq<Value<Namespaces>>): nat
    decreases values, 0
  {
    if values == [] then 0 else ValueWeight(values[0]) + ValuesWeight(values[1..])
  }

  ghost function ValueWeight(v: Value<Namespaces>): nat
    decreases v, 2
  {
    if v.Child? then 2 + ElementWeight(v.element) else 1
  }

  lemma {:induction false} OuterWellScoped(s: Scope, n: nat)
    requires WellScoped(s)
    ensures WellScoped(Outer(s, n))
    decreases n
  {
    if n > 0 {
      FinishWellScoped(s);
      OuterWellScoped(Finish(s), n - 1);
    }
  }

  lemma {:induction false} OuterOnce(s: Scope, n: nat)
    ensures Outer(s, n + 1) == Finish(Outer(s, n))
    decreases n
  {
    if n > 0 {
      OuterOnce(Finish(s), n - 1);
    }
  }

  /** Going into a child element, and coming back from it, are silent. */
  lemma IntoChild(name: Option<string>, e: Element<Namespaces>, values: seq<Value<Namespaces>>, s: Scope)
    requires values != [] && values[0].Child?
    ensures var m := NextValue(name, e, values);
            var m' := SubElement(name, e, values[1..], StartState(None, values[0].element));
            Pending(m', s) == Pending(m, s) && Weight(m') < Weight(m) && Levels(m') == Levels(m)
  {
    assert OneValue(s, values[0]) == Events(s, None, values[0].element);
    assert ValueWeight(values[0]) == 2 + ElementWeight(values[0].element);
  }

  lemma LeafValue(name: Option<string>, e: Element<Namespaces>, values: seq<Value<Namespaces>>, s: Scope, event: Event)
    requires WellScoped(s) && values != [] && !values[0].Child? && OneValue(s, values[0]) == [event]
    ensures Takes(NextValue(name, e, values), s, NextValue(name, e, values[1..]), s, Some(event))
  {
    FirstOf(event, ValueEvents(s, values[1..]), [End(NameOf(name, e))]);
  }

  lemma OutOfChild(name: Option<string>, e: Element<Namespaces>, values: seq<Value<Namespaces>>, sub: ElementSerializer,
                   s: Scope, s': Scope)
    requires Takes(sub, s, Done, s', None)
    ensures var m := SubElement(name, e, values, sub);
            var m' := NextValue(name, e, values);
            && Pending(m', s') == Pending(m, s) && Weight(m') < Weight(m)
            && Outer(s', Levels(m')) == Outer(s, Levels(m))
  {
    OuterOnce(s, Levels(sub));
    OuterOnce(s', 0);
    var rest := ValueEvents(Outer(s, Levels(sub)), values);
    assert [] + rest == rest;
  }

  lemma WithinChild(name: Option<string>, e: Element<Namespaces>, values: seq<Value<Namespaces>>, sub: ElementSerializer,
                    s: Scope, sub': ElementSerializer, s': Scope, event: Event)
    requires Takes(sub, s, sub', s', Some(event))
    ensures Takes(SubElement(name, e, values, sub), s, SubElement(name, e, values, sub'), s', Some(event))
  {
    OuterOnce(s, Levels(sub));
    OuterOnce(s', Levels(sub'));
    PendingWithin(name, e, values, sub, s);
    PendingWithin(name, e, values, sub', s');
    var rest := ValueEvents(Outer(s, Levels(sub)), values) + [End(NameOf(name, e))];
    FirstOf(event, Pending(sub', s'), rest);
  }

  /** What is pending inside a child, and what comes after it. */
  lemma PendingWithin(name: Option<string>, e: Element<Namespaces>, values: seq<Value<Namespaces>>, sub: ElementSerializer, s: Scope)
    ensures Pending(SubElement(name, e, values, sub), s)
         == Pending(sub, s) + (ValueEvents(Outer(s, Levels(sub)), values) + [End(NameOf(name, e))])
  {
    FirstOfThree(Pending(sub, s), ValueEvents(Outer(s, Levels(sub)), values), [End(NameOf(name, e))]);
  }

  lemma FirstOf<T>(x: T, a: seq<T>, b: seq<T>)
    ensures [x] + a + b == [x] + (a + b)
  {
  }

  lemma MoveFirst<T>(a: seq<T>, x: T, b: seq<T>)
    ensures a + ([x] + b) == a + [x] + b
  {
  }

  lemma FirstOfThree<T>(a: seq<T>, b: seq<T>, c: seq<T>)
    ensures a + b + c == a + (b + c)
  {
  }

  /** What one call of `next_item` does: it takes the first pending event, and scopes keep adding up. */
  ghost predicate Takes(m: ElementSerializer, s: Scope, m': ElementSerializer, s': Scope, ev: Option<Event>)
  {
    && Outer(s', Levels(m')) == Outer(s, Levels(m)) && WellScoped(s')
    && match ev
       case Some(event) => Pending(m, s) == [event] + Pending(m', s')
       case None => Pending(m, s) == [] && m' == Done
  }

  lemma WriteAllStep(s: Scope, prefixes: seq<string>, namespaces: Bindings, i: nat)
    requires i < |prefixes| && forall p | p in prefixes :: p in namespaces
    ensures var (t, written) := WriteAll(s, prefixes[..i], namespaces);
            var p := prefixes[i];
            WriteAll(s, prefixes[..i + 1], namespaces) ==
              if IsActive(t, PrefixOf(p), namespaces[p]) then (t, written)
              else (AddEntry(t, PrefixOf(p), namespaces[p]), written + [XmlnsAttribute(PrefixOf(p), namespaces[p])])
  {
    assert prefixes[..i + 1][..i] == prefixes[..i];
  }

  lemma KeptStep(e: Element<Namespaces>, attributes: seq<Attribute>, i: nat)
    requires i < |attributes|
    ensures Kept(e, attributes[..i + 1]) ==
              if IsKept(e, attributes[i]) then Kept(e, attributes[..i]) + [attributes[i]] else Kept(e, attributes[..i])
  {
    assert attributes[..i + 1][..i] == attributes[..i];
  }

  /** The loop over the namespace map. */
  method WriteNamespaces(helper: SerializeHelper, prefixes: seq<string>, namespaces: Bindings)
    returns (attributes: seq<Attribute>)
    requires forall p | p in prefixes :: p in namespaces
    modifies helper
    ensures (helper.View(), attributes) == WriteAll(old(helper.View()), prefixes, namespaces)
  {
    attributes := [];
    for i := 0 to |prefixes|
      invariant (helper.View(), attributes) == WriteAll(old(helper.View()), prefixes[..i], namespaces)
    {
      WriteAllStep(old(helper.View()), prefixes, namespaces, i);
      var p := prefixes[i];
      attributes := helper.WriteXmlns(attributes, if p == "" then None else Some(p), namespaces[p]);
    }
    assert prefixes[..|prefixes|] == prefixes;
  }

  /** The filter over the attributes. */
  method KeepAttributes(element: Element<Namespaces>) returns (kept: seq<Attribute>)
    ensures kept == Kept(element, element.attributes)
  {
    kept := [];
    for i := 0 to |element.attributes|
      invariant kept == Kept(element, element.attributes[..i])
    {
      KeptStep(element, element.attributes, i);
      if IsKept(element, element.attributes[i]) {
        kept := kept + [element.attributes[i]];
      }
    }
    assert element.attributes[..|element.attributes|] == element.attributes;
  }

  /** The start tag, with the declarations the helper finds necessary. */
  method WriteStart(helper: SerializeHelper, element: Element<Namespaces>) returns (attributes: seq<Attribute>)
    modifies helper
    ensures (helper.View(), attributes) == Open(old(helper.View()), element)
  {
    helper.BeginNsScope();
    attributes := WriteNamespaces(helper, element.namespaces.prefixes, element.namespaces.bindings);
    var kept := KeepAttributes(element);
    attributes := attributes + kept;
  }

  /** The first event of an element. */
  method StartItem(name: Option<string>, element: Element<Namespaces>, helper: SerializeHelper)
    returns (machine': ElementSerializer, event: Event)
    requires WellScoped(helper.View())
    modifies helper
    ensures Takes(StartState(name, element), old(helper.View()), machine', helper.View(), Some(event))
  {
    OpenInside(helper.View(), element);
    var attributes := WriteStart(helper, element);
    if element.values == [] {
      helper.EndNsScope();
      return Done, Empty(NameOf(name, element), attributes);
    }
    FirstOf(Start(NameOf(name, element), attributes), ValueEvents(helper.View(), element.values), [End(NameOf(name, element))]);
    return NextValue(name, element, element.values), Start(NameOf(name, element), attributes);
  }

  /** `next_item`: replaces its own state, silently until the next event is due. */
  method NextItem(machine: ElementSerializer, helper: SerializeHelper)
    returns (machine': ElementSerializer, event: Option<Event>)
    requires WellScoped(helper.View())
    modifies helper
    ensures Takes(machine, old(helper.View()), machine', helper.View(), event)
    decreases Weight(machine)
  {
    var m := machine;
    while true
      invariant WellScoped(helper.View()) && Weight(m) <= Weight(machine)
      invariant Pending(m, helper.View()) == Pending(machine, old(helper.View()))
      invariant Outer(helper.View(), Levels(m)) == Outer(old(helper.View()), Levels(machine))
      decreases Weight(m)
    {
      match m {
      case StartState(name, element) =>
        var m', ev := StartItem(name, element, helper);
        return m', Some(ev);
      case EndState(name, element) =>
        FinishWellScoped(helper.View());
        helper.EndNsScope();
        return Done, Some(End(NameOf(name, element)));
      case NextValue(name, element, values) =>
        if values == [] {
          m := EndState(name, element);
        } else {
          match values[0] {
          case Child(sub) =>
            IntoChild(name, element, values, helper.View());
            m := SubElement(name, element, values[1..], StartState(None, sub));
          case Comment(text) =>
            LeafValue(name, element, values, helper.View(), CommentEvent(text));
            return NextValue(name, element, values[1..]), Some(CommentEvent(text));
          case CData(text) =>
            LeafValue(name, element, values, helper.View(), CDataEvent(text));
            return NextValue(name, element, values[1..]), Some(CDataEvent(text));
          case Text(text) =>
            LeafValue(name, element, values, helper.View(), TextEvent(text));
            return NextValue(name, element, values[1..]), Some(TextEvent(text));
          }
        }
      case SubElement(name, element, values, serializer) =>
        ghost var before := helper.View();
        var serializer', ev := NextItem(serializer, helper);
        match ev {
        case None =>
          OutOfChild(name, element, values, serializer, before, helper.View());
          m := NextValue(name, element, values);
        case Some(event) =>
          WithinChild(name, element, values, serializer, before, serializer', helper.View(), event);
          return SubElement(name, element, values, serializer'), ev;
        }
      case Done =>
        return Done, None;
      }
    }
  }

  /**
    `serialize_sync`: exactly the events of the element, in document order; the
    helper is left as it was, and the machine stays done.
   */
  method Serialize(element: Element<Namespaces>, name: Option<string>, helper: SerializeHelper)
    returns (events: seq<Event>)
    requires WellScoped(helper.View())
    modifies helper
    ensures events == Events(old(helper.View()), name, element)
    ensures helper.View() == old(helper.View())
  {
    var m := StartState(name, element);
    events := [];
    var more := true;
    while more
      invariant WellScoped(helper.View())
      invariant events + Pending(m, helper.View()) == Events(old(helper.View()), name, element)
      invariant Outer(helper.View(), Levels(m)) == old(helper.View())
      invariant !more ==> m == Done
      decreases more, |Pending(m, helper.View())|
    {
      var ev;
      m, ev := NextItem(m, helper);
      match ev
      case None => more := false;
      case Some(event) =>
        MoveFirst(events, event, Pending(m, helper.View()));
        events := events + [event];
    }
  }
}
