/**
  Writing an element and reading the events back. For every element the result
  is known exactly; the element is rebuilt, up to namespace declarations among
  its attributes, exactly if the bindings the reader sees at each element are
  the element's own.
 */
module XmlRoundTrip {
  import opened Wrappers
  import opened XmlModel
  import opened XmlWriter
  import opened XmlReader

  // ---------- What is read back

  /** The element a reader builds from the written events. */
  ghost function Reread(s: Scope, b: Bindings, name: Option<string>, e: Element<Namespaces>): Element<Bindings>
    decreases e, 1
  {
    var (t, attributes) := Open(s, e);
    var b' := DeclareAll(b, Declarations(attributes));
    Element(NameOf(name, e), RereadValues(t, b', e.values), attributes, b')
  }

  ghost function RereadValues(s: Scope, b: Bindings, values: seq<Value<Namespaces>>): seq<Value<Bindings>>
    decreases values, 0
  {
    if values == [] then [] else [RereadValue(s, b, values[0])] + RereadValues(s, b, values[1..])
  }

  ghost function RereadValue(s: Scope, b: Bindings, v: Value<Namespaces>): Value<Bindings>
    decreases v, 2
  {
    match v
    case Child(e) => Child(Reread(s, b, None, e))
    case Comment(text) => Comment(text)
    case CData(text) => CData(text)
    case Text(text) => Text(text)
  }

  /** Attribute names are distinct, and no reserved namespace is declared, here and below. */
  ghost predicate Writable(e: Element<Namespaces>)
    decreases e, 1
  {
    && DistinctKeys(e.attributes) && (forall i | 0 <= i < |e.attributes| :: e.attributes[i].key != "xmlns:")
    && Legal(Declarations(e.attributes))
    && (forall p | p in e.namespaces.bindings :: !IsReserved(Binding(p, e.namespaces.bindings[p])))
    && WritableValues(e.values)
  }

  ghost predicate WritableValues(values: seq<Value<Namespaces>>)
    decreases values, 0
  {
    values != [] ==> WritableValue(values[0]) && WritableValues(values[1..])
  }

  ghost predicate WritableValue(v: Value<Namespaces>)
    decreases v, 2
  {
    v.Child? ==> Writable(v.element)
  }

  // ---------- The attributes of a start tag

  lemma DeclaresOnlyOne(key: string, p: string)
    requires key != "xmlns:"
    ensures DeclaredPrefix(key) == Some(p) <==> key == XmlnsKey(p)
  {
    XmlnsKeyDeclares(p);
    if DeclaredPrefix(key) == Some(p) && key != "xmlns" {
      assert key == key[..6] + key[6..];
    }
  }

  lemma FreshDeclaration(prefixes: seq<string>, namespaces: Bindings, w: seq<Attribute>, p: string)
    requires forall q | q in prefixes :: q in namespaces
    requires p !in prefixes && p in namespaces
    requires (forall a | a in w :: WrittenFor(a, prefixes, namespaces)) && DistinctKeys(w)
    ensures DistinctKeys(w + [Attribute(XmlnsKey(p), namespaces[p])])
  {
    forall i | 0 <= i < |w|
      ensures w[i].key != XmlnsKey(p)
    {
      assert w[i] in w;
      var q :| q in prefixes && w[i] == Attribute(XmlnsKey(q), namespaces[q]);
      XmlnsKeyDeclares(p);
      XmlnsKeyDeclares(q);
    }
  }

  /** The declarations written for a namespace map: one for each prefix that was not active outside. */
  lemma {:induction false} WrittenAttributes(s: Scope, prefixes: seq<string>, namespaces: Bindings)
    requires forall i, j | 0 <= i < j < |prefixes| :: prefixes[i] != prefixes[j]
    requires forall p | p in prefixes :: p in namespaces
    ensures var (t, w) := WriteAll(s, prefixes, namespaces);
            && (forall a | a in w :: WrittenFor(a, prefixes, namespaces)) && DistinctKeys(w)
            && (forall p | p in prefixes ::
                  Attribute(XmlnsKey(p), namespaces[p]) in w || OnStack(s.entries, p, namespaces[p]))
            && (forall x | x in t.entries :: x in s.entries || EntryFor(x, prefixes, namespaces))
    decreases |prefixes|
  {
    if prefixes != [] {
      var n := |prefixes| - 1;
      var p := prefixes[n];
      WrittenAttributes(s, prefixes[..n], namespaces);
      var (t, w) := WriteAll(s, prefixes[..n], namespaces);
      assert p !in prefixes[..n];
      if IsActive(t, PrefixOf(p), namespaces[p]) {
        InnermostIsEntry(t.entries, namespaces[p]);
        var x := Innermost(t.entries, namespaces[p]).value;
        assert x in s.entries;
      } else {
        FreshDeclaration(prefixes[..n], namespaces, w, p);
        assert XmlnsAttribute(PrefixOf(p), namespaces[p]) == Attribute(XmlnsKey(p), namespaces[p]);
        var w' := WriteAll(s, prefixes, namespaces).1;
        assert w' == w + [Attribute(XmlnsKey(p), namespaces[p])];
      }
      WrittenMore(prefixes, namespaces, w);
      assert p in prefixes;
    }
  }

  ghost predicate WrittenFor(a: Attribute, prefixes: seq<string>, namespaces: Bindings)
    requires forall p | p in prefixes :: p in namespaces
  {
    exists p | p in prefixes :: a == Attribute(XmlnsKey(p), namespaces[p])
  }

  ghost predicate EntryFor(x: Entry, prefixes: seq<string>, namespaces: Bindings)
    requires forall p | p in prefixes :: p in namespaces
  {
    exists p | p in prefixes :: x.prefix == PrefixOf(p) && x.namespace == namespaces[p]
  }

  /** The stack holds a declaration of `p` for `namespace`. */
  ghost predicate OnStack(entries: seq<Entry>, p: string, namespace: string) {
    exists x | x in entries :: x.prefix == PrefixOf(p) && x.namespace == namespace
  }

  lemma WrittenMore(prefixes: seq<string>, namespaces: Bindings, w: seq<Attribute>)
    requires prefixes != [] && forall p | p in prefixes :: p in namespaces
    requires forall a | a in w :: WrittenFor(a, prefixes[..|prefixes| - 1], namespaces)
    ensures forall a | a in w :: WrittenFor(a, prefixes, namespaces)
  {
    forall a | a in w
      ensures WrittenFor(a, prefixes, namespaces)
    {
      var q :| q in prefixes[..|prefixes| - 1] && a == Attribute(XmlnsKey(q), namespaces[q]);
      assert q in prefixes;
    }
  }

  lemma {:induction false} InnermostIsEntry(entries: seq<Entry>, namespace: string)
    ensures var x := Innermost(entries, namespace);
            x.Some? ==> x.value in entries && x.value.namespace == namespace
    decreases |entries|
  {
    if entries != [] && entries[|entries| - 1].namespace != namespace {
      InnermostIsEntry(entries[..|entries| - 1], namespace);
    }
  }

  lemma {:induction false} KeptAttributes(e: Element<Namespaces>, attributes: seq<Attribute>)
    requires DistinctKeys(attributes)
    ensures var k := Kept(e, attributes);
            DistinctKeys(k) && forall a :: a in k <==> a in attributes && IsKept(e, a)
    decreases |attributes|
  {
    if attributes != [] {
      var n := |attributes| - 1;
      KeptAttributes(e, attributes[..n]);
      var k := Kept(e, attributes[..n]);
      forall i | 0 <= i < |k|
        ensures k[i].key != attributes[n].key
      {
        assert k[i] in attributes[..n];
      }
      assert attributes == attributes[..n] + [attributes[n]];
    }
  }

  /** A start tag repeats no attribute name. */
  lemma StartTagDistinct(s: Scope, e: Element<Namespaces>)
    requires Writable(e)
    ensures DistinctKeys(Open(s, e).1)
  {
    var (t, w) := WriteAll(Begin(s), e.namespaces.prefixes, e.namespaces.bindings);
    WrittenAttributes(Begin(s), e.namespaces.prefixes, e.namespaces.bindings);
    KeptAttributes(e, e.attributes);
    var k := Kept(e, e.attributes);
    forall i, j | 0 <= i < |w| && 0 <= j < |k|
      ensures w[i].key != k[j].key
    {
      assert w[i] in w && k[j] in k;
      var p :| p in e.namespaces.prefixes && w[i] == Attribute(XmlnsKey(p), e.namespaces.bindings[p]);
      XmlnsKeyDeclares(p);
      assert IsKept(e, k[j]);
    }
  }

  lemma {:induction false} LegalDeclarations(attributes: seq<Attribute>)
    ensures Legal(Declarations(attributes)) <==>
              forall a | a in attributes && DeclaredPrefix(a.key).Some? ::
                !IsReserved(Binding(DeclaredPrefix(a.key).value, a.value))
    decreases |attributes|
  {
    if attributes != [] {
      var n := |attributes| - 1;
      LegalDeclarations(attributes[..n]);
      assert attributes == attributes[..n] + [attributes[n]];
      var ds := Declarations(attributes[..n]);
      assert Declarations(attributes)[..|ds|] == ds;
      if DeclaredPrefix(attributes[n].key).Some? {
        assert Declarations(attributes)[|ds|] == Binding(DeclaredPrefix(attributes[n].key).value, attributes[n].value);
      }
      assert Legal(Declarations(attributes)) ==> Legal(ds) by {
        assert forall i | 0 <= i < |ds| :: ds[i] == Declarations(attributes)[i];
      }
    }
  }

  lemma StartTagLegal(s: Scope, e: Element<Namespaces>)
    requires Writable(e)
    ensures Legal(Declarations(Open(s, e).1))
  {
    var (t, w) := WriteAll(Begin(s), e.namespaces.prefixes, e.namespaces.bindings);
    WrittenAttributes(Begin(s), e.namespaces.prefixes, e.namespaces.bindings);
    KeptAttributes(e, e.attributes);
    LegalDeclarations(e.attributes);
    forall a | a in w + Kept(e, e.attributes) && DeclaredPrefix(a.key).Some?
      ensures !IsReserved(Binding(DeclaredPrefix(a.key).value, a.value))
    {
      if a in w {
        var p :| p in e.namespaces.prefixes && a == Attribute(XmlnsKey(p), e.namespaces.bindings[p]);
        XmlnsKeyDeclares(p);
      }
    }
    LegalDeclarations(w + Kept(e, e.attributes));
  }

  // ---------- Reading the written events

  lemma {:induction false} ReadAppend(r: Reading, a: seq<Event>, b: seq<Event>, r': Reading)
    requires ReadAll(r, a) == Running(r')
    ensures ReadAll(r, a + b) == ReadAll(r', b)
    decreases |a|
  {
    if a == [] {
      assert a + b == b;
    } else {
      assert (a + b)[1..] == a[1..] + b;
      ReadAppend(ReadStep(r, a[0]).state, a[1..], b, r');
    }
  }

  lemma ReadOne(r: Reading, ev: Event)
    ensures ReadStep(r, ev).Running? ==> ReadAll(r, [ev]) == ReadStep(r, ev)
  {
    assert [ev][1..] == [];
  }

  function AppendAll(stack: seq<Element<Bindings>>, values: seq<Value<Bindings>>): seq<Element<Bindings>>
    requires stack != []
  {
    var top := stack[|stack| - 1];
    stack[..|stack| - 1] + [top.(values := top.values + values)]
  }

  /** The reader enters an element with legal attributes. */
  lemma ReadStart(stack: seq<Element<Bindings>>, open: seq<Frame>, name: string, attributes: seq<Attribute>)
    requires DistinctKeys(attributes) && Legal(Declarations(attributes))
    ensures var b := DeclareAll(InScope(open), Declarations(attributes));
            && InScope(open + [Declarations(attributes)]) == b
            && ReadAll(Reading(stack, open), [Start(name, attributes)]) ==
                 Running(Reading(stack + [Element(name, [], attributes, b)], open + [Declarations(attributes)]))
  {
    assert (open + [Declarations(attributes)])[..|open|] == open;
    ReadOne(Reading(stack, open), Start(name, attributes));
  }

  lemma ReadEmpty(stack: seq<Element<Bindings>>, open: seq<Frame>, name: string, attributes: seq<Attribute>)
    requires DistinctKeys(attributes) && Legal(Declarations(attributes))
    ensures var x := Element(name, [], attributes, DeclareAll(InScope(open), Declarations(attributes)));
            ReadAll(Reading(stack, open), [Empty(name, attributes)]) ==
              if stack == [] then Finished(x) else Running(Reading(AppendTop(stack, Child(x)), open))
  {
    assert (open + [Declarations(attributes)])[..|open|] == open;
    assert [Empty(name, attributes)][1..] == [];
  }

  lemma ReadEnd(stack: seq<Element<Bindings>>, x: Element<Bindings>, open: seq<Frame>, frame: Frame, name: string)
    ensures ReadAll(Reading(stack + [x], open + [frame]), [End(name)]) ==
              if stack == [] then Finished(x) else Running(Reading(AppendTop(stack, Child(x)), open))
  {
    assert (open + [frame])[..|open|] == open && (stack + [x])[..|stack|] == stack;
    assert [End(name)][1..] == [];
  }

  /** Reading a non-empty element: its start, its values, its end. */
  lemma ReadParts(s: Scope, stack: seq<Element<Bindings>>, open: seq<Frame>, name: Option<string>, e: Element<Namespaces>)
    requires Writable(e) && WellScoped(s) && e.values != []
    requires var (t, attributes) := Open(s, e);
             var b := DeclareAll(InScope(open), Declarations(attributes));
             var x := Element(NameOf(name, e), [], attributes, b);
             ReadAll(Reading(stack + [x], open + [Declarations(attributes)]), ValueEvents(t, e.values)) ==
               Running(Reading(AppendAll(stack + [x], RereadValues(t, b, e.values)), open + [Declarations(attributes)]))
    ensures var x := Reread(s, InScope(open), name, e);
            ReadAll(Reading(stack, open), Events(s, name, e)) ==
              if stack == [] then Finished(x) else Running(Reading(AppendTop(stack, Child(x)), open))
  {
    var (t, attributes) := Open(s, e);
    var frame := Declarations(attributes);
    var b := DeclareAll(InScope(open), frame);
    var n := NameOf(name, e);
    var x := Element(n, [], attributes, b);
    var r, r1 := Reading(stack, open), Reading(stack + [x], open + [frame]);
    var body := ValueEvents(t, e.values);
    var values := RereadValues(t, b, e.values);
    StartTagDistinct(s, e);
    StartTagLegal(s, e);
    ReadStart(stack, open, n, attributes);
    ReadAppend(r, [Start(n, attributes)], body, r1);
    assert (stack + [x])[..|stack|] == stack && [] + values == values;
    var r2 := Reading(stack + [x.(values := values)], open + [frame]);
    ReadAppend(r, [Start(n, attributes)] + body, [End(n)], r2);
    ReadEnd(stack, x.(values := values), open, frame, n);
  }

  /** A complete child element ends up as the last value of the element above it. */
  lemma {:induction false} ReadChild(s: Scope, stack: seq<Element<Bindings>>, open: seq<Frame>, e: Element<Namespaces>)
    requires Writable(e) && WellScoped(s) && stack != []
    ensures ReadAll(Reading(stack, open), Events(s, None, e)) ==
              Running(Reading(AppendTop(stack, Child(Reread(s, InScope(open), None, e))), open))
    decreases e, 1
  {
    var (t, attributes) := Open(s, e);
    StartTagDistinct(s, e);
    StartTagLegal(s, e);
    OpenInside(s, e);
    if e.values == [] {
      ReadEmpty(stack, open, e.name, attributes);
    } else {
      ReadStart(stack, open, e.name, attributes);
      var x := Element(e.name, [], attributes, DeclareAll(InScope(open), Declarations(attributes)));
      ReadValues(t, stack + [x], open + [Declarations(attributes)], e.values);
      ReadParts(s, stack, open, None, e);
    }
  }

  lemma {:induction false} ReadValues(s: Scope, stack: seq<Element<Bindings>>, open: seq<Frame>, values: seq<Value<Namespaces>>)
    requires WritableValues(values) && WellScoped(s) && stack != []
    ensures ReadAll(Reading(stack, open), ValueEvents(s, values)) ==
              Running(Reading(AppendAll(stack, RereadValues(s, InScope(open), values)), open))
    decreases values, 0
  {
    if values == [] {
      assert stack[|stack| - 1].values + [] == stack[|stack| - 1].values;
      assert AppendAll(stack, []) == stack;
    } else {
      var b := InScope(open);
      var v := RereadValue(s, b, values[0]);
      ReadValue(s, stack, open, values[0]);
      var stack' := AppendTop(stack, v);
      ReadAppend(Reading(stack, open), OneValue(s, values[0]), ValueEvents(s, values[1..]), Reading(stack', open));
      ReadValues(s, stack', open, values[1..]);
      AppendMore(stack, v, RereadValues(s, b, values[1..]));
    }
  }

  lemma AppendMore(stack: seq<Element<Bindings>>, v: Value<Bindings>, rest: seq<Value<Bindings>>)
    requires stack != []
    ensures AppendAll(AppendTop(stack, v), rest) == AppendAll(stack, [v] + rest)
  {
    assert stack[|stack| - 1].values + [v] + rest == stack[|stack| - 1].values + ([v] + rest);
    assert AppendTop(stack, v)[..|stack| - 1] == stack[..|stack| - 1];
  }

  lemma ReadValue(s: Scope, stack: seq<Element<Bindings>>, open: seq<Frame>, v: Value<Namespaces>)
    requires WritableValue(v) && WellScoped(s) && stack != []
    ensures ReadAll(Reading(stack, open), OneValue(s, v)) ==
              Running(Reading(AppendTop(stack, RereadValue(s, InScope(open), v)), open))
    decreases v, 2
  {
    match v
    case Child(e) => ReadChild(s, stack, open, e);
    case Comment(text) => ReadOne(Reading(stack, open), CommentEvent(text));
    case CData(text) => ReadOne(Reading(stack, open), CDataEvent(text));
    case Text(text) => ReadOne(Reading(stack, open), TextEvent(text));
  }

  /**
    Every writable element is read back without error, and the result is known:
    names, texts and structure are unchanged, the attributes are those of the
    start tag, and the namespaces are the bindings in scope for the reader.
   */
  lemma WrittenIsReread(name: Option<string>, e: Element<Namespaces>)
    requires Writable(e)
    ensures ReadAll(Reading([], []), Events(Scope(0, []), name, e))
         == Finished(Reread(Scope(0, []), map[], name, e))
  {
    var s := Scope(0, []);
    var (t, attributes) := Open(s, e);
    var frame := Declarations(attributes);
    StartTagDistinct(s, e);
    StartTagLegal(s, e);
    OpenInside(s, e);
    if e.values == [] {
      ReadEmpty([], [], NameOf(name, e), attributes);
    } else {
      ReadStart([], [], NameOf(name, e), attributes);
      var x := Element(NameOf(name, e), [], attributes, DeclareAll(InScope([]), frame));
      assert InScope([] + [frame]) == DeclareAll(InScope([]), frame);
      ReadValues(t, [] + [x], [] + [frame], e.values);
      ReadParts(s, [], [], name, e);
    }
  }

  // ---------- When the element is rebuilt

  /** The attributes that are no namespace declarations. */
  function Plain(attributes: seq<Attribute>): seq<Attribute> {
    if attributes == [] then []
    else
      var init := Plain(attributes[..|attributes| - 1]);
      var last := attributes[|attributes| - 1];
      if DeclaredPrefix(last.key).None? then init + [last] else init
  }

  /** Equal up to namespace declarations among the attributes. */
  ghost predicate SameElement(a: Element<Bindings>, b: Element<Namespaces>)
    decreases a, 1
  {
    a.name == b.name && Plain(a.attributes) == Plain(b.attributes) && a.namespaces == b.namespaces.bindings
    && SameValues(a.values, b.values)
  }

  ghost predicate SameValues(a: seq<Value<Bindings>>, b: seq<Value<Namespaces>>)
    decreases a, 0
  {
    |a| == |b| && (a != [] ==> SameValue(a[0], b[0]) && SameValues(a[1..], b[1..]))
  }

  ghost predicate SameValue(a: Value<Bindings>, b: Value<Namespaces>)
    decreases a, 2
  {
    match (a, b)
    case (Child(x), Child(y)) => SameElement(x, y)
    case (Comment(x), Comment(y)) => x == y
    case (CData(x), CData(y)) => x == y
    case (Text(x), Text(y)) => x == y
    case _ => false
  }

  lemma {:induction false} PlainAppend(a: seq<Attribute>, b: seq<Attribute>)
    ensures Plain(a + b) == Plain(a) + Plain(b)
    decreases |b|
  {
    if b == [] {
      assert a + b == a;
    } else {
      PlainAppend(a, b[..|b| - 1]);
      assert (a + b)[..|a + b| - 1] == a + b[..|b| - 1];
    }
  }

  lemma {:induction false} PlainKept(e: Element<Namespaces>, attributes: seq<Attribute>)
    ensures Plain(Kept(e, attributes)) == Plain(attributes)
    decreases |attributes|
  {
    if attributes != [] {
      var n := |attributes| - 1;
      PlainKept(e, attributes[..n]);
      PlainAppend(Kept(e, attributes[..n]), [attributes[n]]);
      assert [attributes[n]][..0] == [];
    }
  }

  lemma {:induction false} PlainDeclarations(w: seq<Attribute>)
    requires forall a | a in w :: DeclaredPrefix(a.key).Some?
    ensures Plain(w) == []
    decreases |w|
  {
    if w != [] {
      PlainDeclarations(w[..|w| - 1]);
    }
  }

  /** All ordinary attributes are written, in order. */
  lemma OpenKeepsPlain(s: Scope, e: Element<Namespaces>)
    ensures Plain(Open(s, e).1) == Plain(e.attributes)
  {
    var (t, w) := WriteAll(Begin(s), e.namespaces.prefixes, e.namespaces.bindings);
    WrittenAttributes(Begin(s), e.namespaces.prefixes, e.namespaces.bindings);
    forall a | a in w
      ensures DeclaredPrefix(a.key).Some?
    {
      var p :| p in e.namespaces.prefixes && a == Attribute(XmlnsKey(p), e.namespaces.bindings[p]);
      XmlnsKeyDeclares(p);
    }
    PlainDeclarations(w);
    PlainAppend(w, Kept(e, e.attributes));
    PlainKept(e, e.attributes);
  }

  // ---------- The bindings a start tag leads to

  /** The bindings after some attributes, one attribute at a time. */
  lemma LastDeclaration(b: Bindings, attributes: seq<Attribute>)
    requires attributes != []
    ensures var last := attributes[|attributes| - 1];
            var before := DeclareAll(b, Declarations(attributes[..|attributes| - 1]));
            DeclareAll(b, Declarations(attributes)) ==
              match DeclaredPrefix(last.key)
              case None => before
              case Some(q) => Declare(before, Binding(q, last.value))
  {
    var ds := Declarations(attributes[..|attributes| - 1]);
    if DeclaredPrefix(attributes[|attributes| - 1].key).Some? {
      assert Declarations(attributes)[..|ds|] == ds;
    }
  }

  ghost predicate NoOddKey(attributes: seq<Attribute>) {
    forall i | 0 <= i < |attributes| :: attributes[i].key != "xmlns:"
  }

  /** A prefix that no attribute declares keeps its binding. */
  lemma {:induction false} UndeclaredPrefix(b: Bindings, attributes: seq<Attribute>, p: string)
    requires NoOddKey(attributes)
    requires forall i | 0 <= i < |attributes| :: attributes[i].key != XmlnsKey(p)
    ensures var b' := DeclareAll(b, Declarations(attributes));
            (p in b' <==> p in b) && (p in b ==> b'[p] == b[p])
    decreases |attributes|
  {
    if attributes != [] {
      var n := |attributes| - 1;
      UndeclaredPrefix(b, attributes[..n], p);
      DeclaresOnlyOne(attributes[n].key, p);
      LastDeclaration(b, attributes);
    }
  }

  lemma OtherPrefix(b: Bindings, a: Attribute, p: string)
    requires DeclaredPrefix(a.key) != Some(p)
    ensures var b' := match DeclaredPrefix(a.key) case None => b case Some(q) => Declare(b, Binding(q, a.value));
            (p in b' <==> p in b) && (p in b ==> b'[p] == b[p])
  {
  }

  /** The only declaration of a prefix decides its binding. */
  lemma {:induction false} OnlyDeclaration(b: Bindings, attributes: seq<Attribute>, i: nat, p: string)
    requires NoOddKey(attributes) && DistinctKeys(attributes) && i < |attributes| && attributes[i].key == XmlnsKey(p)
    requires p != "xml"
    ensures var b' := DeclareAll(b, Declarations(attributes));
            if attributes[i].value == "" then p !in b' else p in b' && b'[p] == attributes[i].value
    decreases |attributes|
  {
    var n := |attributes| - 1;
    var last := attributes[n];
    LastDeclaration(b, attributes);
    DeclaresOnlyOne(last.key, p);
    var before := DeclareAll(b, Declarations(attributes[..n]));
    if i < n {
      assert last.key != XmlnsKey(p);
      OnlyDeclaration(b, attributes[..n], i, p);
      OtherPrefix(before, last, p);
    } else {
      assert DeclareAll(b, Declarations(attributes)) == Declare(before, Binding(p, last.value));
    }
  }

  /**
    The guard of `write_xmlns` for the `i`-th prefix of the namespace map: its
    declaration is left out, because the innermost declaration of the namespace
    uses this prefix.
   */
  predicate LeftOut(s: Scope, n: Namespaces, i: nat)
    requires i < |n.prefixes|
  {
    assert forall p | p in n.prefixes[..i] :: p in n.bindings;
    IsActive(WriteAll(s, n.prefixes[..i], n.bindings).0, PrefixOf(n.prefixes[i]), n.bindings[n.prefixes[i]])
  }

  /** Whether a prefix is declared by the attributes, and how. */
  predicate Declares(attributes: seq<Attribute>, p: string) {
    exists i | 0 <= i < |attributes| :: attributes[i].key == XmlnsKey(p)
  }

  /**
    What must hold of one element below the bindings `parent`: a prefix whose
    declaration is left out is bound by the parent to the same namespace, a
    declared one has a namespace name and is not `xml`, and a binding of the
    parent that the element does not have is taken back by its attributes,
    which declare nothing else.
   */
  ghost predicate Restorable(s: Scope, parent: Bindings, e: Element<Namespaces>) {
    var n := e.namespaces;
    && (forall i | 0 <= i < |n.prefixes| :: PrefixRestorable(s, parent, n, i))
    && (forall p | p in parent && p !in n.bindings :: Declares(e.attributes, p))
    && (forall a | a in e.attributes :: OnlyTakesBack(n.bindings, a))
  }

  predicate PrefixRestorable(s: Scope, parent: Bindings, n: Namespaces, i: nat)
    requires i < |n.prefixes|
  {
    var p := n.prefixes[i];
    if LeftOut(s, n, i) then p in parent && parent[p] == n.bindings[p] else n.bindings[p] != "" && p != "xml"
  }

  predicate OnlyTakesBack(bindings: Bindings, a: Attribute) {
    match DeclaredPrefix(a.key)
    case None => true
    case Some(p) => p in bindings || a.value == "" || p == "xml"
  }

  /** Each element below is restorable from the namespaces of the one around it. */
  ghost predicate AllRestorable(s: Scope, parent: Bindings, e: Element<Namespaces>)
    decreases e, 1
  {
    Restorable(Begin(s), parent, e) && ValuesRestorable(Open(s, e).0, e.namespaces.bindings, e.values)
  }

  ghost predicate ValuesRestorable(s: Scope, parent: Bindings, values: seq<Value<Namespaces>>)
    decreases values, 0
  {
    values != [] ==> ValueRestorable(s, parent, values[0]) && ValuesRestorable(s, parent, values[1..])
  }

  ghost predicate ValueRestorable(s: Scope, parent: Bindings, v: Value<Namespaces>)
    decreases v, 2
  {
    v.Child? ==> AllRestorable(s, parent, v.element)
  }

  /** What the first `m` prefixes of the namespace map declare. */
  function FirstDeclared(s: Scope, n: Namespaces, m: nat): seq<Attribute>
    requires m <= |n.prefixes|
  {
    assert forall p | p in n.prefixes[..m] :: p in n.bindings;
    WriteAll(s, n.prefixes[..m], n.bindings).1
  }

  function DeclarationOf(n: Namespaces, i: nat): Attribute
    requires i < |n.prefixes|
  {
    Attribute(XmlnsKey(n.prefixes[i]), n.bindings[n.prefixes[i]])
  }

  lemma DeclaredStep(s: Scope, n: Namespaces, m: nat)
    requires m < |n.prefixes|
    ensures FirstDeclared(s, n, m + 1) ==
              if LeftOut(s, n, m) then FirstDeclared(s, n, m) else FirstDeclared(s, n, m) + [DeclarationOf(n, m)]
  {
    WriteAllStep(s, n.prefixes, n.bindings, m);
  }

  /** A prefix is declared in the start tag exactly if its declaration is not left out. */
  lemma {:induction false} DeclaredUnlessLeftOut(s: Scope, n: Namespaces, m: nat, i: nat)
    requires i < m <= |n.prefixes|
    ensures DeclarationOf(n, i) in FirstDeclared(s, n, m) <==> !LeftOut(s, n, i)
    ensures LeftOut(s, n, i) ==> !Declares(FirstDeclared(s, n, m), n.prefixes[i])
    decreases m
  {
    DeclaredStep(s, n, m - 1);
    if i < m - 1 {
      DeclaredUnlessLeftOut(s, n, m - 1, i);
      assert n.prefixes[i] != n.prefixes[m - 1];
      XmlnsKeyDeclares(n.prefixes[i]);
      XmlnsKeyDeclares(n.prefixes[m - 1]);
      OneMore(FirstDeclared(s, n, m - 1), DeclarationOf(n, m - 1), DeclarationOf(n, i), n.prefixes[i]);
    } else {
      NotYetDeclared(s, n, i);
    }
  }

  lemma OneMore(w: seq<Attribute>, more: Attribute, a: Attribute, p: string)
    requires more.key != XmlnsKey(p) && a.key == XmlnsKey(p)
    ensures a in w + [more] <==> a in w
    ensures Declares(w + [more], p) ==> Declares(w, p)
  {
    if i :| 0 <= i < |w + [more]| && (w + [more])[i].key == XmlnsKey(p) {
      assert w[i].key == XmlnsKey(p);
    }
  }

  lemma NotYetDeclared(s: Scope, n: Namespaces, i: nat)
    requires i < |n.prefixes|
    ensures !Declares(FirstDeclared(s, n, i), n.prefixes[i]) && DeclarationOf(n, i) !in FirstDeclared(s, n, i)
  {
    var w := FirstDeclared(s, n, i);
    WrittenAttributes(s, n.prefixes[..i], n.bindings);
    XmlnsKeyDeclares(n.prefixes[i]);
    forall j | 0 <= j < |w|
      ensures w[j].key != XmlnsKey(n.prefixes[i])
    {
      assert w[j] in w;
      var q :| q in n.prefixes[..i] && w[j] == Attribute(XmlnsKey(q), n.bindings[q]);
      XmlnsKeyDeclares(q);
    }
  }

  /** The attributes of a start tag: the declarations `w`, and the kept attributes of the element. */
  ghost predicate Tag(attributes: seq<Attribute>, e: Element<Namespaces>, w: seq<Attribute>) {
    && DistinctKeys(attributes) && NoOddKey(attributes)
    && (forall a :: a in attributes <==> a in w || (a in e.attributes && IsKept(e, a)))
    && (forall a | a in w :: ForNamespace(a, e.namespaces.bindings))
  }

  ghost predicate ForNamespace(a: Attribute, bindings: Bindings) {
    exists p | p in bindings :: a == Attribute(XmlnsKey(p), bindings[p])
  }

  lemma StartTag(s: Scope, e: Element<Namespaces>) returns (w: seq<Attribute>)
    requires Writable(e)
    ensures w == WriteAll(Begin(s), e.namespaces.prefixes, e.namespaces.bindings).1
    ensures Tag(Open(s, e).1, e, w)
  {
    var n := e.namespaces;
    w := WriteAll(Begin(s), n.prefixes, n.bindings).1;
    WrittenAttributes(Begin(s), n.prefixes, n.bindings);
    KeptAttributes(e, e.attributes);
    StartTagDistinct(s, e);
    forall a | a in w
      ensures ForNamespace(a, n.bindings) && a.key != "xmlns:"
    {
      var p :| p in n.prefixes && a == Attribute(XmlnsKey(p), n.bindings[p]);
      assert p in n.bindings;
    }
    var attributes := Open(s, e).1;
    forall i | 0 <= i < |attributes|
      ensures attributes[i].key != "xmlns:"
    {
      assert attributes[i] in attributes;
    }
  }

  /** The prefix is bound as the element has it. */
  predicate BoundAs(b: Bindings, n: Namespaces, p: string)
    requires p in n.bindings
  {
    p in b && b[p] == n.bindings[p]
  }

  /** A prefix of the element is bound as the element has it exactly if it is restorable. */
  lemma PrefixBound(s: Scope, b: Bindings, e: Element<Namespaces>, i: nat)
    requires Writable(e) && "xml" !in b && i < |e.namespaces.prefixes|
    ensures e.namespaces.prefixes[i] in e.namespaces.bindings
    ensures BoundAs(DeclareAll(b, Declarations(Open(s, e).1)), e.namespaces, e.namespaces.prefixes[i])
       <==> PrefixRestorable(Begin(s), b, e.namespaces, i)
  {
    var n, attributes := e.namespaces, Open(s, e).1;
    var p := n.prefixes[i];
    assert p in n.prefixes;
    var w := StartTag(s, e);
    assert n.prefixes[..|n.prefixes|] == n.prefixes;
    DeclaredUnlessLeftOut(Begin(s), n, |n.prefixes|, i);
    if LeftOut(Begin(s), n, i) {
      LeftOutUndeclared(attributes, e, w, p);
      UndeclaredPrefix(b, attributes, p);
    } else {
      assert Attribute(XmlnsKey(p), n.bindings[p]) in attributes;
      var j :| 0 <= j < |attributes| && attributes[j] == Attribute(XmlnsKey(p), n.bindings[p]);
      if p == "xml" {
        XmlUnbound(b, Declarations(attributes));
      } else {
        OnlyDeclaration(b, attributes, j, p);
      }
    }
  }

  lemma LeftOutUndeclared(attributes: seq<Attribute>, e: Element<Namespaces>, w: seq<Attribute>, p: string)
    requires Tag(attributes, e, w) && p in e.namespaces.bindings && !Declares(w, p)
    ensures forall i | 0 <= i < |attributes| :: attributes[i].key != XmlnsKey(p)
  {
    XmlnsKeyDeclares(p);
    forall i | 0 <= i < |attributes|
      ensures attributes[i].key != XmlnsKey(p)
    {
      assert attributes[i] in attributes;
      if attributes[i] in w {
        var j :| 0 <= j < |w| && w[j] == attributes[i];
      }
    }
  }

  /** No declaration binds the prefix `xml`. */
  lemma {:induction false} XmlUnbound(b: Bindings, bs: seq<Binding>)
    requires "xml" !in b
    ensures "xml" !in DeclareAll(b, bs)
    decreases |bs|
  {
    if bs != [] {
      XmlUnbound(b, bs[..|bs| - 1]);
    }
  }

  /** The two conditions on attributes, for one prefix the element does not have. */
  ghost predicate TakenBack(b: Bindings, e: Element<Namespaces>, p: string) {
    && (p in b ==> Declares(e.attributes, p))
    && (forall a | a in e.attributes && DeclaredPrefix(a.key) == Some(p) :: a.value == "" || p == "xml")
  }

  /** A prefix the element does not have stays unbound exactly if it is taken back. */
  lemma PrefixUnbound(s: Scope, b: Bindings, e: Element<Namespaces>, p: string)
    requires Writable(e) && "xml" !in b && p !in e.namespaces.bindings
    ensures p !in DeclareAll(b, Declarations(Open(s, e).1)) <==> TakenBack(b, e, p)
  {
    var attributes := Open(s, e).1;
    var w := StartTag(s, e);
    XmlnsKeyDeclares(p);
    if j :| 0 <= j < |attributes| && attributes[j].key == XmlnsKey(p) {
      OwnDeclaration(attributes, e, w, p, j);
      if p == "xml" {
        XmlUnbound(b, Declarations(attributes));
      } else {
        OnlyDeclaration(b, attributes, j, p);
      }
    } else {
      forall a | a in e.attributes
        ensures a.key != XmlnsKey(p) && DeclaredPrefix(a.key) != Some(p)
      {
        DeclaresOnlyOne(a.key, p);
        assert a.key == XmlnsKey(p) ==> a in attributes;
      }
      UndeclaredPrefix(b, attributes, p);
    }
  }

  /** A declaration of a prefix the element does not have is one of its attributes, and the only one of that prefix. */
  lemma OwnDeclaration(attributes: seq<Attribute>, e: Element<Namespaces>, w: seq<Attribute>, p: string, j: nat)
    requires Tag(attributes, e, w) && Writable(e) && p !in e.namespaces.bindings
    requires j < |attributes| && attributes[j].key == XmlnsKey(p)
    ensures attributes[j] in e.attributes && Declares(e.attributes, p) && DeclaredPrefix(attributes[j].key) == Some(p)
    ensures forall a | a in e.attributes && DeclaredPrefix(a.key) == Some(p) :: a == attributes[j]
  {
    XmlnsKeyDeclares(p);
    assert attributes[j] in attributes;
    if attributes[j] in w {
      var q :| q in e.namespaces.bindings && attributes[j] == Attribute(XmlnsKey(q), e.namespaces.bindings[q]);
      XmlnsKeyDeclares(q);
    }
    forall a | a in e.attributes && DeclaredPrefix(a.key) == Some(p)
      ensures a == attributes[j]
    {
      DeclaresOnlyOne(a.key, p);
      var x, y :| 0 <= x < |e.attributes| && 0 <= y < |e.attributes| && e.attributes[x] == a && e.attributes[y] == attributes[j];
    }
  }

  /** The bindings of two maps, prefix by prefix. */
  ghost predicate AllBound(b: Bindings, n: Namespaces) {
    forall i | 0 <= i < |n.prefixes| :: n.prefixes[i] in n.bindings && BoundAs(b, n, n.prefixes[i])
  }

  lemma SameBindings(b: Bindings, n: Namespaces)
    ensures b == n.bindings <==> AllBound(b, n) && forall p | p !in n.bindings :: p !in b
  {
    forall p | p in n.bindings && AllBound(b, n)
      ensures BoundAs(b, n, p)
    {
      var i :| 0 <= i < |n.prefixes| && n.prefixes[i] == p;
    }
    if b == n.bindings {
      forall i | 0 <= i < |n.prefixes|
        ensures n.prefixes[i] in n.bindings
      {
        assert n.prefixes[i] in n.prefixes;
      }
    }
  }

  /** The start tag leads from the bindings `b` to the element's own exactly if the element is restorable from `b`. */
  lemma BindingsRestored(s: Scope, b: Bindings, e: Element<Namespaces>)
    requires Writable(e) && "xml" !in b
    ensures DeclareAll(b, Declarations(Open(s, e).1)) == e.namespaces.bindings <==> Restorable(Begin(s), b, e)
  {
    var n := e.namespaces;
    var b' := DeclareAll(b, Declarations(Open(s, e).1));
    forall i | 0 <= i < |n.prefixes|
      ensures n.prefixes[i] in n.bindings
      ensures BoundAs(b', n, n.prefixes[i]) <==> PrefixRestorable(Begin(s), b, n, i)
    {
      PrefixBound(s, b, e, i);
    }
    forall p | p !in n.bindings
      ensures p !in b' <==> TakenBack(b, e, p)
    {
      PrefixUnbound(s, b, e, p);
    }
    SameBindings(b', n);
    AllTakenBack(b, e);
  }

  lemma AllTakenBack(b: Bindings, e: Element<Namespaces>)
    ensures (forall p | p !in e.namespaces.bindings :: TakenBack(b, e, p)) <==>
              && (forall p | p in b && p !in e.namespaces.bindings :: Declares(e.attributes, p))
              && (forall a | a in e.attributes :: OnlyTakesBack(e.namespaces.bindings, a))
  {
    var n := e.namespaces;
    if forall p | p !in n.bindings :: TakenBack(b, e, p) {
      forall a | a in e.attributes
        ensures OnlyTakesBack(n.bindings, a)
      {
        if DeclaredPrefix(a.key).Some? && DeclaredPrefix(a.key).value !in n.bindings {
          assert TakenBack(b, e, DeclaredPrefix(a.key).value);
        }
      }
      forall p | p in b && p !in n.bindings
        ensures Declares(e.attributes, p)
      {
        assert TakenBack(b, e, p);
      }
    }
    if forall a | a in e.attributes :: OnlyTakesBack(n.bindings, a) {
      forall p, a | p !in n.bindings && a in e.attributes && DeclaredPrefix(a.key) == Some(p)
        ensures a.value == "" || p == "xml"
      {
        assert OnlyTakesBack(n.bindings, a);
      }
    }
  }

  // ---------- Round trips

  lemma {:induction false} RereadSame(s: Scope, b: Bindings, name: Option<string>, e: Element<Namespaces>)
    requires Writable(e) && "xml" !in b
    ensures SameElement(Reread(s, b, name, e), e.(name := NameOf(name, e))) <==> AllRestorable(s, b, e)
    decreases e, 1
  {
    var (t, attributes) := Open(s, e);
    var b' := DeclareAll(b, Declarations(attributes));
    OpenKeepsPlain(s, e);
    BindingsRestored(s, b, e);
    XmlUnbound(b, Declarations(attributes));
    if b' == e.namespaces.bindings {
      RereadValuesSame(t, b', e.values);
    }
  }

  lemma {:induction false} RereadValuesSame(s: Scope, b: Bindings, values: seq<Value<Namespaces>>)
    requires WritableValues(values) && "xml" !in b
    ensures SameValues(RereadValues(s, b, values), values) <==> ValuesRestorable(s, b, values)
    ensures |RereadValues(s, b, values)| == |values|
    decreases values, 0
  {
    if values != [] {
      RereadValueSame(s, b, values[0]);
      RereadValuesSame(s, b, values[1..]);
      var r := RereadValues(s, b, values);
      assert r[1..] == RereadValues(s, b, values[1..]);
    }
  }

  lemma RereadValueSame(s: Scope, b: Bindings, v: Value<Namespaces>)
    requires WritableValue(v) && "xml" !in b
    ensures SameValue(RereadValue(s, b, v), v) <==> ValueRestorable(s, b, v)
    decreases v, 2
  {
    if v.Child? {
      RereadSame(s, b, None, v.element);
    }
  }

  /**
    The round trip rebuilds an element (under the name it was written with)
    exactly if every element in it is restorable from the namespaces of the one
    around it.
   */
  lemma RoundTripIff(name: Option<string>, e: Element<Namespaces>)
    requires Writable(e)
    ensures var read := ReadAll(Reading([], []), Events(Scope(0, []), name, e));
            && read.Finished?
            && (SameElement(read.element, e.(name := NameOf(name, e))) <==> AllRestorable(Scope(0, []), map[], e))
  {
    WrittenIsReread(name, e);
    RereadSame(Scope(0, []), map[], name, e);
  }

  /** The same for a reader that takes one event at a time from a tokenizer. */
  lemma RoundTripFromInput(name: Option<string>, e: Element<Namespaces>, input: Input)
    requires Writable(e) && Supplies(input, 0, Events(Scope(0, []), name, e))
    ensures var read := ReadInput(Reading([], []), input, |Events(Scope(0, []), name, e)|);
            && read.Finished?
            && (SameElement(read.element, e.(name := NameOf(name, e))) <==> AllRestorable(Scope(0, []), map[], e))
  {
    RoundTripIff(name, e);
    var events := Events(Scope(0, []), name, e);
    InputIsList(Reading([], []), input, 0, events, |events|, Running(Reading([], [])));
  }
}
