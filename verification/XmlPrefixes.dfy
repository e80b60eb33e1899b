/**
  Runs of the serialize helper (`quick_xml/serialize.rs`): whatever is written
  between the begin and the end of a scope is forgotten, the events of an
  element are well nested, and a prefix the helper hands out means the
  namespace it was asked for unless it was bound again since.
 */
module XmlPrefixes {
  import opened Wrappers
  import opened XmlModel
  import opened XmlWriter

  // ---------- Runs

  datatype Operation =
    | BeginScope
    | EndScope
    | WriteNamespace(prefix: Option<string>, namespace: string)
    | AddName(qname: QName)

  function Perform(s: Scope, op: Operation): Scope {
    match op
    case BeginScope => Begin(s)
    case EndScope => Finish(s)
    case WriteNamespace(prefix, namespace) =>
      var p := if prefix == Some("") then None else prefix;
      if IsActive(s, p, namespace) then s else AddEntry(s, p, namespace)
    case AddName(qname) =>
      if qname.namespace.None? || Innermost(s.entries, qname.namespace.value).Some? then s
      else AddEntry(s, qname.prefix, qname.namespace.value)
  }

  function Run(s: Scope, ops: seq<Operation>): Scope {
    if ops == [] then s else Perform(Run(s, ops[..|ops| - 1]), ops[|ops| - 1])
  }

  /** The scopes begun and not ended; None if more were ended than begun. */
  function Depth(ops: seq<Operation>): Option<nat> {
    if ops == [] then Some(0)
    else
      match Depth(ops[..|ops| - 1])
      case None => None
      case Some(n) =>
        match ops[|ops| - 1]
        case BeginScope => Some(n + 1)
        case EndScope => if n == 0 then None else Some(n - 1)
        case _ => Some(n)
  }

  /** A run that never leaves the scope it started in stays inside of it. */
  lemma {:induction false} RunInside(s: Scope, ops: seq<Operation>)
    requires WellScoped(s) && Depth(ops).Some?
    ensures Inside(s, Run(Begin(s), ops)) && Run(Begin(s), ops).level == s.level + 1 + Depth(ops).value
    decreases |ops|
  {
    if ops == [] {
      assert s.entries[..|s.entries|] == s.entries;
    } else {
      var init := ops[..|ops| - 1];
      RunInside(s, init);
      var t := Run(Begin(s), init);
      match ops[|ops| - 1] {
        case BeginScope =>
        case EndScope => FinishInside(s, t);
        case WriteNamespace(prefix, namespace) => InsideMore(s, t, if prefix == Some("") then None else prefix, namespace);
        case AddName(qname) =>
          if qname.namespace.Some? {
            InsideMore(s, t, qname.prefix, qname.namespace.value);
          }
      }
    }
  }

  /** Every balanced run between the begin and the end of a scope restores the helper. */
  lemma BalancedRunRestores(s: Scope, ops: seq<Operation>)
    requires WellScoped(s) && Depth(ops) == Some(0)
    ensures Finish(Run(Begin(s), ops)) == s
  {
    RunInside(s, ops);
    ScopeRestored(s, Run(Begin(s), ops));
  }

  // ---------- Prefixes

  /** What a reader resolves a prefix to, given the active declarations (section 6.1 of Namespaces in XML 1.0). */
  function Resolves(entries: seq<Entry>, prefix: Option<string>): Option<string> {
    if entries == [] then None
    else if entries[|entries| - 1].prefix == prefix then Some(entries[|entries| - 1].namespace)
    else Resolves(entries[..|entries| - 1], prefix)
  }

  /** The place of the innermost declaration of a namespace. */
  function Place(entries: seq<Entry>, namespace: string): nat
    requires Innermost(entries, namespace).Some?
  {
    if entries[|entries| - 1].namespace == namespace then |entries| - 1 else Place(entries[..|entries| - 1], namespace)
  }

  /** A later declaration binds the prefix again. */
  ghost predicate Rebound(entries: seq<Entry>, k: nat, prefix: Option<string>) {
    exists i | k < i < |entries| :: entries[i].prefix == prefix
  }

  /**
    The prefix of the innermost declaration of a namespace means that namespace
    to a reader exactly if no later declaration uses the prefix again.
   */
  lemma {:induction false} PrefixMeansNamespace(entries: seq<Entry>, namespace: string)
    requires Innermost(entries, namespace).Some?
    ensures var x := Innermost(entries, namespace).value;
            var k := Place(entries, namespace);
            && k < |entries| && entries[k] == x && x.namespace == namespace
            && (Resolves(entries, x.prefix) == Some(namespace) <==> !Rebound(entries, k, x.prefix))
    decreases |entries|
  {
    var n := |entries| - 1;
    if entries[n].namespace != namespace {
      PrefixMeansNamespace(entries[..n], namespace);
      var x := Innermost(entries, namespace).value;
      var k := Place(entries, namespace);
      if entries[n].prefix == x.prefix {
        assert Rebound(entries, k, x.prefix);
      } else {
        if Rebound(entries, k, x.prefix) {
          var i :| k < i < |entries| && entries[i].prefix == x.prefix;
          assert entries[..n][i].prefix == x.prefix;
        }
        if Rebound(entries[..n], k, x.prefix) {
          var i :| k < i < n && entries[..n][i].prefix == x.prefix;
          assert entries[i].prefix == x.prefix;
        }
      }
    }
  }

  /** No active prefix is bound to two namespaces. */
  ghost predicate Unambiguous(entries: seq<Entry>) {
    forall i, j | 0 <= i < |entries| && 0 <= j < |entries| && entries[i].prefix == entries[j].prefix ::
      entries[i].namespace == entries[j].namespace
  }

  /** Runs that never bind an active prefix to a second namespace. */
  ghost predicate CleanRun(s: Scope, ops: seq<Operation>) {
    forall k | 0 <= k <= |ops| :: Unambiguous(Run(s, ops[..k]).entries)
  }

  lemma {:induction false} UnambiguousResolves(entries: seq<Entry>, i: nat)
    requires Unambiguous(entries) && i < |entries|
    ensures Resolves(entries, entries[i].prefix) == Some(entries[i].namespace)
    decreases |entries|
  {
    var n := |entries| - 1;
    if entries[n].prefix == entries[i].prefix {
    } else {
      UnambiguousResolves(entries[..n], i);
    }
  }

  /**
    On clean runs every prefix means what the writer thinks: the one handed out
    for an active namespace, and the one an operation just used or declared.
   */
  lemma CleanPrefixes(s: Scope, ops: seq<Operation>, namespace: string)
    requires CleanRun(s, ops)
    ensures var entries := Run(s, ops).entries;
            && (Innermost(entries, namespace).Some? ==>
                  Resolves(entries, Innermost(entries, namespace).value.prefix) == Some(namespace))
            && (ops != [] && ops[|ops| - 1].WriteNamespace? ==>
                  var op := ops[|ops| - 1];
                  Resolves(entries, if op.prefix == Some("") then None else op.prefix) == Some(op.namespace))
            && (ops != [] && ops[|ops| - 1].AddName? && ops[|ops| - 1].qname.namespace.Some? ==>
                  var x := Innermost(entries, ops[|ops| - 1].qname.namespace.value);
                  x.Some? && Resolves(entries, x.value.prefix) == ops[|ops| - 1].qname.namespace)
  {
    assert ops[..|ops|] == ops;
    var entries := Run(s, ops).entries;
    if Innermost(entries, namespace).Some? {
      PrefixMeansNamespace(entries, namespace);
      UnambiguousResolves(entries, Place(entries, namespace));
    }
    if ops != [] && ops[|ops| - 1].WriteNamespace? {
      var op := ops[|ops| - 1];
      var before := Run(s, ops[..|ops| - 1]);
      var p := if op.prefix == Some("") then None else op.prefix;
      if IsActive(before, p, op.namespace) {
        PrefixMeansNamespace(before.entries, op.namespace);
        UnambiguousResolves(before.entries, Place(before.entries, op.namespace));
      }
    }
    if ops != [] && ops[|ops| - 1].AddName? && ops[|ops| - 1].qname.namespace.Some? {
      var ns := ops[|ops| - 1].qname.namespace.value;
      PrefixMeansNamespace(entries, ns);
      UnambiguousResolves(entries, Place(entries, ns));
    }
  }

  function AsBinding(x: Entry): Binding {
    Binding(PrefixText(x.prefix), x.namespace)
  }

  function AsBindings(entries: seq<Entry>): seq<Binding> {
    if entries == [] then [] else AsBindings(entries[..|entries| - 1]) + [AsBinding(entries[|entries| - 1])]
  }

  /** Resolving a prefix on the stack is looking it up among the bindings a reader has in scope. */
  lemma {:induction false} ResolvesInScope(entries: seq<Entry>, prefix: Option<string>)
    requires prefix != Some("") && prefix != Some("xml")
    requires forall i | 0 <= i < |entries| :: entries[i].prefix != Some("") && entries[i].namespace != ""
    ensures var b := DeclareAll(map[], AsBindings(entries));
            Resolves(entries, prefix) == if PrefixText(prefix) in b then Some(b[PrefixText(prefix)]) else None
    decreases |entries|
  {
    if entries != [] {
      var n := |entries| - 1;
      ResolvesInScope(entries[..n], prefix);
      var bs := AsBindings(entries[..n]);
      assert AsBindings(entries)[..|bs|] == bs;
      assert AsBindings(entries)[|bs|] == AsBinding(entries[n]);
    }
  }

  // ---------- Well-nested events

  /** The names of the open elements after some events; None if an end tag does not match. */
  function OpenNames(names: seq<string>, events: seq<Event>): Option<seq<string>>
    decreases |events|
  {
    if events == [] then Some(names)
    else
      match events[0]
      case Start(name, _) => OpenNames(names + [name], events[1..])
      case End(name) =>
        if names == [] || names[|names| - 1] != name then None else OpenNames(names[..|names| - 1], events[1..])
      case _ => OpenNames(names, events[1..])
  }

  lemma {:induction false} OpenNamesAppend(names: seq<string>, a: seq<Event>, b: seq<Event>)
    requires OpenNames(names, a).Some?
    ensures OpenNames(names, a + b) == OpenNames(OpenNames(names, a).value, b)
    decreases |a|
  {
    if a == [] {
      assert a + b == b;
    } else {
      assert (a + b)[1..] == a[1..] + b;
      match a[0] {
        case Start(name, _) => OpenNamesAppend(names + [name], a[1..], b);
        case End(name) => OpenNamesAppend(names[..|names| - 1], a[1..], b);
        case _ => OpenNamesAppend(names, a[1..], b);
      }
    }
  }

  /** The events of an element open and close elements in pairs of the same name. */
  lemma {:induction false} EventsWellNested(s: Scope, name: Option<string>, e: Element<Namespaces>, names: seq<string>)
    ensures OpenNames(names, Events(s, name, e)) == Some(names)
    decreases e, 1
  {
    var (t, attributes) := Open(s, e);
    var n := NameOf(name, e);
    if e.values == [] {
      assert [Empty(n, attributes)][1..] == [];
    } else {
      var start, body, end := [Start(n, attributes)], ValueEvents(t, e.values), [End(n)];
      assert start[1..] == [] && end[1..] == [] && (names + [n])[..|names|] == names;
      ValuesWellNested(t, e.values, names + [n]);
      OpenNamesAppend(names, start, body);
      OpenNamesAppend(names, start + body, end);
    }
  }

  lemma {:induction false} ValuesWellNested(s: Scope, values: seq<Value<Namespaces>>, names: seq<string>)
    ensures OpenNames(names, ValueEvents(s, values)) == Some(names)
    decreases values, 0
  {
    if values != [] {
      ValueWellNested(s, values[0], names);
      ValuesWellNested(s, values[1..], names);
      OpenNamesAppend(names, OneValue(s, values[0]), ValueEvents(s, values[1..]));
    }
  }

  lemma ValueWellNested(s: Scope, v: Value<Namespaces>, names: seq<string>)
    ensures OpenNames(names, OneValue(s, v)) == Some(names)
    decreases v, 2
  {
    if v.Child? {
      EventsWellNested(s, None, v.element, names);
    } else {
      assert OneValue(s, v)[1..] == [];
    }
  }
}
