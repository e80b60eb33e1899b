/**
  Which declarations the writer leaves out below an element that binds the
  namespace already: those of a binding inherited unchanged, the default
  namespace included.
 */
module XmlInherited {
  import opened Wrappers
  import opened XmlModel
  import opened XmlWriter
  import opened XmlRoundTrip

  /** The last prefix of the list that is bound to the namespace. */
  function LastFor(prefixes: seq<string>, bindings: Bindings, namespace: string): Option<string>
    requires forall p | p in prefixes :: p in bindings
  {
    if prefixes == [] then None
    else if bindings[prefixes[|prefixes| - 1]] == namespace then Some(prefixes[|prefixes| - 1])
    else LastFor(prefixes[..|prefixes| - 1], bindings, namespace)
  }

  lemma {:induction false} LastForIn(prefixes: seq<string>, bindings: Bindings, namespace: string)
    requires forall p | p in prefixes :: p in bindings
    ensures LastFor(prefixes, bindings, namespace) == None <==> forall p | p in prefixes :: bindings[p] != namespace
    ensures LastFor(prefixes, bindings, namespace).Some? ==>
              var p := LastFor(prefixes, bindings, namespace).value; p in prefixes && bindings[p] == namespace
    decreases |prefixes|
  {
    if prefixes != [] {
      LastForIn(prefixes[..|prefixes| - 1], bindings, namespace);
      assert prefixes == prefixes[..|prefixes| - 1] + [prefixes[|prefixes| - 1]];
    }
  }

  /** Inside an element the innermost declaration of a namespace is that of the last prefix the element binds to it, if there is one. */
  lemma {:induction false} InnermostAfter(s: Scope, prefixes: seq<string>, bindings: Bindings, namespace: string)
    requires forall p | p in prefixes :: p in bindings
    ensures var x := Innermost(WriteAll(s, prefixes, bindings).0.entries, namespace);
            match LastFor(prefixes, bindings, namespace)
            case Some(p) => x.Some? && x.value.prefix == PrefixOf(p)
            case None => x == Innermost(s.entries, namespace)
    decreases |prefixes|
  {
    if prefixes != [] {
      var front, p := prefixes[..|prefixes| - 1], prefixes[|prefixes| - 1];
      InnermostAfter(s, front, bindings, namespace);
      var t := WriteAll(s, front, bindings).0;
      assert AddEntry(t, PrefixOf(p), bindings[p]).entries[..|t.entries|] == t.entries;
    }
  }

  /**
    Below an element that binds some prefix to the namespace, a declaration is
    left out exactly if no prefix listed before is bound to it, and the prefix
    is the last one of the element above that is.
   */
  lemma LeftOutIff(s: Scope, parent: Element<Namespaces>, n: Namespaces, i: nat)
    requires i < |n.prefixes| && n.prefixes[i] in n.bindings
    requires forall p | p in parent.namespaces.prefixes :: p in parent.namespaces.bindings
    requires forall p | p in n.prefixes[..i] :: p in n.bindings
    requires LastFor(parent.namespaces.prefixes, parent.namespaces.bindings, n.bindings[n.prefixes[i]]).Some?
    ensures var namespace := n.bindings[n.prefixes[i]];
            LeftOut(Begin(Open(s, parent).0), n, i) <==>
              && LastFor(n.prefixes[..i], n.bindings, namespace) == None
              && LastFor(parent.namespaces.prefixes, parent.namespaces.bindings, namespace) == Some(n.prefixes[i])
  {
    var namespace := n.bindings[n.prefixes[i]];
    var t := Begin(Open(s, parent).0);
    InnermostAfter(Begin(s), parent.namespaces.prefixes, parent.namespaces.bindings, namespace);
    InnermostAfter(t, n.prefixes[..i], n.bindings, namespace);
    LastForIn(n.prefixes[..i], n.bindings, namespace);
  }

  /** The only prefix an element binds to a namespace. */
  ghost predicate BindsOnly(n: Namespaces, p: string, namespace: string) {
    p in n.bindings && n.bindings[p] == namespace && forall q | q in n.bindings && q != p :: n.bindings[q] != namespace
  }

  /** A binding that is inherited unchanged is not written again, whatever its prefix. */
  lemma InheritedNotRepeated(s: Scope, parent: Element<Namespaces>, e: Element<Namespaces>, p: string, namespace: string)
    requires Writable(e) && BindsOnly(parent.namespaces, p, namespace) && BindsOnly(e.namespaces, p, namespace)
    ensures forall k | 0 <= k < |Open(Open(s, parent).0, e).1| :: Open(Open(s, parent).0, e).1[k].key != XmlnsKey(p)
  {
    var n := e.namespaces;
    assert p in n.prefixes && p in parent.namespaces.prefixes;
    var i :| 0 <= i < |n.prefixes| && n.prefixes[i] == p;
    LastForIn(parent.namespaces.prefixes, parent.namespaces.bindings, namespace);
    LastForIn(n.prefixes[..i], n.bindings, namespace);
    LeftOutIff(s, parent, n, i);
    var t := Open(s, parent).0;
    var w := StartTag(t, e);
    assert n.prefixes[..|n.prefixes|] == n.prefixes;
    DeclaredUnlessLeftOut(Begin(t), n, |n.prefixes|, i);
    LeftOutUndeclared(Open(t, e).1, e, w, p);
  }
}
