/**
  Unstructured XML elements and the events they are written to and read from.
  Names, prefixes, namespace names and texts are strings; escaping and encoding
  are not modelled. An empty prefix stands for the default namespace.
 */
module XmlModel {
  import opened Wrappers

  datatype Attribute = Attribute(key: string, value: string)

  /** The bindings of some prefixes. */
  type Bindings = map<string, string>

  /** A namespace map as a hash map holds it: the bindings, and the order in which it happens to list them. */
  datatype Listing = Listing(prefixes: seq<string>, bindings: Bindings)

  ghost predicate Listed(prefixes: seq<string>, bindings: Bindings) {
    && (forall i, j | 0 <= i < j < |prefixes| :: prefixes[i] != prefixes[j])
    && (forall p :: p in prefixes <==> p in bindings)
  }

  type Namespaces = n: Listing | Listed(n.prefixes, n.bindings) witness Listing([], map[])

  /** An element whose namespace map is of type `N`: a listed one where it is written, its bindings where it was read. */
  datatype Element<N> = Element(name: string, values: seq<Value<N>>, attributes: seq<Attribute>, namespaces: N)

  datatype Value<N> =
    | Child(element: Element<N>)
    | Comment(text: string)
    | CData(text: string)
    | Text(text: string)

  datatype Event =
    | Start(name: string, attributes: seq<Attribute>)
    | Empty(name: string, attributes: seq<Attribute>)
    | End(name: string)
    | TextEvent(text: string)
    | CDataEvent(text: string)
    | CommentEvent(text: string)
    | OtherEvent(kind: string) // declarations, processing instructions, document types, references, end of file

  predicate StartsWith(s: string, prefix: string) {
    prefix <= s
  }

  /** The name of the attribute that declares `prefix`. */
  function XmlnsKey(prefix: string): string {
    if prefix == "" then "xmlns" else "xmlns:" + prefix
  }

  /** The prefix an attribute declares, if it is a namespace declaration. */
  function DeclaredPrefix(key: string): Option<string> {
    if key == "xmlns" then Some("")
    else if StartsWith(key, "xmlns:") then Some(key[6..])
    else None
  }

  lemma XmlnsKeyDeclares(prefix: string)
    ensures DeclaredPrefix(XmlnsKey(prefix)) == Some(prefix)
  {
    if prefix != "" {
      assert XmlnsKey(prefix)[6..] == prefix;
      assert |XmlnsKey(prefix)| > 6;
    }
  }

  datatype Binding = Binding(prefix: string, namespace: string)

  /** The declarations among some attributes, in order. */
  function Declarations(attributes: seq<Attribute>): seq<Binding> {
    if attributes == [] then []
    else
      var init := Declarations(attributes[..|attributes| - 1]);
      var last := attributes[|attributes| - 1];
      match DeclaredPrefix(last.key)
      case None => init
      case Some(p) => init + [Binding(p, last.value)]
  }

  /**
    Scoping and defaulting (sections 6.1 and 6.2 of Namespaces in XML 1.0): a
    declaration overrides outer ones of the same prefix, and one with an empty
    name undeclares the prefix. The prefix `xml` is bound anyway; declaring it
    adds no binding.
   */
  function Declare(bindings: Bindings, b: Binding): Bindings {
    if b.prefix == "xml" then bindings
    else if b.namespace == "" then bindings - {b.prefix} else bindings[b.prefix := b.namespace]
  }

  function DeclareAll(bindings: Bindings, bs: seq<Binding>): Bindings {
    if bs == [] then bindings else Declare(DeclareAll(bindings, bs[..|bs| - 1]), bs[|bs| - 1])
  }

  /** The bindings in scope inside nested elements with these declarations, outermost first. */
  function InScope(frames: seq<seq<Binding>>): Bindings {
    if frames == [] then map[] else DeclareAll(InScope(frames[..|frames| - 1]), frames[|frames| - 1])
  }

  /** No attribute name is used twice. */
  predicate DistinctKeys(attributes: seq<Attribute>) {
    forall i, j | 0 <= i < j < |attributes| :: attributes[i].key != attributes[j].key
  }
}
