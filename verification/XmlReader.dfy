/**
  Reading an unstructured element (`ElementDeserializer` in `xml/element.rs`,
  `DeserializeHelper` and `DeserializeImpl` in `quick_xml/deserialize.rs`).

  The resolver of the XML library is modelled by the declarations of the open
  elements. The helper caches the bindings in scope per level, lazily, and
  leaves an element only when the next event arrives.
 */
module XmlReader {
  import opened Wrappers
  import opened XmlModel

  datatype ReadError =
    | DuplicateAttribute(name: string)
    | ReservedNamespace(element: string)
    | Malformed(message: string) // reported by the tokenizer

  type Frame = seq<Binding>

  /**
    The reserved names of section 3 of Namespaces in XML 1.0 must not be
    redefined. The resolver does not check the default namespace.
   */
  predicate IsReserved(b: Binding) {
    var xml, xmlns := "http://www.w3.org/XML/1998/namespace", "http://www.w3.org/2000/xmlns/";
    if b.prefix == "" then false
    else if b.prefix == "xml" then b.namespace != xml
    else b.prefix == "xmlns" || b.namespace == xml || b.namespace == xmlns
  }

  /** Prefixes and namespaces of one's own may be declared; the reserved ones only as they are. */
  lemma OrdinaryIsFree(b: Binding)
    ensures (b.prefix != "xml" && b.prefix != "xmlns" && b.namespace != "http://www.w3.org/XML/1998/namespace"
             && b.namespace != "http://www.w3.org/2000/xmlns/") ==> !IsReserved(b)
    ensures b.prefix == "" || b == Binding("xml", "http://www.w3.org/XML/1998/namespace") ==> !IsReserved(b)
    ensures b.prefix == "xmlns" ==> IsReserved(b)
    ensures b.prefix == "xml" && b.namespace != "http://www.w3.org/XML/1998/namespace" ==> IsReserved(b)
    ensures b.prefix != "" && b.prefix != "xml" && b.namespace == "http://www.w3.org/XML/1998/namespace" ==> IsReserved(b)
    ensures b.prefix != "" && b.prefix != "xml" && b.namespace == "http://www.w3.org/2000/xmlns/" ==> IsReserved(b)
  {
  }

  predicate Legal(f: Frame) {
    forall i | 0 <= i < |f| :: !IsReserved(f[i])
  }

  predicate OpensTag(ev: Event) {
    ev.Start? || ev.Empty?
  }

  predicate ClosesTag(ev: Event) {
    ev.End? || ev.Empty?
  }

  // ---------- Reference semantics

  /** The declarations in force while `ev` is handled. */
  function Entered(open: seq<Frame>, ev: Event): seq<Frame> {
    if OpensTag(ev) then open + [Declarations(ev.attributes)] else open
  }

  function Left(frames: seq<Frame>): seq<Frame> {
    if frames == [] then [] else frames[..|frames| - 1]
  }

  /** The declarations of the elements that are open after `ev`. */
  function OpenAfter(open: seq<Frame>, ev: Event): seq<Frame> {
    if ClosesTag(ev) then Left(Entered(open, ev)) else Entered(open, ev)
  }

  function CreateElement(name: string, attributes: seq<Attribute>, bindings: Bindings): Result<Element<Bindings>, ReadError> {
    if DistinctKeys(attributes) then Ok(Element(name, [], attributes, bindings)) else Err(DuplicateAttribute(name))
  }

  function Append(e: Element<Bindings>, v: Value<Bindings>): Element<Bindings> {
    e.(values := e.values + [v])
  }

  function AppendTop(stack: seq<Element<Bindings>>, v: Value<Bindings>): seq<Element<Bindings>>
    requires stack != []
  {
    stack[..|stack| - 1] + [Append(stack[|stack| - 1], v)]
  }

  /** What an event does to the stack of unfinished elements, the root first. */
  datatype Effect = Keep(stack: seq<Element<Bindings>>) | Complete(element: Element<Bindings>) | Ignore

  function StackStep(stack: seq<Element<Bindings>>, bindings: Bindings, ev: Event): Result<Effect, ReadError> {
    match ev
    case Start(name, attributes) =>
      var e :- CreateElement(name, attributes, bindings);
      Ok(Keep(stack + [e]))
    case Empty(name, attributes) =>
      var e :- CreateElement(name, attributes, bindings);
      if stack == [] then Ok(Complete(e)) else Ok(Keep(AppendTop(stack, Child(e))))
    case End(_) =>
      if stack == [] then Ok(Ignore)
      else if |stack| == 1 then Ok(Complete(stack[0]))
      else Ok(Keep(AppendTop(stack[..|stack| - 1], Child(stack[|stack| - 1]))))
    case TextEvent(text) => if stack == [] then Ok(Ignore) else Ok(Keep(AppendTop(stack, Text(text))))
    case CDataEvent(text) => if stack == [] then Ok(Ignore) else Ok(Keep(AppendTop(stack, CData(text))))
    case CommentEvent(text) => if stack == [] then Ok(Ignore) else Ok(Keep(AppendTop(stack, Comment(text))))
    case OtherEvent(_) => Ok(Ignore)
  }

  /** The whole reader: unfinished elements, and the declarations of the open ones. */
  datatype Reading = Reading(stack: seq<Element<Bindings>>, open: seq<Frame>)

  datatype Outcome = Running(state: Reading) | Finished(element: Element<Bindings>) | Failed(error: ReadError)

  function ReadStep(r: Reading, ev: Event): Outcome {
    var frames := Entered(r.open, ev);
    if OpensTag(ev) && !Legal(frames[|frames| - 1]) then Failed(ReservedNamespace(ev.name))
    else
      match StackStep(r.stack, InScope(frames), ev)
      case Err(error) => Failed(error)
      case Ok(Keep(stack)) => Running(Reading(stack, OpenAfter(r.open, ev)))
      case Ok(Complete(e)) => Finished(e)
      case Ok(Ignore) => Running(Reading(r.stack, OpenAfter(r.open, ev)))
  }

  function ReadAll(r: Reading, events: seq<Event>): Outcome
    decreases |events|
  {
    if events == [] then Running(r)
    else
      match ReadStep(r, events[0])
      case Running(r') => ReadAll(r', events[1..])
      case done => done
  }

  /** What the tokenizer returns, call by call. */
  type Input = nat -> Result<Event, ReadError>

  /** One more call, unless reading is done. */
  function ReadOn(o: Outcome, next: Result<Event, ReadError>): Outcome {
    if !o.Running? then o
    else
      match next
      case Ok(ev) => ReadStep(o.state, ev)
      case Err(error) => Failed(error)
  }

  /** The reader after the first `n` calls of the tokenizer. */
  function ReadInput(r: Reading, input: Input, n: nat): Outcome {
    if n == 0 then Running(r) else ReadOn(ReadInput(r, input, n - 1), input(n - 1))
  }

  /** After a finished element or an error nothing else is read. */
  lemma {:induction false} StaysDone(r: Reading, input: Input, n: nat, m: nat)
    requires n <= m
    ensures ReadInput(r, input, n).Running? || ReadInput(r, input, m) == ReadInput(r, input, n)
    decreases m
  {
    if n < m {
      StaysDone(r, input, n, m - 1);
    }
  }

  /** One more call either ends the reading or leaves something to read. */
  lemma NextCall(r: Reading, input: Input, n: nat, stop: nat, state: Reading) returns (o: Outcome)
    requires n < stop && ReadInput(r, input, n) == Running(state) && !ReadInput(r, input, stop).Running?
    ensures o == ReadOn(Running(state), input(n)) && o == ReadInput(r, input, n + 1)
    ensures if o.Running? then n + 1 < stop else o == ReadInput(r, input, stop)
  {
    o := ReadInput(r, input, n + 1);
    StaysDone(r, input, n + 1, stop);
  }

  /** The input supplies these events, from the `k`-th call on. */
  ghost predicate Supplies(input: Input, k: nat, events: seq<Event>) {
    forall i | k <= i < k + |events| :: input(i) == Ok(events[i - k])
  }

  lemma SuppliesRest(input: Input, k: nat, events: seq<Event>)
    requires events != [] && Supplies(input, k, events)
    ensures input(k) == Ok(events[0]) && Supplies(input, k + 1, events[1..])
  {
  }

  function ReadList(o: Outcome, events: seq<Event>): Outcome {
    if o.Running? then ReadAll(o.state, events) else o
  }

  lemma ListStep(r: Reading, input: Input, k: nat, events: seq<Event>, o: Outcome) returns (o': Outcome)
    requires events != [] && input(k) == Ok(events[0]) && ReadInput(r, input, k) == o
    ensures ReadInput(r, input, k + 1) == o' && ReadList(o, events) == ReadList(o', events[1..])
  {
    o' := ReadOn(o, Ok(events[0]));
  }

  /** Reading call by call is reading the list of the events supplied. */
  lemma {:induction false} InputIsList(r: Reading, input: Input, k: nat, events: seq<Event>, m: nat, o: Outcome)
    requires Supplies(input, k, events) && m == k + |events| && ReadInput(r, input, k) == o
    ensures ReadInput(r, input, m) == ReadList(o, events)
    decreases |events|
  {
    if events == [] {
      assert ReadList(o, events) == o;
    } else {
      SuppliesRest(input, k, events);
      var o' := ListStep(r, input, k, events, o);
      InputIsList(r, input, k + 1, events[1..], m, o');
    }
  }

  /** An event that opens an element is legal if its own declarations are. */
  lemma OpenedFrame(open: seq<Frame>, ev: Event)
    requires OpensTag(ev)
    ensures var frames := Entered(open, ev); frames[|frames| - 1] == Declarations(ev.attributes)
  {
  }

  // ---------- The helper and its cache

  /** Frames without declarations change nothing. */
  lemma {:induction false} SilentFrames(frames: seq<Frame>, l: nat)
    requires l <= |frames| && forall i | l <= i < |frames| :: frames[i] == []
    ensures InScope(frames) == InScope(frames[..l])
    decreases |frames|
  {
    if l < |frames| {
      SilentFrames(frames[..|frames| - 1], l);
      assert frames[..|frames| - 1][..l] == frames[..l];
    } else {
      assert frames[..l] == frames;
    }
  }

  /** Without an attribute that looks like a declaration there is none. */
  lemma {:induction false} NoDeclaration(attributes: seq<Attribute>)
    requires forall i | 0 <= i < |attributes| :: !StartsWith(attributes[i].key, "xmlns")
    ensures Declarations(attributes) == []
    decreases |attributes|
  {
    if attributes != [] {
      NoDeclaration(attributes[..|attributes| - 1]);
      var key := attributes[|attributes| - 1].key;
      assert "xmlns" <= "xmlns:";
      assert !StartsWith(key, "xmlns:");
    }
  }

  datatype CacheEntry = CacheEntry(level: nat, bindings: Option<Bindings>)

  class DeserializeHelper {
    var level: nat
    var resolver: seq<Frame>
    var namespaces: seq<CacheEntry>
    var pendingPop: bool

    /**
      Every element that declares something has its own cache entry, and what
      is cached for a level are the bindings in scope there.
     */
    ghost predicate Valid()
      reads this
    {
      && |resolver| == level
      && Coherent(resolver, namespaces)
    }

    /** The elements that stay open once the pending pop is carried out. */
    ghost function Open(): seq<Frame>
      reads this
    {
      if pendingPop then Left(resolver) else resolver
    }

    constructor ()
      ensures Valid() && resolver == [] && !pendingPop
    {
      level, resolver, namespaces, pendingPop := 0, [], [CacheEntry(0, None)], false;
    }

    /** `namespaces()`: the bindings in scope, whether cached, shared with an outer level, or computed now. */
    method Namespaces() returns (r: Bindings)
      requires Valid()
      modifies this`namespaces
      ensures Valid()
      ensures r == InScope(resolver)
    {
      var last := |namespaces| - 1;
      if namespaces[last].bindings.None? {
        namespaces := namespaces[last := namespaces[last].(bindings := Some(InScope(resolver)))];
      }
      TopInScope(resolver, old(namespaces));
      FilledCoherent(resolver, old(namespaces));
      r := namespaces[last].bindings.value;
    }

    /** Drops the cache entries of inner levels. */
    method PopCache()
      modifies this`namespaces
      ensures |namespaces| <= |old(namespaces)| && namespaces == old(namespaces)[..|namespaces|]
      ensures forall j | |namespaces| <= j < |old(namespaces)| :: old(namespaces)[j].level > level
      ensures namespaces == [] || namespaces[|namespaces| - 1].level <= level
    {
      while namespaces != [] && namespaces[|namespaces| - 1].level > level
        invariant |namespaces| <= |old(namespaces)| && namespaces == old(namespaces)[..|namespaces|]
        invariant forall j | |namespaces| <= j < |old(namespaces)| :: old(namespaces)[j].level > level
        decreases |namespaces|
      {
        namespaces := namespaces[..|namespaces| - 1];
      }
    }

    /** The first part of `handle_event`: leaves the element that ended with the previous event. */
    method PopPending()
      requires Valid()
      modifies this
      ensures Valid() && !pendingPop && resolver == old(Open())
    {
      if pendingPop {
        pendingPop := false;
        resolver := if resolver == [] then [] else resolver[..|resolver| - 1];
        level := if level == 0 then 0 else level - 1;
        PopCache();
        PoppedCoherent(old(resolver), old(namespaces), namespaces);
      }
    }

    /** Whether some attribute looks like a namespace declaration. */
    method LooksDeclaring(attributes: seq<Attribute>) returns (r: bool)
      ensures !r ==> Declarations(attributes) == []
    {
      for i := 0 to |attributes|
        invariant forall j | 0 <= j < i :: !StartsWith(attributes[j].key, "xmlns")
      {
        if StartsWith(attributes[i].key, "xmlns") {
          return true;
        }
      }
      NoDeclaration(attributes);
      return false;
    }

    /** Enters an element: a new level, a cache entry if anything is declared, and the declarations if they are legal. */
    method Push(attributes: seq<Attribute>) returns (ok: bool)
      requires Valid()
      modifies this`level, this`namespaces, this`resolver
      ensures ok == Legal(Declarations(attributes))
      ensures ok ==> Valid() && resolver == old(resolver) + [Declarations(attributes)]
    {
      level := level + 1;
      var declares := LooksDeclaring(attributes);
      var frame := Declarations(attributes);
      PushedCoherent(resolver, namespaces, frame, declares);
      if declares {
        namespaces := namespaces + [CacheEntry(level, None)];
      }
      ok := Legal(frame);
      if ok {
        resolver := resolver + [frame];
      }
    }

    /** `handle_event`. */
    method HandleEvent(ev: Event) returns (r: Result<(), ReadError>)
      requires Valid()
      modifies this
      ensures r.Err? <==> OpensTag(ev) && !Legal(Declarations(ev.attributes))
      ensures r.Err? ==> r.error == ReservedNamespace(ev.name)
      ensures r.Ok? ==> Valid() && resolver == Entered(old(Open()), ev) && Open() == OpenAfter(old(Open()), ev)
    {
      PopPending();
      if OpensTag(ev) {
        var pushed := Push(ev.attributes);
        if !pushed {
          return Err(ReservedNamespace(ev.name));
        }
        pendingPop := ev.Empty?;
      } else if ev.End? {
        pendingPop := true;
      }
      return Ok(());
    }
  }

  /** The invariant of the cache over the declarations of the open elements. */
  ghost predicate Coherent(frames: seq<Frame>, cache: seq<CacheEntry>) {
    && cache != [] && cache[0].level == 0
    && (forall i, j | 0 <= i < j < |cache| :: cache[i].level < cache[j].level)
    && (forall j | 0 <= j < |cache| :: cache[j].level <= |frames|)
    && (forall j | 0 <= j < |cache| :: cache[j].bindings.Some? ==>
          cache[j].bindings.value == InScope(frames[..cache[j].level]))
    && (forall l | 0 <= l < |frames| && frames[l] != [] :: HasLevel(cache, l + 1))
  }

  ghost predicate HasLevel(cache: seq<CacheEntry>, l: nat) {
    exists j | 0 <= j < |cache| :: cache[j].level == l
  }

  /** The last entry stands for all levels above it. */
  lemma TopInScope(frames: seq<Frame>, cache: seq<CacheEntry>)
    requires Coherent(frames, cache)
    ensures InScope(frames) == InScope(frames[..cache[|cache| - 1].level])
  {
    var top := cache[|cache| - 1].level;
    assert forall j | 0 <= j < |cache| :: cache[j].level <= top;
    forall l | top <= l < |frames|
      ensures frames[l] == []
    {
      assert !HasLevel(cache, l + 1);
    }
    SilentFrames(frames, top);
  }

  /** Caching the bindings in scope at the last entry keeps the cache coherent. */
  lemma FilledCoherent(frames: seq<Frame>, cache: seq<CacheEntry>)
    requires Coherent(frames, cache)
    ensures var last := |cache| - 1;
            Coherent(frames, cache[last := cache[last].(bindings := Some(InScope(frames)))])
  {
    TopInScope(frames, cache);
    var last := |cache| - 1;
    var cache' := cache[last := cache[last].(bindings := Some(InScope(frames)))];
    forall l | 0 <= l < |frames| && frames[l] != []
      ensures HasLevel(cache', l + 1)
    {
      var j :| 0 <= j < |cache| && cache[j].level == l + 1;
      assert cache'[j].level == l + 1;
    }
  }

  lemma PoppedCoherent(frames: seq<Frame>, cache: seq<CacheEntry>, cache': seq<CacheEntry>)
    requires Coherent(frames, cache)
    requires |cache'| <= |cache| && cache' == cache[..|cache'|]
    requires forall j | |cache'| <= j < |cache| :: cache[j].level > |Left(frames)|
    requires cache' == [] || cache'[|cache'| - 1].level <= |Left(frames)|
    ensures Coherent(Left(frames), cache')
  {
    var frames' := Left(frames);
    assert |cache'| > 0;
    forall j | 0 <= j < |cache'|
      ensures cache'[j].level <= |frames'| && frames'[..cache'[j].level] == frames[..cache'[j].level]
    {
      assert j < |cache'| - 1 ==> cache'[j].level < cache'[|cache'| - 1].level;
    }
    forall l | 0 <= l < |frames'| && frames'[l] != []
      ensures HasLevel(cache', l + 1)
    {
      assert frames[l] == frames'[l] && HasLevel(cache, l + 1);
      var j :| 0 <= j < |cache| && cache[j].level == l + 1;
      assert j < |cache'|;
      assert cache'[j].level == l + 1;
    }
  }

  lemma PushedCoherent(frames: seq<Frame>, cache: seq<CacheEntry>, frame: Frame, declares: bool)
    requires Coherent(frames, cache) && (!declares ==> frame == [])
    ensures Coherent(frames + [frame], if declares then cache + [CacheEntry(|frames| + 1, None)] else cache)
  {
    var frames' := frames + [frame];
    var cache' := if declares then cache + [CacheEntry(|frames| + 1, None)] else cache;
    forall j | 0 <= j < |cache|
      ensures frames'[..cache[j].level] == frames[..cache[j].level]
    {
    }
    forall l | 0 <= l < |frames'| && frames'[l] != []
      ensures HasLevel(cache', l + 1)
    {
      if l < |frames| {
        var j :| 0 <= j < |cache| && cache[j].level == l + 1;
        assert cache'[j] == cache[j];
      } else {
        assert cache'[|cache|].level == l + 1;
      }
    }
  }

  // ---------- The deserializer machine

  /** An element under construction; `sub` is the child under construction, if any. */
  datatype ElementDeserializer = ElementDeserializer(element: Element<Bindings>, sub: Option<ElementDeserializer>)

  datatype Artifact = NoArtifact | Data(element: Element<Bindings>) | Machine(deserializer: ElementDeserializer)

  datatype EventOut = NoEvent | Break(event: Event) | Continue(event: Event)

  datatype Output = Output(artifact: Artifact, event: EventOut, allowAny: bool)

  /** The nested machine as a stack, the root first. */
  function Stacked(d: ElementDeserializer): (stack: seq<Element<Bindings>>)
    ensures stack != []
  {
    [d.element] + (if d.sub.None? then [] else Stacked(d.sub.value))
  }

  /** What the machine says about an event is what the stack does with it. */
  ghost predicate Performs(r: Result<Output, ReadError>, stack: seq<Element<Bindings>>, bindings: Bindings, ev: Event) {
    match StackStep(stack, bindings, ev)
    case Err(error) => r == Err(error)
    case Ok(Keep(stack')) =>
      && r.Ok? && r.value.artifact.Machine? && Stacked(r.value.artifact.deserializer) == stack'
      && r.value.event == NoEvent && r.value.allowAny
    case Ok(Complete(e)) => r == Ok(Output(Data(e), NoEvent, true))
    case Ok(Ignore) =>
      && r.Ok? && r.value.allowAny
      && (if stack == [] then r.value.artifact == NoArtifact && r.value.event == Continue(ev)
          else r.value.artifact.Machine? && Stacked(r.value.artifact.deserializer) == stack && r.value.event == Break(ev))
  }

  /** `init`. */
  method Init(helper: DeserializeHelper, ev: Event) returns (r: Result<Output, ReadError>)
    requires helper.Valid()
    modifies helper`namespaces
    ensures helper.Valid()
    ensures Performs(r, [], InScope(helper.resolver), ev)
  {
    match ev
    case Start(name, attributes) =>
      var namespaces := helper.Namespaces();
      var element :- CreateElement(name, attributes, namespaces);
      return Ok(Output(Machine(ElementDeserializer(element, None)), NoEvent, true));
    case Empty(name, attributes) =>
      var namespaces := helper.Namespaces();
      var element :- CreateElement(name, attributes, namespaces);
      return Ok(Output(Data(element), NoEvent, true));
    case _ =>
      return Ok(Output(NoArtifact, Continue(ev), true));
  }

  /** An event handled below `e` is handled by the stack that starts with `e`. */
  lemma BelowRoot(e: Element<Bindings>, below: seq<Element<Bindings>>, bindings: Bindings, ev: Event)
    requires below != []
    ensures match StackStep(below, bindings, ev)
            case Err(error) => StackStep([e] + below, bindings, ev) == Err(error)
            case Ok(Keep(stack)) => StackStep([e] + below, bindings, ev) == Ok(Keep([e] + stack))
            case Ok(Complete(x)) => StackStep([e] + below, bindings, ev) == Ok(Keep([Append(e, Child(x))]))
            case Ok(Ignore) => StackStep([e] + below, bindings, ev) == Ok(Ignore)
  {
    var stack := [e] + below;
    assert stack[|stack| - 1] == below[|below| - 1] && stack[..|stack| - 1] == [e] + below[..|below| - 1];
    match ev {
      case Start(name, attributes) =>
        if DistinctKeys(attributes) {
          var x := Element(name, [], attributes, bindings);
          assert stack + [x] == [e] + (below + [x]);
        }
      case Empty(name, attributes) =>
        if DistinctKeys(attributes) {
          AppendBelow(e, below, Child(Element(name, [], attributes, bindings)));
        }
      case End(_) =>
        if |below| == 1 {
          assert stack[..|stack| - 1] == [e];
          assert AppendTop([e], Child(below[0])) == [Append(e, Child(below[0]))];
        } else {
          AppendBelow(e, below[..|below| - 1], Child(below[|below| - 1]));
        }
      case TextEvent(text) => AppendBelow(e, below, Text(text));
      case CDataEvent(text) => AppendBelow(e, below, CData(text));
      case CommentEvent(text) => AppendBelow(e, below, Comment(text));
      case OtherEvent(_) =>
    }
  }

  lemma AppendBelow(e: Element<Bindings>, below: seq<Element<Bindings>>, v: Value<Bindings>)
    requires below != []
    ensures AppendTop([e] + below, v) == [e] + AppendTop(below, v)
  {
    var stack := [e] + below;
    assert stack[..|stack| - 1] == [e] + below[..|below| - 1];
    assert stack[|stack| - 1] == below[|below| - 1];
  }

  /**
    `next`: the innermost machine handles the event, the outer ones only take
    over a finished child.
   */
  method Next(self: ElementDeserializer, helper: DeserializeHelper, ev: Event) returns (r: Result<Output, ReadError>)
    requires helper.Valid()
    modifies helper`namespaces
    ensures helper.Valid()
    ensures Performs(r, Stacked(self), InScope(helper.resolver), ev)
    decreases self
  {
    var element, sub := self.element, None;
    var event: Option<Event> := Some(ev);
    if self.sub.Some? {
      BelowRoot(element, Stacked(self.sub.value), InScope(helper.resolver), ev);
      var output :- Next(self.sub.value, helper, ev);
      match output.artifact {
        case NoArtifact =>
        case Data(child) => element := Append(element, Child(child));
        case Machine(d) => sub := Some(d);
      }
      match output.event {
        case NoEvent => event := None;
        case Break(e) => return Ok(Output(Machine(ElementDeserializer(element, sub)), Break(e), true));
        case Continue(e) => event := Some(e);
      }
    }
    if event.None? {
      return Ok(Output(Machine(ElementDeserializer(element, sub)), NoEvent, true));
    }
    match event.value {
      case Start(_, _) =>
        var output :- Init(helper, event.value);
        return Ok(Output(Machine(ElementDeserializer(element, Some(output.artifact.deserializer))), NoEvent, true));
      case Empty(_, _) =>
        var output :- Init(helper, event.value);
        element := Append(element, Child(output.artifact.element));
      case End(_) => return Ok(Output(Data(element), NoEvent, true));
      case TextEvent(text) => element := Append(element, Text(text));
      case CDataEvent(text) => element := Append(element, CData(text));
      case CommentEvent(text) => element := Append(element, Comment(text));
      case OtherEvent(_) => return Ok(Output(Machine(ElementDeserializer(element, sub)), Break(event.value), true));
    }
    return Ok(Output(Machine(ElementDeserializer(element, sub)), NoEvent, true));
  }

  // ---------- The driver

  class DeserializeImpl {
    const helper: DeserializeHelper
    var deserializer: Option<ElementDeserializer>
    var skipDepth: Option<nat>

    ghost predicate Valid()
      reads this, helper
    {
      helper.Valid()
    }

    ghost function View(): Reading
      reads this, helper
    {
      Reading(if deserializer.None? then [] else Stacked(deserializer.value), helper.Open())
    }

    constructor ()
      ensures Valid() && fresh(helper) && View() == Reading([], []) && skipDepth == None
    {
      helper := new DeserializeHelper();
      deserializer, skipDepth := None, None;
    }

    /** `handle_skip`: swallows a skipped element up to its end tag. */
    method HandleSkip(ev: Event) returns (r: Option<Event>)
      modifies this`skipDepth
      ensures old(skipDepth).None? ==> r == Some(ev) && skipDepth == None
      ensures old(skipDepth).Some? ==>
                && (r.Some? <==> ev == OtherEvent("Eof"))
                && skipDepth == match ev
                                case Start(_, _) => Some(old(skipDepth).value + 1)
                                case End(_) => if old(skipDepth).value <= 1 then None else Some(old(skipDepth).value - 1)
                                case _ => old(skipDepth)
    {
      if skipDepth.None? {
        return Some(ev);
      }
      match ev
      case Start(_, _) => skipDepth := Some(skipDepth.value + 1); return None;
      case End(_) =>
        skipDepth := if skipDepth.value <= 1 then None else Some(skipDepth.value - 1);
        return None;
      case OtherEvent(kind) => return if kind == "Eof" then Some(ev) else None;
      case _ => return None;
    }

    /** The second part of `handle_event`: `init` or `next`, and what becomes of their output. */
    method Dispatch(ev: Event) returns (r: Result<Option<Element<Bindings>>, ReadError>)
      requires Valid() && skipDepth == None
      modifies this, helper`namespaces
      ensures Valid() && skipDepth == None
      ensures match StackStep(old(View()).stack, InScope(helper.resolver), ev)
              case Err(error) => r == Err(error)
              case Ok(Keep(stack)) => r == Ok(None) && View().stack == stack
              case Ok(Complete(e)) => r == Ok(Some(e))
              case Ok(Ignore) => r == Ok(None) && View().stack == old(View()).stack
    {
      var ret;
      if deserializer.None? {
        ret := Init(helper, ev);
      } else {
        ret := Next(deserializer.value, helper, ev);
      }
      var output :- ret;
      var data: Option<Element<Bindings>> := None;
      match output.artifact {
        case NoArtifact => deserializer := None;
        case Data(element) => data, deserializer := Some(element), None;
        case Machine(d) => deserializer := Some(d);
      }
      var skipped: Option<nat> := Some(1);
      var unhandled := if output.event.NoEvent? then None else Some(output.event.event);
      skipDepth := if unhandled.Some? && unhandled.value.Start? && output.allowAny then skipped else skipDepth;
      return Ok(data);
    }

    /** `handle_event`: an element deserializer takes every element, so that nothing is ever skipped. */
    method HandleEvent(ev: Event) returns (r: Result<Option<Element<Bindings>>, ReadError>)
      requires Valid() && skipDepth == None
      modifies this, helper
      ensures match ReadStep(old(View()), ev)
              case Running(state) => r == Ok(None) && Valid() && View() == state && skipDepth == None
              case Finished(e) => r == Ok(Some(e))
              case Failed(error) => r == Err(error)
    {
      ghost var before := View();
      if OpensTag(ev) {
        OpenedFrame(before.open, ev);
      }
      var scope := helper.HandleEvent(ev);
      if scope.Err? {
        return Err(scope.error);
      }
      assert helper.resolver == Entered(before.open, ev) && View() == Reading(before.stack, OpenAfter(before.open, ev));
      var event := HandleSkip(ev);
      r := Dispatch(event.value);
    }

    /**
      `deserialize_sync`: reads until an element is complete or an error occurs,
      as the input makes it happen after at most `stop` events.
     */
    method Deserialize(input: Input, ghost stop: nat) returns (r: Result<Element<Bindings>, ReadError>)
      requires Valid() && skipDepth == None
      requires !ReadInput(View(), input, stop).Running?
      modifies this, helper
      ensures match ReadInput(old(View()), input, stop)
              case Running(_) => false
              case Finished(e) => r == Ok(e)
              case Failed(error) => r == Err(error)
    {
      ghost var start := View();
      var n := 0;
      while true
        invariant Valid() && skipDepth == None && n < stop
        invariant ReadInput(start, input, n) == Running(View())
        decreases stop - n
      {
        ghost var o := NextCall(start, input, n, stop, View());
        var data := Call(input(n), o);
        if data.Err? || data.value.Some? {
          return if data.Err? then Err(data.error) else Ok(data.value.value);
        }
        n := n + 1;
      }
    }

    /** One round of the loop. */
    method Call(next: Result<Event, ReadError>, ghost o: Outcome) returns (r: Result<Option<Element<Bindings>>, ReadError>)
      requires Valid() && skipDepth == None && o == ReadOn(Running(View()), next)
      modifies this, helper
      ensures match o
              case Running(state) => r == Ok(None) && Valid() && View() == state && skipDepth == None
              case Finished(e) => r == Ok(Some(e))
              case Failed(error) => r == Err(error)
    {
      var event :- next;
      r := HandleEvent(event);
    }
  }
}
