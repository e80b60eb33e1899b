/**
  Documents around an element: declarations, comments and texts before the root,
  processing instructions and the like anywhere, and whatever follows the root,
  make no difference to the element that is read.
 */
module XmlDocuments {
  import opened Wrappers
  import opened XmlModel
  import opened XmlWriter
  import opened XmlReader
  import opened XmlRoundTrip

  // ---------- Events that make no difference

  /** The events without declarations, processing instructions, document types and references. */
  function Significant(events: seq<Event>): seq<Event> {
    if events == [] then []
    else if events[0].OtherEvent? then Significant(events[1..])
    else [events[0]] + Significant(events[1..])
  }

  /** The event neither opens nor closes an element. */
  predicate IsPlain(ev: Event) {
    ev.TextEvent? || ev.CDataEvent? || ev.CommentEvent? || ev.OtherEvent?
  }

  /** Wherever they stand, such events change nothing, not even before the root. */
  lemma {:induction false} OthersIgnored(r: Reading, events: seq<Event>)
    ensures ReadAll(r, events) == ReadAll(r, Significant(events))
    decreases |events|
  {
    if events != [] {
      if events[0].OtherEvent? {
        assert ReadStep(r, events[0]) == Running(r);
        OthersIgnored(r, events[1..]);
      } else {
        assert ([events[0]] + Significant(events[1..]))[1..] == Significant(events[1..]);
        if ReadStep(r, events[0]).Running? {
          OthersIgnored(ReadStep(r, events[0]).state, events[1..]);
        }
      }
    }
  }

  lemma {:induction false} SignificantAppend(a: seq<Event>, b: seq<Event>)
    ensures Significant(a + b) == Significant(a) + Significant(b)
    decreases |a|
  {
    if a == [] {
      assert a + b == b;
    } else {
      SignificantAppend(a[1..], b);
      assert (a + b)[1..] == a[1..] + b;
    }
  }

  /** One such event, at any place. */
  lemma OtherIgnored(r: Reading, a: seq<Event>, kind: string, b: seq<Event>)
    ensures ReadAll(r, a + [OtherEvent(kind)] + b) == ReadAll(r, a + b)
  {
    OthersIgnored(r, a + [OtherEvent(kind)] + b);
    OthersIgnored(r, a + b);
    SignificantAppend(a + [OtherEvent(kind)], b);
    SignificantAppend(a, [OtherEvent(kind)]);
    SignificantAppend(a, b);
    assert [OtherEvent(kind)][1..] == [] && Significant([OtherEvent(kind)]) == [];
    assert Significant(a) + [] == Significant(a);
  }

  /** Before the root also texts and comments change nothing. */
  lemma {:induction false} PrologIgnored(open: seq<Frame>, prolog: seq<Event>, rest: seq<Event>)
    requires forall i | 0 <= i < |prolog| :: IsPlain(prolog[i])
    ensures ReadAll(Reading([], open), prolog + rest) == ReadAll(Reading([], open), rest)
    decreases |prolog|
  {
    if prolog == [] {
      assert prolog + rest == rest;
    } else {
      assert (prolog + rest)[1..] == prolog[1..] + rest;
      assert ReadStep(Reading([], open), prolog[0]) == Running(Reading([], open));
      PrologIgnored(open, prolog[1..], rest);
    }
  }

  /** After the root nothing is read any more. */
  lemma {:induction false} EpilogIgnored(r: Reading, events: seq<Event>, epilog: seq<Event>)
    requires ReadAll(r, events).Finished?
    ensures ReadAll(r, events + epilog) == ReadAll(r, events)
    decreases |events|
  {
    assert (events + epilog)[1..] == events[1..] + epilog;
    if ReadStep(r, events[0]).Running? {
      EpilogIgnored(ReadStep(r, events[0]).state, events[1..], epilog);
    }
  }

  // ---------- Documents

  /** The body consists of the written events of the element, with insignificant ones inserted anywhere. */
  ghost predicate Document(document: seq<Event>, name: Option<string>, e: Element<Namespaces>) {
    exists prolog, body, epilog :: IsDocument(document, prolog, body, epilog, name, e)
  }

  ghost predicate IsDocument(
    document: seq<Event>, prolog: seq<Event>, body: seq<Event>, epilog: seq<Event>, name: Option<string>, e: Element<Namespaces>)
  {
    && document == prolog + body + epilog && (forall i | 0 <= i < |prolog| :: IsPlain(prolog[i]))
    && Significant(body) == Events(Scope(0, []), name, e)
  }

  /** A document around a writable element is read without error, and the element is rebuilt exactly if it is restorable. */
  lemma DocumentRoundTrip(document: seq<Event>, name: Option<string>, e: Element<Namespaces>)
    requires Writable(e) && Document(document, name, e)
    ensures var read := ReadAll(Reading([], []), document);
            && read.Finished?
            && (SameElement(read.element, e.(name := NameOf(name, e))) <==> AllRestorable(Scope(0, []), map[], e))
  {
    var prolog, body, epilog :| IsDocument(document, prolog, body, epilog, name, e);
    assert prolog + body + epilog == prolog + (body + epilog);
    PrologIgnored([], prolog, body + epilog);
    RoundTripIff(name, e);
    OthersIgnored(Reading([], []), body);
    EpilogIgnored(Reading([], []), body, epilog);
  }

  /** The same for a tokenizer that supplies the document event by event. */
  lemma DocumentFromInput(document: seq<Event>, name: Option<string>, e: Element<Namespaces>, input: Input)
    requires Writable(e) && Document(document, name, e) && Supplies(input, 0, document)
    ensures var read := ReadInput(Reading([], []), input, |document|);
            && read.Finished?
            && (SameElement(read.element, e.(name := NameOf(name, e))) <==> AllRestorable(Scope(0, []), map[], e))
  {
    DocumentRoundTrip(document, name, e);
    InputIsList(Reading([], []), input, 0, document, |document|, Running(Reading([], [])));
  }

  // ---------- Which events stand for what

  /** A value that is no element is written as one event of its kind, and read as it was written. */
  lemma ValueEventsAlike(s: Scope, r: Reading, text: string)
    requires r.stack != []
    ensures OneValue(s, Text(text)) == [TextEvent(text)]
    ensures OneValue(s, CData(text)) == [CDataEvent(text)]
    ensures OneValue(s, Comment(text)) == [CommentEvent(text)]
    ensures ReadStep(r, TextEvent(text)) == Running(r.(stack := AppendTop(r.stack, Text(text))))
    ensures ReadStep(r, CDataEvent(text)) == Running(r.(stack := AppendTop(r.stack, CData(text))))
    ensures ReadStep(r, CommentEvent(text)) == Running(r.(stack := AppendTop(r.stack, Comment(text))))
  {
  }

  /** An element without values is one empty tag; any other has a start and an end tag around its values. */
  lemma TagsOf(s: Scope, name: Option<string>, e: Element<Namespaces>)
    ensures var events := Events(s, name, e);
            && |events| > 0
            && (e.values == [] <==> |events| == 1 && events[0].Empty?)
            && (e.values == [] ==> events[0].name == NameOf(name, e))
            && (e.values != [] ==> |events| >= 2 && events[0].Start? && events[0].name == NameOf(name, e)
                                   && events[|events| - 1] == End(NameOf(name, e)))
  {
  }

  /** A tag is refused for a reserved declaration, then for a repeated attribute name, and for nothing else. */
  lemma TagErrors(r: Reading, ev: Event)
    requires OpensTag(ev)
    ensures (exists i :: 0 <= i < |Declarations(ev.attributes)| && IsReserved(Declarations(ev.attributes)[i])) ==>
              ReadStep(r, ev) == Failed(ReservedNamespace(ev.name))
    ensures (forall i | 0 <= i < |Declarations(ev.attributes)| :: !IsReserved(Declarations(ev.attributes)[i])) ==>
              ((exists i, j :: 0 <= i < j < |ev.attributes| && ev.attributes[i].key == ev.attributes[j].key) <==>
                ReadStep(r, ev) == Failed(DuplicateAttribute(ev.name)))
              && (ReadStep(r, ev).Failed? ==> ReadStep(r, ev) == Failed(DuplicateAttribute(ev.name)))
  {
    OpenedFrame(r.open, ev);
  }
}
