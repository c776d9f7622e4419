/** Splitting a SOAP envelope into self-contained fragments, and wrapping a body (src/envelope.rs). */
module Envelope {
  import opened Wrappers
  import opened Xml
  import opened Namespaces
  import opened Tags

  const SOAP12 := "http://www.w3.org/2003/05/soap-envelope"
  const SOAP11 := "http://schemas.xmlsoap.org/soap/envelope/"

  datatype SoapVersion = Soap11 | Soap12

  datatype Fault =
    | MissingEnvelope | UnknownEnvelopeNamespace | MissingBody | MissingBodyChild
    | EofInHeader | EofInBodyChild | UnexpectedEof

  /** The fragments are written out, to be tokenised on their own. */
  datatype Parsed = Parsed(version: SoapVersion, headers: seq<seq<Ink>>, body: seq<Ink>)

  // ----- What is re-emitted on a fragment's root

  datatype Binding = Binding(prefix: string, uri: string)

  /** The xmlns attributes of a tag, in the order written. */
  function Bindings(attrs: seq<Attr>): seq<Binding>
  {
    if attrs == [] then [] else
      (if IsDecl(attrs[0].name) then [Binding(DeclPrefix(attrs[0].name), attrs[0].value)] else [])
      + Bindings(attrs[1..])
  }

  /** The prefixes a tag declares itself. */
  function OwnPrefixes(attrs: seq<Attr>): set<string>
  {
    set a | a in attrs && IsDecl(a.name) :: DeclPrefix(a.name)
  }

  /** Every inherited binding whose prefix the tag does not declare itself, as an attribute. */
  function Inherited(bindings: seq<Binding>, own: set<string>): seq<Attr>
  {
    if bindings == [] then [] else
      (if bindings[0].prefix in own then [] else [Attr(DeclName(bindings[0].prefix), bindings[0].uri)])
      + Inherited(bindings[1..], own)
  }

  function RootAttrs(bindings: seq<Binding>, attrs: seq<Attr>): seq<Attr>
  {
    Inherited(bindings, OwnPrefixes(attrs)) + attrs
  }

  predicate Kept(piece: Piece) { piece.Text? || piece.GeneralRef? }

  // ----- The event loops, as functions of the events that remain

  datatype Split<T> = Split(taken: T, rest: seq<Event>)

  /** Copies events until the open element closes, dropping CDATA, comments and PIs. */
  function CopyUntilClose(events: seq<Event>, depth: nat): (r: Result<Split<seq<Event>>, Fault>)
    ensures r.Ok? ==> |r.value.rest| < |events|
  {
    if events == [] then Err(EofInBodyChild) else
      match events[0]
      case Start(_, _) => Emit(events[0], CopyUntilClose(events[1..], depth + 1))
      case Empty(_, _) => Emit(events[0], CopyUntilClose(events[1..], depth))
      case End(_) =>
        if depth <= 1 then Ok(Split([events[0]], events[1..]))
        else Emit(events[0], CopyUntilClose(events[1..], depth - 1))
      case Chars(piece) =>
        var r := CopyUntilClose(events[1..], depth);
        if Kept(piece) then Emit(events[0], r) else r
  }

  function Emit(e: Event, r: Result<Split<seq<Event>>, Fault>): Result<Split<seq<Event>>, Fault>
  {
    if r.Ok? then Ok(Split([e] + r.value.taken, r.value.rest)) else r
  }

  function HeaderChildren(events: seq<Event>, bindings: seq<Binding>): (r: Result<Split<seq<seq<Event>>>, Fault>)
    ensures r.Ok? ==> |r.value.rest| < |events|
    decreases |events|
  {
    if events == [] then Err(EofInHeader) else
      match events[0]
      case Start(name, attrs) => (
        match CopyUntilClose(events[1..], 1)
        case Err(_) => Err(EofInHeader)
        case Ok(copied) =>
          AddChild([Start(name, RootAttrs(bindings, attrs))] + copied.taken, HeaderChildren(copied.rest, bindings))
      )
      case Empty(name, attrs) =>
        AddChild([Empty(name, RootAttrs(bindings, attrs))], HeaderChildren(events[1..], bindings))
      case End(_) => Ok(Split([], events[1..]))
      case Chars(_) => HeaderChildren(events[1..], bindings)
  }

  function AddChild(child: seq<Event>, r: Result<Split<seq<seq<Event>>>, Fault>): Result<Split<seq<seq<Event>>>, Fault>
  {
    if r.Ok? then Ok(Split([child] + r.value.taken, r.value.rest)) else r
  }

  function BodyChild(events: seq<Event>, bindings: seq<Binding>): (r: Result<Split<seq<Event>>, Fault>)
    ensures r.Ok? ==> |r.value.rest| < |events|
  {
    if events == [] then Err(MissingBodyChild) else
      match events[0]
      case Start(name, attrs) => Emit(Start(name, RootAttrs(bindings, attrs)), CopyUntilClose(events[1..], 1))
      case Empty(name, attrs) => Ok(Split([Empty(name, RootAttrs(bindings, attrs))], events[1..]))
      case End(_) => Err(MissingBody)
      case Chars(_) => BodyChild(events[1..], bindings)
  }

  function SkipToEnd(events: seq<Event>, depth: nat): (r: Result<seq<Event>, Fault>)
    ensures r.Ok? ==> |r.value| < |events|
  {
    if events == [] then Err(UnexpectedEof) else
      match events[0]
      case Start(_, _) => SkipToEnd(events[1..], depth + 1)
      case End(_) => if depth <= 1 then Ok(events[1..]) else SkipToEnd(events[1..], depth - 1)
      case _ => SkipToEnd(events[1..], depth)
  }

  predicate IsSoapNs(ns: Namespace) { ns == Bound(SOAP12) || ns == Bound(SOAP11) }

  datatype Part = HeaderPart | BodyPart | OtherPart

  /** What a child of the envelope is, by local name and resolved namespace. */
  function PartOf(scope: Scope, name: Name, attrs: seq<Attr>): Part
  {
    if !IsSoapNs(ElementNs(Inside(scope, attrs), name.prefix)) then OtherPart
    else if name.local == "Header" then HeaderPart
    else if name.local == "Body" then BodyPart
    else OtherPart
  }

  datatype Parts = Parts(headers: seq<seq<Event>>, body: Option<seq<Event>>)

  /** The loop over the envelope's children; a later Header or Body replaces an earlier one. */
  function EnvelopeChildren(events: seq<Event>, scope: Scope, bindings: seq<Binding>, parts: Parts): Result<Parts,
      Fault>
    decreases |events|
  {
    if events == [] then Ok(parts) else
      match events[0]
      case Start(name, attrs) => (
        var inherited := Bindings(attrs) + bindings;
        match PartOf(scope, name, attrs)
        case HeaderPart => (
          match HeaderChildren(events[1..], inherited)
          case Err(fault) => Err(fault)
          case Ok(h) => EnvelopeChildren(h.rest, scope, bindings, parts.(headers := h.taken))
        )
        case BodyPart => (
          match BodyChild(events[1..], inherited)
          case Err(fault) => Err(fault)
          case Ok(b) =>
            match SkipToEnd(b.rest, 1)
            case Err(fault) => Err(fault)
            case Ok(rest) => EnvelopeChildren(rest, scope, bindings, parts.(body := Some(b.taken)))
        )
        case OtherPart =>
          match SkipToEnd(events[1..], 1)
          case Err(fault) => Err(fault)
          case Ok(rest) => EnvelopeChildren(rest, scope, bindings, parts)
      )
      case End(_) => Ok(parts)
      case _ => EnvelopeChildren(events[1..], scope, bindings, parts)
  }

  datatype Found = Found(version: SoapVersion, scope: Scope, bindings: seq<Binding>, rest: seq<Event>)

  /** Looks for the first start tag called Envelope, at any depth; `scopes` are those of the open elements. */
  function FindEnvelope(events: seq<Event>, scopes: seq<Scope>): (r: Result<Found, Fault>)
    requires scopes != []
  {
    if events == [] then Err(MissingEnvelope) else
      match events[0]
      case Start(name, attrs) =>
        var inner := Inside(scopes[|scopes| - 1], attrs);
        if name.local == "Envelope" then
          var ns := ElementNs(inner, name.prefix);
          if ns == Bound(SOAP12) then Ok(Found(Soap12, inner, Bindings(attrs), events[1..]))
          else if ns == Bound(SOAP11) then Ok(Found(Soap11, inner, Bindings(attrs), events[1..]))
          else Err(UnknownEnvelopeNamespace)
        else FindEnvelope(events[1..], scopes + [inner])
      case End(_) => FindEnvelope(events[1..], if |scopes| > 1 then scopes[..|scopes| - 1] else scopes)
      case _ => FindEnvelope(events[1..], scopes)
  }

  function WriteEach(fragments: seq<seq<Event>>): (written: seq<seq<Ink>>)
    ensures |written| == |fragments| && forall i :: 0 <= i < |written| ==> written[i] == WriteAll(fragments[i])
  {
    seq(|fragments|, i requires 0 <= i < |fragments| => WriteAll(fragments[i]))
  }

  function Parse(events: seq<Event>): Result<Parsed, Fault>
  {
    match FindEnvelope(events, [OUTERMOST])
    case Err(fault) => Err(fault)
    case Ok(found) =>
      match EnvelopeChildren(found.rest, found.scope, found.bindings, Parts([], None))
      case Err(fault) => Err(fault)
      case Ok(parts) =>
        if parts.body.None? then Err(MissingBody)
        else Ok(Parsed(found.version, WriteEach(parts.headers), WriteAll(parts.body.value)))
  }
}
