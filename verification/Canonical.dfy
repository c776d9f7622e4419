/**
  Canonical prefixes (crossref/src/normalize.rs): what a document means once its prefixes are forgotten, and the
  canonical form as a rendering of that meaning.
 */
module Canonical {
  import opened Wrappers
  import opened Xml
  import opened Namespaces
  import opened Ordering
  import opened Tags

  // ----- Meaning

  /** A namespace after resolution; `Raw` is an attribute prefix that stands for no usable URI. */
  datatype Ns = NoNs | Uri(uri: string) | Raw(prefix: string)

  datatype EName = EName(ns: Ns, local: string)

  datatype EAttr = EAttr(name: EName, value: string)

  /** One token of a document's meaning; text is broken into characters, comments and PIs are gone. */
  datatype Token =
    | Open(name: EName, attrs: seq<EAttr>, selfClosing: bool)
    | Close(name: EName)
    | Char(c: char)
    | Section(text: string)
    | Entity(entity: string)

  datatype Fault = UnknownPrefix(prefix: string) | UnmappedUri(uri: string) | EndWithoutStart

  /** An element's name; the xml namespace and unknown prefixes are errors. */
  function ElementName(scope: Scope, name: Name): Result<EName, Fault>
  {
    match ElementNs(scope, name.prefix)
    case Bound(uri) => if uri == XML_NS then Err(UnmappedUri(uri)) else Ok(EName(Uri(uri), name.local))
    case Unbound => Ok(EName(NoNs, name.local))
    case Unknown(prefix) => Err(UnknownPrefix(prefix))
  }

  function AttrName(scope: Scope, name: Name): EName
  {
    if name.prefix == "" then EName(NoNs, name.local)
    else if name.prefix == "xml" then EName(Uri(XML_NS), name.local)
    else
      var ns := AttributeNs(scope, name.prefix);
      if ns.Bound? && ns.uri != XML_NS then EName(Uri(ns.uri), name.local)
      else EName(Raw(name.prefix), name.local)
  }

  /** The attributes that are no declarations, in the order written. */
  function AttrsOf(scope: Scope, attrs: seq<Attr>): seq<EAttr>
  {
    if attrs == [] then [] else
      (if IsDecl(attrs[0].name) then [] else [EAttr(AttrName(scope, attrs[0].name), attrs[0].value)])
      + AttrsOf(scope, attrs[1..])
  }

  /** An open element: its name, and the scope inside it. */
  datatype Frame = Frame(name: EName, scope: Scope)

  function ScopeOf(open: seq<Frame>): Scope
  {
    if open == [] then OUTERMOST else open[|open| - 1].scope
  }

  function Characters(text: string): seq<Token>
  {
    seq(|text|, i requires 0 <= i < |text| => Char(text[i]))
  }

  function Tokens(piece: Piece): seq<Token>
  {
    match piece
    case Text(text) => Characters(text)
    case CData(text) => [Section(text)]
    case GeneralRef(entity) => [Entity(entity)]
    case Misc(_) => []
  }

  function Then(first: seq<Token>, r: Result<seq<Token>, Fault>): Result<seq<Token>, Fault>
  {
    if r.Ok? then Ok(first + r.value) else r
  }

  /** The meaning of the events that remain, below the open elements. */
  function MeaningOf(events: seq<Event>, open: seq<Frame>): Result<seq<Token>, Fault>
  {
    if events == [] then Ok([]) else
      match events[0]
      case Start(name, attrs) => (
        var inner := Inside(ScopeOf(open), attrs);
        match ElementName(inner, name)
        case Err(fault) => Err(fault)
        case Ok(en) =>
          Then([Open(en, AttrsOf(inner, attrs), false)], MeaningOf(events[1..], open + [Frame(en, inner)]))
      )
      case Empty(name, attrs) => (
        var inner := Inside(ScopeOf(open), attrs);
        match ElementName(inner, name)
        case Err(fault) => Err(fault)
        case Ok(en) => Then([Open(en, AttrsOf(inner, attrs), true)], MeaningOf(events[1..], open))
      )
      case End(_) =>
        if open == [] then Err(EndWithoutStart)
        else Then([Close(open[|open| - 1].name)], MeaningOf(events[1..], open[..|open| - 1]))
      case Chars(piece) => Then(Tokens(piece), MeaningOf(events[1..], open))
  }

  /** Equal up to the order of attributes. */
  predicate SameToken(s: Token, t: Token)
  {
    if s.Open? && t.Open? then
      s.name == t.name && s.selfClosing == t.selfClosing
      && (forall a :: a in s.attrs ==> a in t.attrs) && (forall a :: a in t.attrs ==> a in s.attrs)
    else s == t
  }

  predicate SameMeaning(s: seq<Token>, t: seq<Token>)
  {
    |s| == |t| && forall i :: 0 <= i < |s| ==> SameToken(s[i], t[i])
  }

  // ----- Rendering

  /** Attribute values are escaped on the way out, whatever they contain. */
  function Escape(value: string): string
  {
    if value == "" then "" else
      (match value[0]
       case '"' => "&quot;"
       case '<' => "&lt;"
       case '&' => "&amp;"
       case c => [c])
      + Escape(value[1..])
  }

  function NsUris(ns: Ns): set<string>
  {
    if ns.Uri? && ns.uri != XML_NS then {ns.uri} else {}
  }

  function AttrUris(attrs: seq<EAttr>): set<string>
  {
    if attrs == [] then {} else NsUris(attrs[0].name.ns) + AttrUris(attrs[1..])
  }

  /** The namespaces a document uses, the xml namespace aside. */
  function Used(tokens: seq<Token>): set<string>
  {
    if tokens == [] then {} else
      (if tokens[0].Open? then NsUris(tokens[0].name.ns) + AttrUris(tokens[0].attrs) else {}) + Used(tokens[1..])
  }

  function IndexOf(uris: seq<string>, uri: string): (i: nat)
    requires uri in uris
    ensures i < |uris| && uris[i] == uri
  {
    if uris[0] == uri then 0 else 1 + IndexOf(uris[1..], uri)
  }

  function PrefixAt(i: nat): string { "n" + Decimal(i) }

  function PrefixFor(uris: seq<string>, ns: Ns): string
  {
    match ns
    case NoNs => ""
    case Raw(prefix) => prefix
    case Uri(uri) => if uri == XML_NS then "xml" else if uri in uris then PrefixAt(IndexOf(uris, uri)) else ""
  }

  function AttrEntry(uris: seq<string>, a: EAttr): Entry
  {
    Entry(Written(PrefixFor(uris, a.name.ns), a.name.local), Escape(a.value))
  }

  function AttrEntries(uris: seq<string>, attrs: seq<EAttr>): (r: seq<Entry>)
    ensures |r| == |attrs| && forall i :: 0 <= i < |r| ==> r[i] == AttrEntry(uris, attrs[i])
  {
    seq(|attrs|, i requires 0 <= i < |attrs| => AttrEntry(uris, attrs[i]))
  }

  /** The declarations of the root: one prefix for each URI, n0 for the first. */
  function DeclEntries(uris: seq<string>): (r: seq<Entry>)
    ensures |r| == |uris| && forall i :: 0 <= i < |r| ==> r[i] == Entry(PrefixAt(i), uris[i])
  {
    seq(|uris|, i requires 0 <= i < |uris| => Entry(PrefixAt(i), uris[i]))
  }

  /** What is to be written; `decls` are the xmlns declarations, keyed by prefix. */
  datatype Output =
    | OpenTag(prefix: string, local: string, decls: seq<Entry>, attrs: seq<Entry>, selfClosing: bool)
    | CloseTag(prefix: string, local: string)
    | OutChar(c: char)
    | OutSection(text: string)
    | OutEntity(entity: string)

  function RenderToken(uris: seq<string>, first: bool, t: Token): Output
  {
    match t
    case Open(name, attrs, selfClosing) =>
      OpenTag(PrefixFor(uris, name.ns), name.local, if first then Sorted(DeclEntries(uris)) else [],
              Sorted(AttrEntries(uris, attrs)), selfClosing)
    case Close(name) => CloseTag(PrefixFor(uris, name.ns), name.local)
    case Char(c) => OutChar(c)
    case Section(text) => OutSection(text)
    case Entity(entity) => OutEntity(entity)
  }

  function Render(uris: seq<string>, tokens: seq<Token>, first: bool): (out: seq<Output>)
    ensures |out| == |tokens|
  {
    if tokens == [] then []
    else [RenderToken(uris, first, tokens[0])] + Render(uris, tokens[1..], first && !tokens[0].Open?)
  }

  function EntriesText(prefix: string, entries: seq<Entry>): string
  {
    if entries == [] then ""
    else Quoted(prefix + entries[0].key, entries[0].value) + EntriesText(prefix, entries[1..])
  }

  /** As it is written: URIs as they are, attribute values already escaped. */
  function InkOf(o: Output): Ink
  {
    match o
    case OpenTag(prefix, local, decls, attrs, selfClosing) =>
      Tag(TagText(Written(prefix, local), EntriesText("xmlns:", decls) + EntriesText("", attrs), selfClosing))
    case CloseTag(prefix, local) => Tag(EndText(Written(prefix, local)))
    case OutChar(c) => Data(Text([c]))
    case OutSection(text) => Data(CData(text))
    case OutEntity(entity) => Data(GeneralRef(entity))
  }

  function InkAll(out: seq<Output>): (inks: seq<Ink>)
    ensures |inks| == |out| && forall i :: 0 <= i < |inks| ==> inks[i] == InkOf(out[i])
  {
    seq(|out|, i requires 0 <= i < |out| => InkOf(out[i]))
  }

  /** The meaning, rendered with one prefix for each URI in use, in URI order. */
  ghost function CanonicalTags(events: seq<Event>): Result<seq<Output>, Fault>
  {
    match MeaningOf(events, [])
    case Err(fault) => Err(fault)
    case Ok(tokens) => Ok(Render(InOrder(Used(tokens)), tokens, true))
  }

  /** The canonical form: that rendering, written out. */
  ghost function CanonicalForm(events: seq<Event>): Result<seq<Ink>, Fault>
  {
    match CanonicalTags(events)
    case Err(fault) => Err(fault)
    case Ok(out) => Ok(InkAll(out))
  }
}
