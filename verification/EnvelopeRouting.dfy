/** The routing key of an extracted body (extract_body_qname in src/server.rs), and the envelope round trip. */
module EnvelopeRouting {
  import opened Wrappers
  import opened Xml
  import opened Namespaces
  import opened Tags
  import opened Envelope
  import opened EnvelopeMeaning
  import opened FragmentReading
  import opened SchemaTypes

  datatype RoutingFault = EmptyBody | Unreadable

  /** A name that resolves to no namespace, for whatever reason, is routed by its local part. */
  function QNameOf(ns: Namespace, local: string): QName
  {
    QName(if ns.Bound? then Some(ns.uri) else None, local)
  }

  /** The expanded name of the first tag read, with nothing in scope but what the tag declares. */
  function FirstQName(body: seq<Ink>): Result<QName, RoutingFault>
  {
    if body == [] then Err(EmptyBody) else
      match body[0]
      case Data(_) => FirstQName(body[1..])
      case Tag(text) =>
        match ReadTag(text)
        case None => Err(Unreadable)
        case Some((Start(name, attrs), _)) => Ok(QNameOf(ElementNs(Inside(OUTERMOST, attrs), name.prefix), name.local))
        case Some((Empty(name, attrs), _)) => Ok(QNameOf(ElementNs(Inside(OUTERMOST, attrs), name.prefix), name.local))
        case Some(_) => FirstQName(body[1..])
  }

  method ExtractBodyQName(body: seq<Ink>) returns (r: Result<QName, RoutingFault>)
    ensures r == FirstQName(body)
  {
    for i := 0 to |body|
      invariant FirstQName(body[i..]) == FirstQName(body)
    {
      assert body[i..][1..] == body[i + 1..];
      match body[i] {
        case Data(_) =>
        case Tag(text) =>
          match ReadTag(text) {
            case None =>
              return Err(Unreadable);
            case Some((Start(name, attrs), _)) =>
              return Ok(QNameOf(ElementNs(Inside(OUTERMOST, attrs), name.prefix), name.local));
            case Some((Empty(name, attrs), _)) =>
              return Ok(QNameOf(ElementNs(Inside(OUTERMOST, attrs), name.prefix), name.local));
            case Some(_) =>
          }
      }
    }
    return Err(EmptyBody);
  }

  /** What an element is called in its document, below two ancestors with these attributes; no URI if none is found. */
  function NameInDocument(outer: seq<Attr>, inner: seq<Attr>, el: Forest): QName
    requires IsElement(el)
  {
    match ElementNs(Inside(Inside(Inside(OUTERMOST, outer), inner), el.attrs), el.name.prefix)
    case Bound(uri) => QName(Some(uri), el.name.local)
    case _ => QName(None, el.name.local)
  }

  /** Routing reads the fragment's first tag, if it is one. */
  lemma FragmentQName(outer: seq<Attr>, inner: seq<Attr>, el: Forest, attrs: seq<Attr>)
    requires IsElement(el) && ReadTag(RootText(outer, inner, el)) == Some((RootTag(el, attrs), ""))
    ensures FirstQName(FragmentText(outer, inner, el))
            == Ok(QNameOf(ElementNs(Inside(OUTERMOST, attrs), el.name.prefix), el.name.local))
  {
    FragmentStartsWithRoot(outer, inner, el);
    hide RootText, FragmentText, ReadTag;
  }

  /** Envelope and Body declare the prefix of the body element differently, and the element itself does not. */
  predicate RoutesAstray(outer: seq<Attr>, inner: seq<Attr>, el: Forest)
    requires IsElement(el)
  {
    el.name.prefix !in Declared(el.attrs) && DeclaredDifferently(outer, inner, el.name.prefix)
  }

  /**
    An element with no double quote in the values of its fragment's root is routed by its name in the document, unless
    its prefix is declared differently around it.
   */
  lemma RoutedCorrectlyExactlyWhen(outer: seq<Attr>, inner: seq<Attr>, el: Forest)
    requires IsElement(el) && NameLike(el.name) && NamedAttrs(outer) && NamedAttrs(inner) && NamedAttrs(el.attrs)
    requires RootQuoteFree(outer, inner, el.attrs)
    ensures FirstQName(FragmentText(outer, inner, el)) == Ok(NameInDocument(outer, inner, el))
            <==> !RoutesAstray(outer, inner, el)
  {
    RootReadsBack(outer, inner, el);
    FragmentQName(outer, inner, el, RootAttrs(Bindings(inner) + Bindings(outer), el.attrs));
    FragmentScope(outer, inner, el.attrs);
    hide FragmentText, RootText, Declared, Bindings, RootAttrs, FirstQName, NamedAttrs, RootQuoteFree, NameLike;
    var p, i, o, own := el.name.prefix, Declared(inner), Declared(outer), Declared(el.attrs);
    SameQName(((OUTERMOST + i) + o) + own, ((OUTERMOST + o) + i) + own, p, el.name.local);
    LookUpEither(OUTERMOST, i, o, own, p);
  }

  /**
    The condition on quotes is needed: an attribute `x='" xmlns="uri'` makes an element in no namespace be routed as if
    it were in the namespace `uri`.
   */
  lemma QuoteMisroutes(outer: seq<Attr>, op: string, x: string, uri: string)
    requires NamedAttrs(outer) && QuoteFreeAttrs(outer) && "" !in Declared(outer)
    requires NameLike(Name("", op)) && NameLike(Name("", x)) && x != "xmlns" && uri != "" && '"' !in uri
    ensures var el := SelfClosed(Name("", op), [Attr(Name("", x), "\" xmlns=\"" + uri)], Nil);
      && !RoutesAstray(outer, [], el) && !Clashes(outer, [], el.attrs)
      && NameInDocument(outer, [], el) == QName(None, op)
      && FirstQName(FragmentText(outer, [], el)) == Ok(QName(Some(uri), op))
  {
    MisroutedText(outer, op, x, uri);
    DeclaresNothing(x, "\" xmlns=\"" + uri);
    hide FragmentText, FirstQName, NamedAttrs, QuoteFreeAttrs, NameLike, Declared;
    assert Declared([]) == map[] by { NoneDeclared(); }
  }

  lemma NoneDeclared()
    ensures Declared([]) == map[]
  {
  }

  lemma DeclaresNothing(x: string, value: string)
    requires x != "xmlns"
    ensures Declared([Attr(Name("", x), value)]) == map[] && OwnPrefixes([Attr(Name("", x), value)]) == {}
  {
    assert [Attr(Name("", x), value)][1..] == [];
  }

  lemma MisroutedText(outer: seq<Attr>, op: string, x: string, uri: string)
    requires NamedAttrs(outer) && QuoteFreeAttrs(outer)
    requires NameLike(Name("", op)) && NameLike(Name("", x)) && x != "xmlns" && uri != "" && '"' !in uri
    ensures FirstQName(FragmentText(outer, [], SelfClosed(Name("", op), [Attr(Name("", x), "\" xmlns=\"" + uri)], Nil)))
            == Ok(QName(Some(uri), op))
  {
    var first, second := Attr(Name("", x), ""), Attr(Name("", "xmlns"), uri);
    var el := SelfClosed(Name("", op), [Attr(Name("", x), "\" xmlns=\"" + uri)], Nil);
    DoubledDeclaration(x, uri);
    XmlnsIsName();
    NoAttrs();
    hide FragmentText, RootText, ReadTag, AllInherited, FirstQName, NamedAttrs, QuoteFreeAttrs, NameLike, Doubled;
    DoubledReadsAsTwo(outer, [], Name("", op), first, second);
    DefaultIsLast(AllInherited(outer, []), x, uri);
    hide Declared, Inside, ElementNs;
    FragmentQName(outer, [], el, AllInherited(outer, []) + [first, second]);
  }

  lemma DefaultIsLast(attrs: seq<Attr>, x: string, uri: string)
    requires x != "xmlns" && uri != ""
    ensures ElementNs(Inside(OUTERMOST, attrs + [Attr(Name("", x), ""), Attr(Name("", "xmlns"), uri)]), "")
            == Bound(uri)
  {
    var last := [Attr(Name("", x), ""), Attr(Name("", "xmlns"), uri)];
    var decl := [Attr(Name("", "xmlns"), uri)];
    assert last[1..] == decl && decl[1..] == [];
    assert Declared([]) == map[] && Declared(decl) == map["" := uri];
    assert !IsDecl(last[0].name) && Declared(last) == Declared(decl);
    DeclaredAppend(attrs, last);
    hide Declared;
  }

  lemma DoubledDeclaration(x: string, uri: string)
    ensures Attr(Name("", x), "\" xmlns=\"" + uri) == Doubled(Attr(Name("", x), ""), Attr(Name("", "xmlns"), uri))
  {
    assert "\" xmlns=\"" == "" + "\" " + "xmlns" + "=\"";
  }

  lemma XmlnsIsName()
    ensures NameLike(Name("", "xmlns"))
  {
  }

  /** The URI a prefix stands for, with undeclared and unbound alike. */
  function Uri(scope: Scope, p: string): string { if p in scope then scope[p] else "" }

  lemma SameQName(s: Scope, t: Scope, p: string, local: string)
    ensures QNameOf(ElementNs(s, p), local) == QNameOf(ElementNs(t, p), local) <==> Uri(s, p) == Uri(t, p)
  {
  }

  lemma LookUpEither(s: Scope, i: Scope, o: Scope, own: Scope, p: string)
    ensures Uri(((s + i) + o) + own, p) == Uri(((s + o) + i) + own, p)
            <==> !(p !in own && p in o && p in i && o[p] != i[p])
  {
  }

  /** The last Body among an envelope's children, its content included. */
  function LastBody(scope: Scope, f: Forest): (body: Option<Forest>)
    ensures body.Some? ==> body.value.Elem?
  {
    match f
    case Nil => None
    case SelfClosed(_, _, next) => LastBody(scope, next)
    case Leaf(_, next) => LastBody(scope, next)
    case Elem(name, attrs, kids, next) =>
      var later := LastBody(scope, next);
      if later.None? && PartOf(scope, name, attrs) == BodyPart then Some(Elem(name, attrs, kids, Nil)) else later
  }

  /** Every Body has a child element. */
  predicate BodiesFilled(scope: Scope, f: Forest)
  {
    match f
    case Nil => true
    case SelfClosed(_, _, next) => BodiesFilled(scope, next)
    case Leaf(_, next) => BodiesFilled(scope, next)
    case Elem(name, attrs, kids, next) =>
      (PartOf(scope, name, attrs) == BodyPart ==> FirstElement(kids).Some?) && BodiesFilled(scope, next)
  }

  lemma {:induction false} SplitFindsLastBody(scope: Scope, bindings: seq<Binding>, f: Forest, parts: Parts)
    ensures var split, last := SplitChildren(scope, bindings, f, parts), LastBody(scope, f);
      && (split.Ok? <==> BodiesFilled(scope, f))
      && (split.Ok? && last.None? ==> split.value.body == parts.body)
      && (split.Ok? && last.Some? ==>
            && FirstElement(last.value.kids).Some?
            && split.value.body == Some(Events(
                 Fragment(Bindings(last.value.attrs) + bindings, FirstElement(last.value.kids).value))))
  {
    hide Fragment, Fragments, Events, Bindings, PartOf;
    match f
    case Nil =>
    case SelfClosed(_, _, next) => SplitFindsLastBody(scope, bindings, next, parts);
    case Leaf(_, next) => SplitFindsLastBody(scope, bindings, next, parts);
    case Elem(name, attrs, kids, next) =>
      var inherited := Bindings(attrs) + bindings;
      match PartOf(scope, name, attrs)
      case HeaderPart => SplitFindsLastBody(scope, bindings, next, parts.(headers := Fragments(inherited, kids)));
      case BodyPart =>
        if FirstElement(kids).Some? {
          SplitFindsLastBody(scope, bindings, next,
                             parts.(body := Some(Events(Fragment(inherited, FirstElement(kids).value)))));
        }
      case OtherPart => SplitFindsLastBody(scope, bindings, next, parts);
  }

  /** An envelope of this version, whose last Body is `body`. */
  predicate IsRequest(name: Name, attrs: seq<Attr>, kids: Forest, version: SoapVersion, body: Forest)
  {
    && name.local == "Envelope" && NamedAttrs(attrs) && NamedTree(kids)
    && ElementNs(Inside(OUTERMOST, attrs), name.prefix) == Bound(
         if version == Soap12 then "http://www.w3.org/2003/05/soap-envelope"
         else "http://schemas.xmlsoap.org/soap/envelope/")
    && body.Elem? && BodiesFilled(Inside(OUTERMOST, attrs), kids)
    && LastBody(Inside(OUTERMOST, attrs), kids) == Some(body)
    && FirstElement(body.kids).Some?
  }

  lemma {:induction false} LastBodyNamed(scope: Scope, f: Forest)
    requires NamedTree(f) && LastBody(scope, f).Some?
    ensures NamedTree(LastBody(scope, f).value)
  {
    match f
    case SelfClosed(_, _, next) => LastBodyNamed(scope, next);
    case Leaf(_, next) => LastBodyNamed(scope, next);
    case Elem(_, _, _, next) =>
      if LastBody(scope, next).Some? {
        LastBodyNamed(scope, next);
      }
  }

  lemma {:induction false} FirstElementNamed(f: Forest)
    requires NamedTree(f) && FirstElement(f).Some?
    ensures NamedTree(FirstElement(f).value)
  {
    if f.Leaf? {
      FirstElementNamed(f.next);
    }
  }

  lemma RequestNamed(name: Name, attrs: seq<Attr>, kids: Forest, version: SoapVersion, body: Forest)
    requires IsRequest(name, attrs, kids, version, body)
    ensures NamedAttrs(attrs) && NamedAttrs(body.attrs) && NamedTree(FirstElement(body.kids).value)
  {
    LastBodyNamed(Inside(OUTERMOST, attrs), kids);
    FirstElementNamed(body.kids);
  }

  /**
    Parsing a request yields the first child of its Body, written out, and is read as that child when no value in it
    holds a double quote. When none on its root does, routing finds the name it has in the document, unless its prefix
    is declared differently around it.
   */
  lemma BodyIsRoutedByItsName(
      prolog: seq<Piece>, name: Name, attrs: seq<Attr>, kids: Forest, epilog: Forest, version: SoapVersion,
      body: Forest)
    requires IsRequest(name, attrs, kids, version, body)
    ensures var el := FirstElement(body.kids).value;
            var r := Parse(Document(prolog, Elem(name, attrs, kids, Nil), epilog));
            && r.Ok? && r.value.version == version
            && r.value.body == FragmentText(attrs, body.attrs, el)
            && (QuoteFree(attrs, body.attrs, el) ==> ReadAll(r.value.body) == Some(CutOut(attrs, body.attrs, el)))
            && (RootQuoteFree(attrs, body.attrs, el.attrs) ==>
                  (FirstQName(r.value.body) == Ok(NameInDocument(attrs, body.attrs, el))
                   <==> !RoutesAstray(attrs, body.attrs, el)))
  {
    var el := FirstElement(body.kids).value;
    ParseDocument(prolog, name, attrs, kids, epilog, version);
    SplitFindsLastBody(Inside(OUTERMOST, attrs), Bindings(attrs), kids, Parts([], None));
    RequestNamed(name, attrs, kids, version, body);
    hide NamedAttrs, SplitChildren, Parse, Bindings, Fragment, Inside, RoutesAstray, NameInDocument, RootQuoteFree;
    hide QuoteFree, CutOut;
    if QuoteFree(attrs, body.attrs, el) {
      FragmentHoldsItsElement(attrs, body.attrs, el);
    }
    assert FragmentText(attrs, body.attrs, el)
        == WriteAll(Events(Fragment(Bindings(body.attrs) + Bindings(attrs), el)));
    if RootQuoteFree(attrs, body.attrs, el.attrs) {
      RoutedCorrectlyExactlyWhen(attrs, body.attrs, el);
    }
  }

  // ----- Header blocks

  /** The elements of a forest, each alone. */
  function ElementsOf(f: Forest): (els: seq<Forest>)
    ensures forall k :: 0 <= k < |els| ==> IsElement(els[k])
  {
    match f
    case Nil => []
    case Elem(name, attrs, kids, next) => [Elem(name, attrs, kids, Nil)] + ElementsOf(next)
    case SelfClosed(name, attrs, next) => [SelfClosed(name, attrs, Nil)] + ElementsOf(next)
    case Leaf(_, next) => ElementsOf(next)
  }

  lemma {:induction false} FragmentsAre(bindings: seq<Binding>, f: Forest)
    ensures |Fragments(bindings, f)| == |ElementsOf(f)|
    ensures forall k :: 0 <= k < |ElementsOf(f)| ==>
              Fragments(bindings, f)[k] == Events(Fragment(bindings, ElementsOf(f)[k]))
  {
    hide Fragment, Events;
    match f
    case Nil =>
    case Elem(_, _, _, next) => FragmentsAre(bindings, next);
    case SelfClosed(_, _, next) => FragmentsAre(bindings, next);
    case Leaf(_, next) => FragmentsAre(bindings, next);
  }

  /** The last Header among an envelope's children. */
  function LastHeader(scope: Scope, f: Forest): (header: Option<Forest>)
    ensures header.Some? ==> header.value.Elem?
  {
    match f
    case Nil => None
    case SelfClosed(_, _, next) => LastHeader(scope, next)
    case Leaf(_, next) => LastHeader(scope, next)
    case Elem(name, attrs, kids, next) =>
      var later := LastHeader(scope, next);
      if later.None? && PartOf(scope, name, attrs) == HeaderPart then Some(Elem(name, attrs, kids, Nil)) else later
  }

  lemma {:induction false} SplitFindsLastHeader(scope: Scope, bindings: seq<Binding>, f: Forest, parts: Parts)
    requires SplitChildren(scope, bindings, f, parts).Ok?
    ensures var headers, last := SplitChildren(scope, bindings, f, parts).value.headers, LastHeader(scope, f);
      headers == if last.None? then parts.headers else Fragments(Bindings(last.value.attrs) + bindings, last.value.kids)
  {
    hide Fragment, Fragments, Events, Bindings, PartOf;
    match f
    case Nil =>
    case SelfClosed(_, _, next) => SplitFindsLastHeader(scope, bindings, next, parts);
    case Leaf(_, next) => SplitFindsLastHeader(scope, bindings, next, parts);
    case Elem(name, attrs, kids, next) =>
      var inherited := Bindings(attrs) + bindings;
      match PartOf(scope, name, attrs)
      case HeaderPart => SplitFindsLastHeader(scope, bindings, next, parts.(headers := Fragments(inherited, kids)));
      case BodyPart =>
        SplitFindsLastHeader(scope, bindings, next,
                             parts.(body := Some(Events(Fragment(inherited, FirstElement(kids).value)))));
      case OtherPart => SplitFindsLastHeader(scope, bindings, next, parts);
  }

  lemma {:induction false} LastHeaderNamed(scope: Scope, f: Forest)
    requires NamedTree(f) && LastHeader(scope, f).Some?
    ensures NamedTree(LastHeader(scope, f).value)
  {
    match f
    case SelfClosed(_, _, next) => LastHeaderNamed(scope, next);
    case Leaf(_, next) => LastHeaderNamed(scope, next);
    case Elem(_, _, _, next) =>
      if LastHeader(scope, next).Some? {
        LastHeaderNamed(scope, next);
      }
  }

  lemma {:induction false} ElementsNamed(f: Forest)
    requires NamedTree(f)
    ensures forall k :: 0 <= k < |ElementsOf(f)| ==> NamedTree(ElementsOf(f)[k])
  {
    match f
    case Nil =>
    case Elem(_, _, _, next) => ElementsNamed(next);
    case SelfClosed(_, _, next) => ElementsNamed(next);
    case Leaf(_, next) => ElementsNamed(next);
  }

  /** The text of a header block reads back, and means what the block means in its document. */
  ghost predicate BlockKeepsMeaning(text: seq<Ink>, outer: seq<Attr>, inner: seq<Attr>, el: Forest)
  {
    ReadAll(text).Some? && KeepsMeaning(ReadAll(text).value, outer, inner, el)
  }

  /**
    Parsing a request yields every header block, in order. One without double quotes in its values is read as that
    block, and keeps its meaning exactly when no prefix it leaves free is declared differently around it.
   */
  lemma HeaderBlocksKeepMeaning(
      prolog: seq<Piece>, name: Name, attrs: seq<Attr>, kids: Forest, epilog: Forest, version: SoapVersion,
      body: Forest, header: Forest)
    requires IsRequest(name, attrs, kids, version, body)
    requires LastHeader(Inside(OUTERMOST, attrs), kids) == Some(header)
    ensures var r, els := Parse(Document(prolog, Elem(name, attrs, kids, Nil), epilog)), ElementsOf(header.kids);
            && r.Ok? && |r.value.headers| == |els|
            && forall k :: 0 <= k < |els| && QuoteFree(attrs, header.attrs, els[k]) ==>
                 && ReadAll(r.value.headers[k]) == Some(CutOut(attrs, header.attrs, els[k]))
                 && (BlockKeepsMeaning(r.value.headers[k], attrs, header.attrs, els[k])
                     <==> !ChangesMeaning(attrs, header.attrs, els[k]))
  {
    var scope, els := Inside(OUTERMOST, attrs), ElementsOf(header.kids);
    var bindings := Bindings(header.attrs) + Bindings(attrs);
    ParseDocument(prolog, name, attrs, kids, epilog, version);
    SplitFindsLastBody(scope, Bindings(attrs), kids, Parts([], None));
    SplitFindsLastHeader(scope, Bindings(attrs), kids, Parts([], None));
    FragmentsAre(bindings, header.kids);
    LastHeaderNamed(scope, kids);
    ElementsNamed(header.kids);
    hide Fragment, Fragments, Events, Bindings, ChangesMeaning, Meaning, SplitChildren, Parse, NamedAttrs, QuoteFree;
    hide KeepsMeaning, CutOut;
    forall k | 0 <= k < |els| && QuoteFree(attrs, header.attrs, els[k])
      ensures ReadAll(WriteAll(Fragments(bindings, header.kids)[k])) == Some(CutOut(attrs, header.attrs, els[k]))
      ensures BlockKeepsMeaning(WriteAll(Fragments(bindings, header.kids)[k]), attrs, header.attrs, els[k])
              <==> !ChangesMeaning(attrs, header.attrs, els[k])
    {
      FragmentHoldsItsElement(attrs, header.attrs, els[k]);
      FragmentKeepsMeaningExactlyWhen(attrs, header.attrs, els[k]);
    }
  }

  // ----- Round trip

  function VersionUri(version: SoapVersion): string { if version == Soap12 then SOAP12 else SOAP11 }

  const ENVELOPE := Name("env", "Envelope")
  const BODY := Name("env", "Body")

  function EnvAttrs(version: SoapVersion): seq<Attr> { [Attr(Name("xmlns", "env"), VersionUri(version))] }

  /** serialize_envelope: the body's text between the tags of a fresh envelope. */
  function Serialize(body: seq<Ink>, version: SoapVersion): seq<Ink>
  {
    [Write(Start(ENVELOPE, EnvAttrs(version))), Write(Start(BODY, []))]
    + body + [Write(End(BODY)), Write(End(ENVELOPE))]
  }

  lemma OpeningText(uri: string)
    ensures Write(Start(ENVELOPE, [Attr(Name("xmlns", "env"), uri)]))
            == Tag("<env:Envelope xmlns:env=\"" + uri + "\">")
  {
    OneAttr(Attr(Name("xmlns", "env"), uri));
    assert Key(ENVELOPE) == "env:Envelope" && Key(Name("xmlns", "env")) == "xmlns:env";
    hide Key;
    assert " " + "xmlns:env" + "=\"" == " xmlns:env=\"";
    assert "<" + "env:Envelope" == "<env:Envelope";
    assert "<env:Envelope" + (" xmlns:env=\"" + uri + "\"") + ">"
        == ("<env:Envelope" + " xmlns:env=\"") + uri + ("\"" + ">");
    assert "<env:Envelope" + " xmlns:env=\"" == "<env:Envelope xmlns:env=\"";
  }

  /** The text of a serialised envelope, whatever the body. */
  lemma SerializedAs(body: seq<Ink>, version: SoapVersion)
    ensures Serialize(body, version) ==
              [Tag("<env:Envelope xmlns:env=\""
                   + (if version == Soap12 then "http://www.w3.org/2003/05/soap-envelope"
                      else "http://schemas.xmlsoap.org/soap/envelope/")
                   + "\">"),
               Tag("<env:Body>")]
              + body + [Tag("</env:Body>"), Tag("</env:Envelope>")]
  {
    OpeningText(VersionUri(version));
    assert Key(ENVELOPE) == "env:Envelope" && Key(BODY) == "env:Body";
    assert AttrsText([]) == "";
    assert "<" + "env:Body" + "" + ">" == "<env:Body>";
    assert "</" + "env:Body" + ">" == "</env:Body>" && "</" + "env:Envelope" + ">" == "</env:Envelope>";
  }

  /** The element with `env` declared on its root, unless the root declares it already. */
  function WithEnv(el: Forest, version: SoapVersion): Forest
    requires IsElement(el)
  {
    var attrs := if "env" in OwnPrefixes(el.attrs) then el.attrs
                 else [Attr(Name("xmlns", "env"), VersionUri(version))] + el.attrs;
    if el.Elem? then Elem(el.name, attrs, el.kids, Nil) else SelfClosed(el.name, attrs, Nil)
  }

  /** The envelope around an element. */
  function Enveloped(el: Forest, version: SoapVersion): Forest
  {
    Elem(ENVELOPE, EnvAttrs(version), Elem(BODY, [], el, Nil), Nil)
  }

  lemma EnvelopedEvents(el: Forest, version: SoapVersion)
    ensures Events(Enveloped(el, version)) ==
            [Start(ENVELOPE, EnvAttrs(version)), Start(BODY, [])] + Events(el) + [End(BODY), End(ENVELOPE)]
  {
    var kids, close := Elem(BODY, [], el, Nil), [End(ENVELOPE)];
    EventsThenAppend(el, [End(BODY)] + close);
    assert EventsThen(Nil, []) == [] && close + [] == close;
    assert [Start(BODY, [])] + (Events(el) + ([End(BODY)] + close)) == EventsThen(kids, close);
  }

  lemma SerializedText(el: Forest, version: SoapVersion)
    ensures Serialize(WriteAll(Events(el)), version) == WriteAll(Events(Enveloped(el, version)))
  {
    EnvelopedEvents(el, version);
    var before, after := [Start(ENVELOPE, EnvAttrs(version)), Start(BODY, [])], [End(BODY), End(ENVELOPE)];
    hide Write, Events, Enveloped;
    WriteAppend(before, Events(el));
    WriteAppend(before + Events(el), after);
  }

  lemma EnvPrefixed(local: string)
    requires ':' !in local && NameChars(local)
    ensures NameLike(Name("env", local))
  {
    assert NameChars("env");
    hide NameLike, NameChars;
    PrefixedNameLike("env", local);
  }

  lemma EnvelopeChars()
    ensures ':' !in "Envelope" && NameChars("Envelope")
  {
  }

  lemma BodyChars()
    ensures ':' !in "Body" && NameChars("Body")
  {
  }

  lemma EnvNamed()
    ensures NameLike(Name("xmlns", "env"))
  {
    assert NameChars("xmlns") && NameChars("env");
    hide NameLike, NameChars;
    PrefixedNameLike("xmlns", "env");
  }

  lemma UrisQuoteFree()
    ensures '"' !in SOAP12 && '"' !in SOAP11
  {
  }

  lemma EnvelopeNamed(version: SoapVersion)
    ensures NameLike(ENVELOPE) && NameLike(BODY) && NamedAttrs(EnvAttrs(version)) && QuoteFreeAttrs(EnvAttrs(version))
  {
    hide NameLike, NameChars;
    EnvelopeChars();
    EnvPrefixed("Envelope");
    BodyChars();
    EnvPrefixed("Body");
    EnvNamed();
    UrisQuoteFree();
  }

  /** A serialised envelope reads back as the envelope around the element exactly when no value holds a double quote. */
  lemma SerializedReadsBackExactlyWhen(el: Forest, version: SoapVersion)
    requires IsElement(el) && NamedTree(el)
    ensures ReadAll(Serialize(WriteAll(Events(el)), version)) == Some(Events(Enveloped(el, version)))
            <==> QuoteFreeTree(el)
  {
    SerializedText(el, version);
    EnvelopeNamed(version);
    hide NameLike, NamedAttrs, QuoteFreeAttrs, Events, EnvAttrs;
    assert NamedAttrs([]) && QuoteFreeAttrs([]) by { NoAttrs(); }
    TreeReadsBackExactlyWhen(Enveloped(el, version));
  }

  lemma NoAttrs()
    ensures NamedAttrs([]) && QuoteFreeAttrs([])
  {
  }

  lemma EnvelopedDocument(el: Forest, version: SoapVersion)
    ensures Events(Enveloped(el, version)) == Document([], Enveloped(el, version), Nil)
  {
    assert Events(Nil) == [];
  }

  lemma EnvTag(version: SoapVersion)
    ensures var attrs := EnvAttrs(version);
            && Declared(attrs) == map["env" := VersionUri(version)] && Declared([]) == map[]
            && Bindings(attrs) == [Binding("env", VersionUri(version))]
  {
    assert EnvAttrs(version)[1..] == [];
  }

  lemma FragmentWithEnv(el: Forest, version: SoapVersion)
    requires IsElement(el)
    ensures Fragment([Binding("env", VersionUri(version))], el) == WithEnv(Clean(el), version)
  {
    SingleInherited(Binding("env", VersionUri(version)), OwnPrefixes(el.attrs));
  }

  lemma SerializedParts(el: Forest, version: SoapVersion)
    requires IsElement(el)
    ensures var attrs := EnvAttrs(version);
            && SplitChildren(Inside(OUTERMOST, attrs), Bindings(attrs), Elem(BODY, [], el, Nil), Parts([], None))
               == Ok(Parts([], Some(Events(Fragment(Bindings(attrs), el)))))
            && ElementNs(Inside(OUTERMOST, attrs), "env") == Bound(if version == Soap12 then SOAP12 else SOAP11)
  {
    hide Fragment, Events;
    EnvTag(version);
    assert Bindings([]) + Bindings(EnvAttrs(version)) == Bindings(EnvAttrs(version));
  }

  lemma ParseEnveloped(el: Forest, version: SoapVersion)
    requires IsElement(el)
    ensures Parse(Events(Enveloped(el, version)))
            == Ok(Parsed(version, [], WriteAll(Events(WithEnv(Clean(el), version)))))
  {
    hide Parse, Document, Inside, SplitChildren, WithEnv, Fragment, Events, ElementNs, EnvAttrs;
    EnvelopedDocument(el, version);
    EnvTag(version);
    SerializedParts(el, version);
    ParseDocument([], ENVELOPE, EnvAttrs(version), Elem(BODY, [], el, Nil), Nil, version);
    FragmentWithEnv(el, version);
    assert WriteEach([]) == [];
  }

  /**
    Parsing a serialised envelope gives back the version, no headers, and the body, cleaned, with `env` declared, when
    no value in the body holds a double quote; a body without CDATA, comments and PIs comes back as it was.
   */
  lemma ParseSerialized(el: Forest, version: SoapVersion)
    requires IsElement(el) && NamedTree(el) && QuoteFreeTree(el)
    ensures var read := ReadAll(Serialize(WriteAll(Events(el)), version));
            && read.Some?
            && Parse(read.value) == Ok(Parsed(version, [], WriteAll(Events(WithEnv(Clean(el), version)))))
            && (SectionFree(el) ==>
                  Parse(read.value) == Ok(Parsed(version, [], WriteAll(Events(WithEnv(el, version))))))
  {
    hide *;
    SerializedReadsBackExactlyWhen(el, version);
    ParseEnveloped(el, version);
    SectionFreeIsClean(el);
  }

  lemma SingleInherited(b: Binding, own: set<string>)
    ensures Inherited([b], own) == if b.prefix in own then [] else [Attr(DeclName(b.prefix), b.uri)]
  {
    assert [b][1..] == [];
  }

  lemma {:induction false} CleanTwice(f: Forest)
    ensures Clean(Clean(f)) == Clean(f)
  {
    match f
    case Nil =>
    case Elem(_, _, kids, next) => CleanTwice(kids); CleanTwice(next);
    case SelfClosed(_, _, next) => CleanTwice(next);
    case Leaf(_, next) => CleanTwice(next);
  }

  lemma WithEnvReads(el: Forest, version: SoapVersion)
    requires IsElement(el) && NamedTree(el) && QuoteFreeTree(el)
    ensures var once := WithEnv(Clean(el), version); NamedTree(once) && QuoteFreeTree(once)
  {
    EnvelopeNamed(version);
    CleanReads(el);
    hide NameLike, EnvAttrs, Clean;
    WithEnvAttrs(Clean(el), version);
  }

  lemma WithEnvAttrs(el: Forest, version: SoapVersion)
    requires IsElement(el)
    ensures WithEnv(el, version).attrs == el.attrs || WithEnv(el, version).attrs == EnvAttrs(version) + el.attrs
  {
  }

  /** A second trip, even under the other version, leaves the body as the first left it. */
  lemma SecondTripChangesNothing(el: Forest, version: SoapVersion, again: SoapVersion)
    requires IsElement(el) && NamedTree(el) && QuoteFreeTree(el)
    ensures var once := WithEnv(Clean(el), version);
            var read := ReadAll(Serialize(WriteAll(Events(once)), again));
            read.Some? && Parse(read.value) == Ok(Parsed(again, [], WriteAll(Events(once))))
  {
    var once := WithEnv(Clean(el), version);
    assert "env" in OwnPrefixes(once.attrs) by {
      if "env" !in OwnPrefixes(el.attrs) {
        assert Attr(Name("xmlns", "env"), VersionUri(version)) in once.attrs;
      }
    }
    CleanTwice(el);
    WithEnvReads(el, version);
    hide Parse, Serialize, ReadAll, Events, NamedTree, QuoteFreeTree;
    ParseSerialized(once, again);
  }
}
