/** Which children of an envelope count, and how a request that is none is turned down (src/envelope.rs). */
module EnvelopeParts {
  import opened Wrappers
  import opened Xml
  import opened Namespaces
  import opened Envelope
  import opened EnvelopeMeaning
  import opened EnvelopeRouting

  /** A child of the envelope, not self-closing, with this local name in one of the two SOAP namespaces. */
  predicate IsSoapChild(scope: Scope, el: Forest, local: string)
    requires IsElement(el)
  {
    && el.Elem? && el.name.local == local
    && var ns := ElementNs(Inside(scope, el.attrs), el.name.prefix);
       || ns == Bound("http://www.w3.org/2003/05/soap-envelope")
       || ns == Bound("http://schemas.xmlsoap.org/soap/envelope/")
  }

  lemma PartOfIs(scope: Scope, name: Name, attrs: seq<Attr>, kids: Forest)
    ensures PartOf(scope, name, attrs) == HeaderPart <==> IsSoapChild(scope, Elem(name, attrs, kids, Nil), "Header")
    ensures PartOf(scope, name, attrs) == BodyPart <==> IsSoapChild(scope, Elem(name, attrs, kids, Nil), "Body")
  {
  }

  /** The last of these elements to be such a child. */
  function LastOf(scope: Scope, els: seq<Forest>, local: string): Option<Forest>
    requires forall i :: 0 <= i < |els| ==> IsElement(els[i])
  {
    if els == [] then None
    else
      var later := LastOf(scope, els[1..], local);
      if later.None? && IsSoapChild(scope, els[0], local) then Some(els[0]) else later
  }

  lemma {:induction false} LastOfIsLast(scope: Scope, els: seq<Forest>, local: string)
    requires forall i :: 0 <= i < |els| ==> IsElement(els[i])
    ensures LastOf(scope, els, local).None? <==> forall i :: 0 <= i < |els| ==> !IsSoapChild(scope, els[i], local)
    ensures LastOf(scope, els, local).Some? ==>
      exists i :: 0 <= i < |els| && IsSoapChild(scope, els[i], local) && LastOf(scope, els, local) == Some(els[i])
                  && forall j :: i < j < |els| ==> !IsSoapChild(scope, els[j], local)
  {
    hide IsSoapChild;
    if els != [] {
      var rest := els[1..];
      LastOfIsLast(scope, rest, local);
      assert forall j :: 1 <= j < |els| ==> els[j] == rest[j - 1];
      if LastOf(scope, rest, local).Some? {
        var i :| 0 <= i < |rest| && IsSoapChild(scope, rest[i], local)
          && LastOf(scope, rest, local) == Some(rest[i])
          && forall j :: i < j < |rest| ==> !IsSoapChild(scope, rest[j], local);
        assert els[i + 1] == rest[i];
      }
    }
  }

  /** The Header and the Body that count are the last ones among the envelope's children. */
  lemma {:induction false} LastPartsAre(scope: Scope, f: Forest)
    ensures LastHeader(scope, f) == LastOf(scope, ElementsOf(f), "Header")
    ensures LastBody(scope, f) == LastOf(scope, ElementsOf(f), "Body")
  {
    match f
    case Nil =>
    case Leaf(_, next) => LastPartsAre(scope, next);
    case SelfClosed(name, attrs, next) =>
      LastPartsAre(scope, next);
      assert ElementsOf(f)[1..] == ElementsOf(next);
    case Elem(name, attrs, kids, next) =>
      hide PartOf, IsSoapChild;
      LastPartsAre(scope, next);
      PartOfIs(scope, name, attrs, kids);
      assert ElementsOf(f)[1..] == ElementsOf(next);
  }

  /** If the element is a Body, it has a child element. */
  predicate Filled(scope: Scope, el: Forest)
    requires IsElement(el)
  {
    IsSoapChild(scope, el, "Body") ==> ElementsOf(el.kids) != []
  }

  predicate AllFilled(scope: Scope, els: seq<Forest>)
    requires forall i :: 0 <= i < |els| ==> IsElement(els[i])
  {
    forall k :: 0 <= k < |els| ==> Filled(scope, els[k])
  }

  /** A request needs every Body to have a child element. */
  lemma {:induction false} BodiesFilledIs(scope: Scope, f: Forest)
    ensures BodiesFilled(scope, f) <==> AllFilled(scope, ElementsOf(f))
  {
    hide PartOf, AllFilled, Filled;
    var rest := if f.Nil? then [] else ElementsOf(f.next);
    match f
    case Nil => NoneUnfilled(scope);
    case Leaf(_, next) => BodiesFilledIs(scope, next);
    case SelfClosed(name, attrs, next) =>
      BodiesFilledIs(scope, next);
      assert ElementsOf(f) == [SelfClosed(name, attrs, Nil)] + rest;
      assert Filled(scope, SelfClosed(name, attrs, Nil)) by { EmptyIsFilled(scope, name, attrs); }
      FilledCons(scope, SelfClosed(name, attrs, Nil), rest);
    case Elem(name, attrs, kids, next) =>
      BodiesFilledIs(scope, next);
      assert ElementsOf(f) == [Elem(name, attrs, kids, Nil)] + rest;
      FilledIs(scope, name, attrs, kids);
      FilledCons(scope, Elem(name, attrs, kids, Nil), rest);
  }

  lemma NoneUnfilled(scope: Scope)
    ensures AllFilled(scope, [])
  {
  }

  lemma EmptyIsFilled(scope: Scope, name: Name, attrs: seq<Attr>)
    ensures Filled(scope, SelfClosed(name, attrs, Nil))
  {
  }

  lemma FilledIs(scope: Scope, name: Name, attrs: seq<Attr>, kids: Forest)
    ensures Filled(scope, Elem(name, attrs, kids, Nil)) <==>
            (PartOf(scope, name, attrs) == BodyPart ==> FirstElement(kids).Some?)
  {
    PartOfIs(scope, name, attrs, kids);
    FirstElementIs(kids);
    hide PartOf, IsSoapChild;
  }

  lemma FilledCons(scope: Scope, el: Forest, els: seq<Forest>)
    requires IsElement(el) && forall i :: 0 <= i < |els| ==> IsElement(els[i])
    ensures AllFilled(scope, [el] + els) <==> Filled(scope, el) && AllFilled(scope, els)
  {
    hide Filled;
    var all := [el] + els;
    assert all[0] == el && forall k :: 0 <= k < |els| ==> all[k + 1] == els[k];
  }

  lemma {:induction false} FirstElementIs(f: Forest)
    ensures FirstElement(f) == if ElementsOf(f) == [] then None else Some(ElementsOf(f)[0])
  {
    if f.Leaf? {
      FirstElementIs(f.next);
    }
  }

  predicate NoEnvelope(f: Forest)
  {
    match f
    case Nil => true
    case Elem(name, _, kids, next) => name.local != "Envelope" && NoEnvelope(kids) && NoEnvelope(next)
    case SelfClosed(_, _, next) => NoEnvelope(next)
    case Leaf(_, next) => NoEnvelope(next)
  }

  lemma {:induction false} NothingToFind(f: Forest, rest: seq<Event>, scopes: seq<Scope>)
    requires NoEnvelope(f) && scopes != []
    ensures FindEnvelope(EventsThen(f, rest), scopes) == FindEnvelope(rest, scopes)
  {
    match f
    case Nil =>
    case Elem(name, attrs, kids, next) =>
      var inner := scopes + [Inside(scopes[|scopes| - 1], attrs)];
      var tail := [End(name)] + EventsThen(next, rest);
      assert tail[1..] == EventsThen(next, rest) && inner[..|inner| - 1] == scopes;
      NothingToFind(kids, tail, inner);
      NothingToFind(next, rest, scopes);
    case SelfClosed(_, _, next) => NothingToFind(next, rest, scopes);
    case Leaf(_, next) => NothingToFind(next, rest, scopes);
  }

  /** Without an Envelope there is none; in another namespace it is unknown; it needs a Body with a child. */
  lemma RequestFaults(name: Name, attrs: seq<Attr>, kids: Forest)
    ensures NoEnvelope(Elem(name, attrs, kids, Nil)) ==>
              Parse(Document([], Elem(name, attrs, kids, Nil), Nil)) == Err(MissingEnvelope)
    ensures var ns := ElementNs(Inside(OUTERMOST, attrs), name.prefix);
      name.local == "Envelope" && ns != Bound("http://www.w3.org/2003/05/soap-envelope")
      && ns != Bound("http://schemas.xmlsoap.org/soap/envelope/") ==>
        Parse(Document([], Elem(name, attrs, kids, Nil), Nil)) == Err(UnknownEnvelopeNamespace)
    ensures var scope := Inside(OUTERMOST, attrs);
      name.local == "Envelope" && IsSoapNs(ElementNs(scope, name.prefix))
      && (!BodiesFilled(scope, kids) || LastBody(scope, kids).None?) ==>
        Parse(Document([], Elem(name, attrs, kids, Nil), Nil)) == Err(MissingBody)
  {
    var root := Elem(name, attrs, kids, Nil);
    assert Events(Nil) == [];
    if NoEnvelope(root) {
      NothingToFind(root, [], [OUTERMOST]);
    }
    var scope := Inside(OUTERMOST, attrs);
    if name.local == "Envelope" && IsSoapNs(ElementNs(scope, name.prefix)) {
      var version := if ElementNs(scope, name.prefix) == Bound(SOAP12) then Soap12 else Soap11;
      ParseDocument([], name, attrs, kids, Nil, version);
      SplitFindsLastBody(scope, Bindings(attrs), kids, Parts([], None));
      SplitFault(scope, Bindings(attrs), kids, Parts([], None));
    }
  }

  lemma {:induction false} SplitFault(scope: Scope, bindings: seq<Binding>, f: Forest, parts: Parts)
    ensures var split := SplitChildren(scope, bindings, f, parts); split.Err? ==> split.error == MissingBody
  {
    hide Fragment, Fragments, Events, Bindings, PartOf;
    match f
    case Nil =>
    case SelfClosed(_, _, next) => SplitFault(scope, bindings, next, parts);
    case Leaf(_, next) => SplitFault(scope, bindings, next, parts);
    case Elem(name, attrs, kids, next) =>
      var inherited := Bindings(attrs) + bindings;
      match PartOf(scope, name, attrs)
      case HeaderPart => SplitFault(scope, bindings, next, parts.(headers := Fragments(inherited, kids)));
      case BodyPart =>
        if FirstElement(kids).Some? {
          SplitFault(scope, bindings, next,
                     parts.(body := Some(Events(Fragment(inherited, FirstElement(kids).value)))));
        }
      case OtherPart => SplitFault(scope, bindings, next, parts);
  }
}
