/** From a SOAP request to the operation that serves it (soap_post_handler in src/server.rs), credentials aside. */
module RequestHandling {
  import opened Wrappers
  import opened Xml
  import opened Tags
  import opened SchemaTypes
  import opened TypeDenotation
  import opened SchemaResolver
  import opened Validation
  import opened Envelope
  import opened EnvelopeMeaning
  import opened FragmentReading
  import opened EnvelopeRouting
  import opened InlineSchemas
  import opened Dispatch
  import opened WsdlTypes

  lemma {:induction false} CleanKeepsTopNames(f: Forest)
    ensures TopNames(Clean(f)) == TopNames(f)
  {
    match f
    case Nil =>
    case Elem(_, _, _, next) => CleanKeepsTopNames(next);
    case SelfClosed(_, _, next) => CleanKeepsTopNames(next);
    case Leaf(_, next) => CleanKeepsTopNames(next);
  }

  /** Cutting an element out of its document loses none of its children. */
  lemma FragmentKeepsChildNames(bindings: seq<Envelope.Binding>, el: Forest)
    requires IsElement(el)
    ensures ChildNames(Fragment(bindings, el)) == ChildNames(el)
  {
    if el.Elem? {
      CleanKeepsTopNames(el.kids);
    }
  }

  /** The table was built for the service, which offers `op`, and only `op` takes the input element `q`. */
  ghost predicate Serves<H>(
      s: Setup<H>, service: Option<string>, ops: seq<BoundOp>, t: DispatchTable<H>, op: string, q: QName)
  {
    && s.Valid() && CollectedFor(s.wsdl.definition, service, ops)
    && s.Buildable(ops) && s.IsTable(ops, t.byElement, t.byAction)
    && Offered(s.wsdl.definition, service, op)
    && forall o :: o in ops ==> (s.InputType(o) == Some(q) <==> o.name == op)
  }

  /**
    A request whose Body holds the input element of an offered operation, no double quote in the values of its root and
    its prefix not declared differently around it, is routed to that operation.
   */
  lemma RequestIsRouted<H>(
      prolog: seq<Piece>, name: Name, attrs: seq<Attr>, kids: Forest, epilog: Forest, version: SoapVersion,
      body: Forest,
      s: Setup<H>, service: Option<string>, ops: seq<BoundOp>, t: DispatchTable<H>, op: string, action: Option<string>)
    requires IsRequest(name, attrs, kids, version, body)
    requires RootQuoteFree(attrs, body.attrs, FirstElement(body.kids).value.attrs)
    requires !RoutesAstray(attrs, body.attrs, FirstElement(body.kids).value)
    requires Serves(s, service, ops, t, op, NameInDocument(attrs, body.attrs, FirstElement(body.kids).value))
    ensures var parsed := Parse(Document(prolog, Elem(name, attrs, kids, Nil), epilog));
            && parsed.Ok? && FirstQName(parsed.value.body).Ok?
            && var routed := Route(t, FirstQName(parsed.value.body).value, action);
            && routed.Ok?
            && (if op in s.handlers then routed.value.handler == s.handlers[op]
                else s.defaultHandler == Some(routed.value.handler))
            && routed.value.authRequired == (op !in s.authBypass)
            && exists o :: o in ops && o.name == op && s.EntryOf(o, routed.value)
  {
    BodyIsRoutedByItsName(prolog, name, attrs, kids, epilog, version, body);
    OfferedOperationIsRouted(
      s, service, ops, t, op, NameInDocument(attrs, body.attrs, FirstElement(body.kids).value), action);
  }

  /** The name under which the registry holds the type of an element declared like this. */
  ghost predicate TypeNamed(e: QName, declaration: Element, t: QName)
  {
    if declaration.inlineType.Some? then t == e else declaration.typeRef == Some(t)
  }

  /**
    At the entry of a document-style operation whose input element `e` is first declared with a type in schema k, a
    request without double quotes in its values passes validation exactly when its body has every element that type,
    anonymous or referred to by the declaration, requires at any level of extension the schema that declares the type
    knows of.
   */
  lemma RequestIsValidatedByItsType<H>(
      prolog: seq<Piece>, name: Name, attrs: seq<Attr>, kids: Forest, epilog: Forest, version: SoapVersion,
      body: Forest,
      s: Setup<H>, op: BoundOp, entry: Entry<H>, schemas: seq<RawSchema>, k: nat, e: QName, t: QName,
      flat: FlatTypeMap, ranks: Ranks, env: Env, raw: ComplexType, bases: seq<QName>)
    requires IsRequest(name, attrs, kids, version, body)
    requires QuoteFree(attrs, body.attrs, FirstElement(body.kids).value)
    requires s.Valid() && s.EntryOf(op, entry) && op.style.DocumentStyle?
    requires GivenTypes(schemas, s.wsdl.elementTypes)
    requires InputElement(s.wsdl.definition, s.portTypes, op.name) == Some(e)
    requires FirstToGiveType(schemas, e, k) && TypeNamed(e, schemas[k].elements[e], t)
    requires Resolved(flat, ranks, env, raw, bases) && RegisteredAs(s.wsdl.registry, t, flat, ranks, env, raw)
    ensures var parsed := Parse(Document(prolog, Elem(name, attrs, kids, Nil), epilog));
            parsed.Ok? && ReadAll(parsed.value.body).Some? && entry.validationType == Some(t) &&
            (Accepted(ReadAll(parsed.value.body).value, s.wsdl.registry, entry.validationType) <==>
             Satisfied(flat, ranks, Levels(flat, raw.content, bases), FirstElement(body.kids).value))
  {
    var el := FirstElement(body.kids).value;
    var bindings := Bindings(body.attrs) + Bindings(attrs);
    ValidatedByDeclaration(s, op, entry, schemas, k, e, t);
    BodyIsRoutedByItsName(prolog, name, attrs, kids, epilog, version, body);
    RequestNamed(name, attrs, kids, version, body);
    FragmentReadsBackExactlyWhen(attrs, body.attrs, el);
    AcceptedExactlyWhen(s.wsdl.registry, t, flat, ranks, env, raw, bases, Fragment(bindings, el));
    FragmentKeepsChildNames(bindings, el);
  }

  /** A document-style operation is validated against the type its input element's declaration names. */
  lemma ValidatedByDeclaration<H>(
      s: Setup<H>, op: BoundOp, entry: Entry<H>, schemas: seq<RawSchema>, k: nat, e: QName, t: QName)
    requires s.Valid() && s.EntryOf(op, entry) && op.style.DocumentStyle?
    requires GivenTypes(schemas, s.wsdl.elementTypes)
    requires InputElement(s.wsdl.definition, s.portTypes, op.name) == Some(e)
    requires FirstToGiveType(schemas, e, k) && TypeNamed(e, schemas[k].elements[e], t)
    ensures entry.validationType == Some(t)
  {
    hide InputElement, FirstToGiveType;
  }

  /**
    Whatever complex type the server knows by an operation's declared type, some inline schema's collection of types
    makes the previous result apply.
   */
  lemma DeclaredTypeIsResolved(
      files: map<string, RawSchema>, ranks: Ranks, schemas: seq<RawSchema>, parts: seq<ResolvedSchema>, t: QName)
    returns (k: nat, env: Env, raw: ComplexType, bases: seq<QName>)
    requires PartsOf(files, ranks, schemas, parts)
    requires forall k :: 0 <= k < |parts| ==> OneLevelTypes(FlatOf(files, parts[k]))
    requires t in FirstWins(Registries(parts)) && FirstWins(Registries(parts))[t].Complex?
    ensures k < |parts| && IsTypeOf(FlatOf(files, parts[k]), t, raw)
    ensures forall j :: 0 <= j < k ==> t !in parts[j].registry
    ensures Resolved(FlatOf(files, parts[k]), ranks, env, raw, bases)
    ensures RegisteredAs(FirstWins(Registries(parts)), t, FlatOf(files, parts[k]), ranks, env, raw)
  {
    k, env, raw := KnownTypeIsFirst(files, ranks, schemas, parts, t);
    SoundPart(files, ranks, schemas, parts, k);
    hide FirstWins, PartsOf, RegisteredAs, FlatOf, RegistryOf;
    bases := EveryContentHasBases(FlatOf(files, parts[k]), raw.content);
  }

  /** Types, and the anonymous types of elements, as the parser builds them. */
  ghost predicate OneLevelTypes(flat: FlatTypeMap)
  {
    AllOneLevel(flat) && forall e :: e in flat.elements && InlineComplex(flat.elements[e]) ==>
      OneLevel(flat.elements[e].inlineType.value.complex.content)
  }

  /**
    A document-style operation has a type to validate against exactly when some inline schema itself declares its input
    element with one; a declaration in a file it imports or includes does not count, and without one every request
    passes.
   */
  lemma RequestsHaveTypeExactlyWhen<H>(s: Setup<H>, op: BoundOp, entry: Entry<H>, schemas: seq<RawSchema>)
    requires s.Valid() && s.EntryOf(op, entry) && op.style.DocumentStyle?
    requires GivenTypes(schemas, s.wsdl.elementTypes)
    ensures entry.validationType.Some? <==>
            exists e, k: nat :: InputElement(s.wsdl.definition, s.portTypes, op.name) == Some(e)
                                && FirstToGiveType(schemas, e, k)
    ensures entry.validationType.None? ==> forall body :: Accepted(body, s.wsdl.registry, entry.validationType)
  {
    hide InputElement, FirstToGiveType;
    if entry.validationType.Some? {
      var e := InputElement(s.wsdl.definition, s.portTypes, op.name).value;
      var k: nat :| FirstToGiveType(schemas, e, k);
    }
  }

  // ----- RPC operations

  /**
    At an RPC operation's own entry, every request is accepted exactly when no schema declares a type named like the
    operation, or that type requires nothing; otherwise the body is validated against that type.
   */
  lemma RpcRequestsAreValidatedExactlyWhen<H>(s: Setup<H>, op: BoundOp, entry: Entry<H>, ns: string)
    requires s.Valid() && s.EntryOf(op, entry) && op.style.RpcStyle? && op.rpcNamespace == Some(ns)
    ensures var q, registry := QName(Some(ns), op.name), s.wsdl.registry;
      && entry.validationType == Some(q)
      && ((forall body :: Accepted(body, registry, entry.validationType))
          <==> (q in registry ==> RequiredNames(registry[q]) == []))
      && (q in registry ==> forall body :: Accepted(body, registry, entry.validationType)
                                           <==> forall n :: n in RequiredNames(registry[q]) ==> n in NamesFrom(body, 0))
  {
    var q, registry := QName(Some(ns), op.name), s.wsdl.registry;
    if forall body :: Accepted(body, registry, entry.validationType) {
      assert Accepted([], registry, entry.validationType);
      if q in registry && RequiredNames(registry[q]) != [] {
        assert RequiredNames(registry[q])[0] in NamesFrom([], 0);
      }
    }
  }
}
