/** resolve_wsdl (src/wsdl/resolver.rs): the definitions of a WSDL and its imports, and the types of their schemas. */
module WsdlResolver {
  import opened Wrappers
  import opened SchemaTypes
  import opened WsdlTypes
  import opened WsdlImports
  import opened InlineSchemas
  import opened TypeDenotation

  /** The groups of all inline schemas, and of whatever they pull in, are ranked. */
  ghost predicate AllSchemasRanked(
      docs: map<string, Definition>, def: Definition, files: map<string, RawSchema>, ranks: Ranks)
  {
    SchemasRanked(def.schemas, files, ranks) && forall x :: x in docs ==> SchemasRanked(docs[x].schemas, files, ranks)
  }

  lemma {:induction false} WalkedAreRanked(
      docs: map<string, Definition>, def: Definition, files: map<string, RawSchema>, ranks: Ranks,
      finished: seq<string>)
    requires AllSchemasRanked(docs, def, files, ranks)
    ensures SchemasRanked(SchemasOf(docs, finished), files, ranks)
  {
    if finished != [] {
      WalkedAreRanked(docs, def, files, ranks, finished[1..]);
    }
  }

  /** The inline schemas of a WSDL in the order they are resolved: those of its imports first. */
  function SchemasInOrder(docs: map<string, Definition>, def: Definition, walk: Walk): seq<RawSchema>
  {
    SchemasOf(docs, walk.finished) + def.schemas
  }

  /** What is resolved is what the walk comes upon first, and the types of the schemas in order. */
  ghost predicate ResolvedFrom(
      docs: map<string, Definition>, def: Definition, files: map<string, RawSchema>, ranks: Ranks, walk: Walk,
      parts: seq<ResolvedSchema>, r: ResolvedWsdl)
  {
    && r.definition.targetNamespace == def.targetNamespace
    && (forall kind, name ::
          WsdlImports.LookUp(r.definition, kind, name) == FirstDeclared(docs, def, walk.entered, kind, name))
    && PartsOf(files, ranks, SchemasInOrder(docs, def, walk), parts)
    && r.registry == FirstWins(Registries(parts))
    && GivenTypes(SchemasInOrder(docs, def, walk), r.elementTypes)
  }

  /**
    Resolving fails exactly when a reachable document does not load or some schema, met in order, does not resolve
    given what the schemas before it loaded.
   */
  method ResolveWsdl(
      def: Definition, docs: map<string, Definition>, files: map<string, RawSchema>, visited: set<string>,
      ghost ranks: Ranks)
    returns (r: Result<ResolvedWsdl, WsdlError>, ghost parts: seq<ResolvedSchema>, ghost loads: seq<string>)
    requires AllSchemasRanked(docs, def, files, ranks)
    ensures forall i, j :: 0 <= i < j < |loads| ==> loads[i] != loads[j]
    ensures WalkFrom(docs, def.imports, visited).Err? ==>
              r == Err(WsdlLoadFailed(WalkFrom(docs, def.imports, visited).error))
    ensures r.Ok? ==>
              && WalkFrom(docs, def.imports, visited).Ok?
              && GivenTypes(SchemasInOrder(docs, def, WalkFrom(docs, def.imports, visited).value), r.value.elementTypes)
    ensures var walk := WalkFrom(docs, def.imports, visited);
      && (walk.Ok? && r.Ok? ==> loads == walk.value.entered
                                && ResolvedFrom(docs, def, files, ranks, walk.value, parts, r.value))
      && (walk.Ok? && r.Err? ==>
            var schemas := SchemasInOrder(docs, def, walk.value);
            && r.error.SchemaFailed? && |parts| < |schemas| && PartsOf(files, ranks, schemas[..|parts|], parts)
            && Fails(files, schemas[|parts|], LoadedAfter(parts), r.error.cause))
  {
    hide WalkFrom, WsdlImports.LookUp, SchemasOf, PartsOf, Fails, FirstWins, SchemasRanked, GivenTypes;
    var walker := new ImportWalker(docs, visited);
    var definition := walker.ResolveInner(def);
    loads, parts := walker.loads, [];
    if definition.Err? {
      return Err(definition.error), parts, loads;
    }
    ghost var walk := WalkFrom(docs, def.imports, visited).value;
    assert walker.schemas == SchemasInOrder(docs, def, walk);
    assert loads == walk.entered;
    WalkedAreRanked(docs, def, files, ranks, walk.finished);
    BothRanked(SchemasOf(docs, walk.finished), def.schemas, files, ranks);
    var types;
    types, parts := AccumulateSchemas(walker.schemas, files, ranks);
    if types.Err? {
      return Err(SchemaFailed(types.error)), parts, loads;
    }
    return Ok(ResolvedWsdl(definition.value, types.value.0, types.value.1)), parts, loads;
  }

  lemma BothRanked(a: seq<RawSchema>, b: seq<RawSchema>, files: map<string, RawSchema>, ranks: Ranks)
    requires SchemasRanked(a, files, ranks) && SchemasRanked(b, files, ranks)
    ensures SchemasRanked(a + b, files, ranks)
  {
  }
}
