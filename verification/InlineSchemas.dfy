/**
  The types of a WSDL: its inline schemas, resolved one after another against one set of loaded locations and merged
  so that the first wins (the second half of resolve_wsdl_inner in src/wsdl/resolver.rs).
 */
module InlineSchemas {
  import opened Wrappers
  import opened SchemaTypes
  import opened SchemaLoader
  import opened TypeDenotation
  import opened SchemaResolver
  import opened Validation

  // ----- First wins

  /** Maps merged with `entry(k).or_insert(v)`, from the first to the last. */
  function FirstWins<K(==), V>(maps: seq<map<K, V>>): map<K, V>
  {
    if maps == [] then map[] else maps[|maps| - 1] + FirstWins(maps[..|maps| - 1])
  }

  /** A merged map holds the keys of all, each with the value of the first that has it. */
  lemma {:induction false} FirstWinsHolds<K, V>(maps: seq<map<K, V>>, k: K)
    ensures k in FirstWins(maps) <==> exists i :: 0 <= i < |maps| && k in maps[i]
    ensures k in FirstWins(maps) ==>
      exists i :: 0 <= i < |maps| && k in maps[i] && FirstWins(maps)[k] == maps[i][k]
                  && forall j :: 0 <= j < i ==> k !in maps[j]
  {
    if maps != [] {
      var n := |maps| - 1;
      var before := maps[..n];
      FirstWinsHolds(before, k);
      if k in FirstWins(before) {
        var i :| 0 <= i < n && k in before[i] && FirstWins(before)[k] == before[i][k]
          && forall j :: 0 <= j < i ==> k !in before[j];
        assert maps[i] == before[i] && forall j :: 0 <= j < i ==> maps[j] == before[j];
      } else {
        assert forall j :: 0 <= j < n ==> maps[j] == before[j];
      }
    }
  }

  method OrInsertAll<K(==), V>(into: map<K, V>, entries: map<K, V>) returns (merged: map<K, V>)
    ensures merged == entries + into
  {
    merged := into;
    var todo := entries.Keys;
    while todo != {}
      invariant todo <= entries.Keys
      invariant merged == (map k | k in entries && k !in todo :: entries[k]) + into
      decreases todo
    {
      var k :| k in todo;
      if k !in merged {
        merged := merged[k := entries[k]];
      }
      todo := todo - {k};
    }
    assert (map k | k in entries && k !in todo :: entries[k]) == entries;
  }

  // ----- Schema by schema

  /** A resolved inline schema: what had been loaded before it, the order its schemas were merged in, and its types. */
  datatype ResolvedSchema = ResolvedSchema(raw: RawSchema, loadedBefore: set<string>, order: seq<Option<string>>,
      registry: Registry)

  function FlatOf(files: map<string, RawSchema>, p: ResolvedSchema): FlatTypeMap { Merged(p.raw, files, p.order) }

  ghost predicate Solves(files: map<string, RawSchema>, ranks: Ranks, p: ResolvedSchema, env: Env)
  {
    && Ranked(FlatOf(files, p), ranks) && Solution(FlatOf(files, p), ranks, env)
    && p.registry == RegistryOf(FlatOf(files, p), ranks, env)
  }

  /** The part is what resolving its schema gives. */
  ghost predicate Sound(files: map<string, RawSchema>, ranks: Ranks, p: ResolvedSchema)
  {
    && Complete(p.raw, files, p.loadedBefore, p.order) && AllLoad(p.raw, files, p.loadedBefore)
    && p.order == Order(p.raw, files, p.loadedBefore)
    && Acyclic(FlatOf(files, p)) && exists env :: Solves(files, ranks, p, env)
  }

  function LoadedBy(order: seq<Option<string>>): set<string>
  {
    set at | at in order && at.Some? :: at.value
  }

  /** What has been loaded after some parts, when nothing was to begin with. */
  function LoadedAfter(parts: seq<ResolvedSchema>): set<string>
  {
    if parts == [] then {} else LoadedAfter(parts[..|parts| - 1]) + LoadedBy(parts[|parts| - 1].order)
  }

  /** Each part starts from what those before it have loaded. */
  ghost predicate Chained(parts: seq<ResolvedSchema>)
  {
    forall k :: 0 <= k < |parts| ==> parts[k].loadedBefore == LoadedAfter(parts[..k])
  }

  function Registries(parts: seq<ResolvedSchema>): seq<Registry>
  {
    seq(|parts|, k requires 0 <= k < |parts| => parts[k].registry)
  }

  /** The element types an inline schema itself declares: by reference, or by being the anonymous type's name. */
  function DeclaredTypes(raw: RawSchema): map<QName, QName>
  {
    map e | e in raw.elements && (raw.elements[e].inlineType.Some? || raw.elements[e].typeRef.Some?) ::
      if raw.elements[e].inlineType.Some? then e else raw.elements[e].typeRef.value
  }

  function ElementTypes(schemas: seq<RawSchema>): seq<map<QName, QName>>
  {
    seq(|schemas|, k requires 0 <= k < |schemas| => DeclaredTypes(schemas[k]))
  }

  /** The schema itself declares the element, with an anonymous type or a reference to one. */
  predicate GivesType(raw: RawSchema, e: QName)
  {
    e in raw.elements && (raw.elements[e].inlineType.Some? || raw.elements[e].typeRef.Some?)
  }

  /** The first of these schemas to give the element a type. */
  predicate FirstToGiveType(schemas: seq<RawSchema>, e: QName, k: nat)
  {
    k < |schemas| && GivesType(schemas[k], e) && forall j :: 0 <= j < k ==> !GivesType(schemas[j], e)
  }

  /**
    The elements with a type are those some schema declares with one; the first such schema decides: an anonymous type
    goes by the element's own name, any other by the name the declaration refers to.
   */
  ghost predicate GivenTypes(schemas: seq<RawSchema>, types: map<QName, QName>)
  {
    && (forall e :: e in types <==> exists k: nat :: FirstToGiveType(schemas, e, k))
    && (forall e, k: nat :: FirstToGiveType(schemas, e, k) ==>
          e in types && if schemas[k].elements[e].inlineType.Some? then types[e] == e
                        else schemas[k].elements[e].typeRef == Some(types[e]))
  }

  lemma ElementTypesAreGiven(schemas: seq<RawSchema>)
    ensures GivenTypes(schemas, FirstWins(ElementTypes(schemas)))
  {
    hide FirstWins;
    var types := FirstWins(ElementTypes(schemas));
    forall k, e | 0 <= k < |schemas| ensures e in ElementTypes(schemas)[k] <==> GivesType(schemas[k], e) {
    }
    forall e
      ensures e in types <==> exists k: nat :: FirstToGiveType(schemas, e, k)
      ensures forall k: nat :: FirstToGiveType(schemas, e, k) ==>
        e in types && if schemas[k].elements[e].inlineType.Some? then types[e] == e
                      else schemas[k].elements[e].typeRef == Some(types[e])
    {
      FirstWinsHolds(ElementTypes(schemas), e);
      if e in types {
        var k :| 0 <= k < |schemas| && e in ElementTypes(schemas)[k] && types[e] == ElementTypes(schemas)[k][e]
          && forall j :: 0 <= j < k ==> e !in ElementTypes(schemas)[j];
        assert FirstToGiveType(schemas, e, k);
      }
    }
  }

  /** A schema that does not resolve: some location does not load, or some type extends itself. */
  ghost predicate Fails(files: map<string, RawSchema>, raw: RawSchema, loadedBefore: set<string>, error: SchemaError)
  {
    match error
    case LoadFailed(_) => !AllLoad(raw, files, loadedBefore)
    case CycleDetected(name) =>
      exists order :: Complete(raw, files, loadedBefore, order) && OnCycle(Merged(raw, files, order), name)
  }

  /** The groups of every schema here, and of whatever it pulls in, are ranked. */
  ghost predicate SchemasRanked(schemas: seq<RawSchema>, files: map<string, RawSchema>, ranks: Ranks)
  {
    forall raw, before :: raw in schemas ==> AlwaysRanked(raw, files, before, ranks)
  }

  /** The parts of some schemas, resolved in order. */
  ghost predicate PartsOf(files: map<string, RawSchema>, ranks: Ranks, schemas: seq<RawSchema>,
      parts: seq<ResolvedSchema>)
  {
    && |parts| == |schemas| && Chained(parts)
    && forall k :: 0 <= k < |parts| ==> parts[k].raw == schemas[k] && Sound(files, ranks, parts[k])
  }

  class SchemaAccumulator {
    const files: map<string, RawSchema>
    var alreadyLoaded: set<string>
    var types: Registry
    var elementTypes: map<QName, QName>
    ghost var schemas: seq<RawSchema>
    ghost var parts: seq<ResolvedSchema>

    constructor (files: map<string, RawSchema>)
      ensures this.files == files && schemas == [] && parts == []
      ensures alreadyLoaded == {} && types == map[] && elementTypes == map[]
    {
      this.files, alreadyLoaded, types, elementTypes, schemas, parts := files, {}, map[], map[], [], [];
    }

    ghost predicate Valid(ranks: Ranks)
      reads this
    {
      && PartsOf(files, ranks, schemas, parts)
      && alreadyLoaded == LoadedAfter(parts)
      && types == FirstWins(Registries(parts))
      && elementTypes == FirstWins(ElementTypes(schemas))
    }

    method AddSchema(raw: RawSchema, ghost ranks: Ranks) returns (error: Option<SchemaError>)
      requires Valid(ranks) && AlwaysRanked(raw, files, alreadyLoaded, ranks)
      modifies this
      ensures error.None? ==> Valid(ranks) && schemas == old(schemas) + [raw] && old(parts) <= parts
      ensures error.None? ==> GivenTypes(schemas, elementTypes)
      ensures error.Some? ==> schemas == old(schemas) && parts == old(parts)
      ensures error.Some? ==> Fails(files, raw, LoadedAfter(parts), error.value)
    {
      hide PartsOf, FirstWins, LoadedAfter, AlwaysRanked, Sound, Fails, DeclaredTypes, LoadedBy, Registries,
          ElementTypes, GivenTypes;
      hide Complete, AllLoad, Acyclic, OnCycle, Merged, Ranked, Solution, RegistryOf, Order;
      elementTypes := OrInsertAll(elementTypes, DeclaredTypes(raw));
      ghost var order;
      var partial, loaded;
      partial, loaded, order := ResolveSchema(raw, files, alreadyLoaded, ranks);
      if partial.Err? {
        ErrorIsAccounted(files, raw, alreadyLoaded, order, partial.error);
        return Some(partial.error);
      }
      types := OrInsertAll(types, partial.value);
      ghost var part := ResolvedSchema(raw, alreadyLoaded, order, partial.value);
      ghost var env :| Solution(Merged(raw, files, order), ranks, env)
        && partial.value == RegistryOf(Merged(raw, files, order), ranks, env);
      ResolvedIsSound(files, ranks, part, env);
      AddPart(files, ranks, schemas, parts, part);
      LoadedMore(alreadyLoaded, order, loaded);
      alreadyLoaded, schemas, parts := loaded, schemas + [raw], parts + [part];
      ElementTypesAreGiven(schemas);
      return None;
    }
  }

  lemma LoadedMore(before: set<string>, order: seq<Option<string>>, loaded: set<string>)
    requires forall x :: x in loaded <==> x in before || Some(x) in order
    ensures loaded == before + LoadedBy(order)
  {
  }

  lemma ErrorIsAccounted(
      files: map<string, RawSchema>, raw: RawSchema, before: set<string>, order: seq<Option<string>>,
      error: SchemaError)
    requires AllLoad(raw, files, before) ==>
               error.CycleDetected? && Complete(raw, files, before, order)
                   && OnCycle(Merged(raw, files, order), error.name)
    requires !AllLoad(raw, files, before) ==> error.LoadFailed?
    ensures Fails(files, raw, before, error)
  {
  }

  lemma ResolvedIsSound(files: map<string, RawSchema>, ranks: Ranks, p: ResolvedSchema, env: Env)
    requires Complete(p.raw, files, p.loadedBefore, p.order) && AllLoad(p.raw, files, p.loadedBefore)
    requires p.order == Order(p.raw, files, p.loadedBefore)
    requires Acyclic(FlatOf(files, p)) && Solves(files, ranks, p, env)
    ensures Sound(files, ranks, p)
  {
  }

  lemma AddPart(
      files: map<string, RawSchema>, ranks: Ranks, schemas: seq<RawSchema>, parts: seq<ResolvedSchema>,
      part: ResolvedSchema)
    requires PartsOf(files, ranks, schemas, parts)
    requires Sound(files, ranks, part) && part.loadedBefore == LoadedAfter(parts)
    ensures PartsOf(files, ranks, schemas + [part.raw], parts + [part])
    ensures LoadedAfter(parts + [part]) == LoadedAfter(parts) + LoadedBy(part.order)
    ensures FirstWins(Registries(parts + [part])) == part.registry + FirstWins(Registries(parts))
    ensures FirstWins(ElementTypes(schemas + [part.raw])) == DeclaredTypes(part.raw) + FirstWins(ElementTypes(schemas))
  {
    AddToParts(files, ranks, schemas, parts, part);
    AddToRegistries(parts, part);
    AddToElementTypes(schemas, part.raw);
    hide *;
    assert (parts + [part])[..|parts|] == parts;
    LoadedWith(parts, part);
  }

  lemma LoadedWith(parts: seq<ResolvedSchema>, part: ResolvedSchema)
    ensures LoadedAfter(parts + [part]) == LoadedAfter(parts) + LoadedBy(part.order)
  {
    hide LoadedBy;
    assert (parts + [part])[..|parts|] == parts;
  }

  lemma AddToParts(
      files: map<string, RawSchema>, ranks: Ranks, schemas: seq<RawSchema>, parts: seq<ResolvedSchema>,
      part: ResolvedSchema)
    requires PartsOf(files, ranks, schemas, parts)
    requires Sound(files, ranks, part) && part.loadedBefore == LoadedAfter(parts)
    ensures PartsOf(files, ranks, schemas + [part.raw], parts + [part])
  {
    AddChained(parts, part);
    hide Sound, Chained, LoadedAfter;
  }

  lemma AddToRegistries(parts: seq<ResolvedSchema>, part: ResolvedSchema)
    ensures FirstWins(Registries(parts + [part])) == part.registry + FirstWins(Registries(parts))
  {
    assert Registries(parts + [part]) == Registries(parts) + [part.registry];
    FirstWinsLast(Registries(parts), part.registry);
  }

  lemma AddToElementTypes(schemas: seq<RawSchema>, raw: RawSchema)
    ensures FirstWins(ElementTypes(schemas + [raw])) == DeclaredTypes(raw) + FirstWins(ElementTypes(schemas))
  {
    hide DeclaredTypes;
    assert ElementTypes(schemas + [raw]) == ElementTypes(schemas) + [DeclaredTypes(raw)];
    FirstWinsLast(ElementTypes(schemas), DeclaredTypes(raw));
  }

  lemma FirstWinsLast<K, V>(maps: seq<map<K, V>>, last: map<K, V>)
    ensures FirstWins(maps + [last]) == last + FirstWins(maps)
  {
    assert (maps + [last])[..|maps|] == maps;
  }

  lemma AddChained(parts: seq<ResolvedSchema>, part: ResolvedSchema)
    requires Chained(parts) && part.loadedBefore == LoadedAfter(parts)
    ensures Chained(parts + [part])
  {
    hide LoadedAfter;
    var more := parts + [part];
    forall k | 0 <= k < |more| ensures more[k].loadedBefore == LoadedAfter(more[..k]) {
      assert more[..k] == if k < |parts| then parts[..k] else parts;
    }
  }

  /**
    The schemas are resolved in order, or the error is about the first that does not resolve, given what the schemas
    before it loaded.
   */
  method AccumulateSchemas(schemas: seq<RawSchema>, files: map<string, RawSchema>, ghost ranks: Ranks)
    returns (r: Result<(Registry, map<QName, QName>), SchemaError>, ghost parts: seq<ResolvedSchema>)
    requires SchemasRanked(schemas, files, ranks)
    ensures r.Ok? ==> PartsOf(files, ranks, schemas, parts) && r.value.0 == FirstWins(Registries(parts))
    ensures r.Ok? ==> r.value.1 == FirstWins(ElementTypes(schemas)) && GivenTypes(schemas, r.value.1)
    ensures r.Err? ==> schemas != []
    ensures r.Err? ==> |parts| < |schemas| && PartsOf(files, ranks, schemas[..|parts|], parts)
    ensures r.Err? ==> Fails(files, schemas[|parts|], LoadedAfter(parts), r.error)
  {
    var accumulator := new SchemaAccumulator(files);
    NothingAccumulated(files, ranks);
    hide PartsOf, FirstWins, LoadedAfter, AlwaysRanked, Fails, Registries, ElementTypes, GivenTypes;
    for i := 0 to |schemas|
      invariant accumulator.files == files && accumulator.Valid(ranks) && accumulator.schemas == schemas[..i]
    {
      PartPerSchema(files, ranks, schemas[..i], accumulator.parts);
      assert schemas[i] in schemas;
      var error := accumulator.AddSchema(schemas[i], ranks);
      if error.Some? {
        return Err(error.value), accumulator.parts;
      }
      assert schemas[..i + 1] == schemas[..i] + [schemas[i]];
    }
    assert schemas[..|schemas|] == schemas;
    ElementTypesAreGiven(schemas);
    return Ok((accumulator.types, accumulator.elementTypes)), accumulator.parts;
  }

  lemma NothingAccumulated(files: map<string, RawSchema>, ranks: Ranks)
    ensures PartsOf(files, ranks, [], []) && LoadedAfter([]) == {}
    ensures FirstWins(Registries([])) == map[] && FirstWins(ElementTypes([])) == map[]
  {
  }

  lemma PartPerSchema(files: map<string, RawSchema>, ranks: Ranks, schemas: seq<RawSchema>, parts: seq<ResolvedSchema>)
    requires PartsOf(files, ranks, schemas, parts)
    ensures |parts| == |schemas|
  {
  }

  // ----- Where a type comes from

  /** A schema's declaration of a type, or the anonymous type of an element. */
  ghost predicate IsTypeOf(flat: FlatTypeMap, q: QName, raw: ComplexType)
  {
    if q in flat.types then flat.types[q] == Complex(raw)
    else q in flat.elements && InlineComplex(flat.elements[q]) && flat.elements[q].inlineType == Some(Complex(raw))
  }

  /** A type of that name is declared, or an element of that name with an anonymous complex type. */
  predicate Declares(flat: FlatTypeMap, q: QName)
  {
    q in flat.types || (q in flat.elements && InlineComplex(flat.elements[q]))
  }

  lemma RegistryHolds(files: map<string, RawSchema>, ranks: Ranks, p: ResolvedSchema, q: QName)
    requires Sound(files, ranks, p)
    ensures q in p.registry <==> Declares(FlatOf(files, p), q)
  {
    hide Complete, AllLoad, Acyclic, Merged, FlattenedType, Ranked, PartialSolution;
    var env :| Solves(files, ranks, p, env);
  }

  /** A name is known exactly if some schema, with what it pulls in, declares it. */
  lemma KnownExactlyWhen(
      files: map<string, RawSchema>, ranks: Ranks, schemas: seq<RawSchema>, parts: seq<ResolvedSchema>, q: QName)
    requires PartsOf(files, ranks, schemas, parts)
    ensures q in FirstWins(Registries(parts)) <==>
            exists k :: 0 <= k < |parts| && Declares(FlatOf(files, parts[k]), q)
  {
    forall k | 0 <= k < |parts| ensures q in Registries(parts)[k] <==> Declares(FlatOf(files, parts[k]), q) {
      SoundPart(files, ranks, schemas, parts, k);
      RegistryHolds(files, ranks, parts[k], q);
    }
    hide FirstWins, PartsOf, Declares, FlatOf;
    FirstWinsHolds(Registries(parts), q);
  }

  /** The complex type known by a name is the one the first schema to know it declares, flattened in that schema. */
  lemma KnownTypeIsFirst(
      files: map<string, RawSchema>, ranks: Ranks, schemas: seq<RawSchema>, parts: seq<ResolvedSchema>, q: QName)
    returns (k: nat, env: Env, raw: ComplexType)
    requires PartsOf(files, ranks, schemas, parts)
    requires q in FirstWins(Registries(parts)) && FirstWins(Registries(parts))[q].Complex?
    ensures k < |parts| && Solves(files, ranks, parts[k], env)
    ensures forall j :: 0 <= j < k ==> q !in parts[j].registry
    ensures IsTypeOf(FlatOf(files, parts[k]), q, raw)
    ensures RegisteredAs(FirstWins(Registries(parts)), q, FlatOf(files, parts[k]), ranks, env, raw)
  {
    k := FirstToKnow(parts, q);
    SoundPart(files, ranks, schemas, parts, k);
    hide FirstWins, PartsOf, RegistryOf, IsTypeOf, RegisteredAs, Registries, Complete, AllLoad, Acyclic, FlatOf;
    env :| Solves(files, ranks, parts[k], env);
    raw := RegistryEntry(FlatOf(files, parts[k]), ranks, env, q);
    EntryIsRegistered(FirstWins(Registries(parts)), parts[k].registry, q, FlatOf(files, parts[k]), ranks, env, raw);
  }

  lemma SoundPart(files: map<string, RawSchema>, ranks: Ranks, schemas: seq<RawSchema>, parts: seq<ResolvedSchema>,
      k: nat)
    requires PartsOf(files, ranks, schemas, parts) && k < |parts|
    ensures Sound(files, ranks, parts[k])
  {
    hide Sound, Chained;
  }

  lemma FirstToKnow(parts: seq<ResolvedSchema>, q: QName) returns (k: nat)
    requires q in FirstWins(Registries(parts))
    ensures k < |parts| && q in parts[k].registry && FirstWins(Registries(parts))[q] == parts[k].registry[q]
    ensures forall j :: 0 <= j < k ==> q !in parts[j].registry
  {
    hide FirstWins;
    FirstWinsHolds(Registries(parts), q);
    k :| 0 <= k < |parts| && q in Registries(parts)[k]
      && FirstWins(Registries(parts))[q] == Registries(parts)[k][q]
      && forall j :: 0 <= j < k ==> q !in Registries(parts)[j];
    assert forall j :: 0 <= j < k ==> Registries(parts)[j] == parts[j].registry;
  }

  lemma EntryIsRegistered(
      known: Registry, registry: Registry, q: QName, flat: FlatTypeMap, ranks: Ranks, env: Env, raw: ComplexType)
    requires Ranked(flat, ranks) && RegisteredAs(registry, q, flat, ranks, env, raw)
    requires q in known && known[q] == registry[q]
    ensures RegisteredAs(known, q, flat, ranks, env, raw)
  {
  }

  lemma RegistryEntry(flat: FlatTypeMap, ranks: Ranks, env: Env, q: QName) returns (raw: ComplexType)
    requires Ranked(flat, ranks) && Solution(flat, ranks, env)
    requires q in RegistryOf(flat, ranks, env) && RegistryOf(flat, ranks, env)[q].Complex?
    ensures IsTypeOf(flat, q, raw) && RegisteredAs(RegistryOf(flat, ranks, env), q, flat, ranks, env, raw)
  {
    hide FlattenedType, Ranked;
    raw := if q in flat.types then flat.types[q].complex else flat.elements[q].inlineType.value.complex;
  }
}
