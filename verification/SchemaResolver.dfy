/** resolve_schema (src/xsd/resolver.rs): load, resolve, and build the type registry. */
module SchemaResolver {
  import opened Wrappers
  import opened SchemaTypes
  import opened SchemaLoader
  import opened TypeDenotation
  import opened TypeResolver

  predicate InlineComplex(el: Element) { el.inlineType.Some? && el.inlineType.value.Complex? }

  /** The declared types as registered. */
  function RegisteredTypes(flat: FlatTypeMap, env: Env): Registry
    requires forall q :: IsComplex(flat, q) ==> q in env
  {
    map q | q in flat.types :: if IsComplex(flat, q) then Complex(env[q]) else flat.types[q]
  }

  /** The registry once the elements in `done` have been looked at. */
  ghost function RegistryWith(flat: FlatTypeMap, ranks: Ranks, env: Env, done: set<QName>): Registry
    requires Ranked(flat, ranks) && Solution(flat, ranks, env)
  {
    (map e | e in done && e in flat.elements && InlineComplex(flat.elements[e]) ::
       Complex(FlattenedType(flat, ranks, env, flat.elements[e].inlineType.value.complex)))
    + RegisteredTypes(flat, env)
  }

  /** The registry a solution gives rise to: every type, and every element whose anonymous type is complex. */
  ghost function RegistryOf(flat: FlatTypeMap, ranks: Ranks, env: Env): Registry
    requires Ranked(flat, ranks) && Solution(flat, ranks, env)
  {
    RegistryWith(flat, ranks, env, flat.elements.Keys)
  }

  lemma RegistryStep(flat: FlatTypeMap, ranks: Ranks, env: Env, done: set<QName>, e: QName)
    requires Ranked(flat, ranks) && Solution(flat, ranks, env) && e in flat.elements
    ensures var before := RegistryWith(flat, ranks, env, done);
            RegistryWith(flat, ranks, env, done + {e}) ==
              if e in before || !InlineComplex(flat.elements[e]) then before
              else before[e := Complex(FlattenedType(flat, ranks, env, flat.elements[e].inlineType.value.complex))]
  {
    hide FlattenedType, Solution, Ranked, RegisteredTypes;
  }

  method InSomeOrder(keys: set<QName>) returns (order: seq<QName>)
    ensures forall q :: q in order <==> q in keys
  {
    order := [];
    var todo := keys;
    while todo != {}
      invariant forall q :: q in keys <==> q in order || q in todo
      decreases todo
    {
      var q :| q in todo;
      order, todo := order + [q], todo - {q};
    }
  }

  /** The anonymous types of top-level elements, resolved against fresh memos, join the registry. */
  method RegisterInlineTypes(flat: FlatTypeMap, ghost ranks: Ranks, ghost env: Env, registered: Registry)
    returns (registry: Registry)
    requires Ranked(flat, ranks) && Acyclic(flat) && Solution(flat, ranks, env)
    requires registered == RegisteredTypes(flat, env)
    ensures registry == RegistryOf(flat, ranks, env)
  {
    registry := registered;
    var order := InSomeOrder(flat.elements.Keys);
    ghost var done: set<QName> := {};
    assert RegistryWith(flat, ranks, env, {}) == registered;
    for i := 0 to |order|
      invariant done == set e | e in order[..i]
      invariant registry == RegistryWith(flat, ranks, env, done)
    {
      var e := order[i];
      assert order[..i + 1] == order[..i] + [e];
      RegistryStep(flat, ranks, env, done, e);
      done := done + {e};
      if e !in registry && InlineComplex(flat.elements[e]) {
        var r := ResolveInline(flat, ranks, env, flat.elements[e].inlineType.value.complex);
        if r.Ok? {
          registry := registry[e := Complex(r.value)];
        }
      }
    }
    assert order[..|order|] == order;
    assert done == flat.elements.Keys;
  }

  method ResolveInline(flat: FlatTypeMap, ghost ranks: Ranks, ghost env: Env, raw: ComplexType)
    returns (r: Result<ComplexType, SchemaError>)
    requires Ranked(flat, ranks) && Acyclic(flat) && Solution(flat, ranks, env)
    ensures r == Ok(FlattenedType(flat, ranks, env, raw))
  {
    var resolver := new Resolver(flat, ranks);
    r := resolver.ResolveComplexType(raw);
    InlineAgrees(flat, ranks, env, resolver.resolved, raw.content);
  }

  lemma InlineAgrees(flat: FlatTypeMap, ranks: Ranks, env: Env, partial: Env, content: Content)
    requires Ranked(flat, ranks) && Acyclic(flat) && Solution(flat, ranks, env)
    requires PartialSolution(flat, ranks, partial) && BasesIn(flat, partial, content)
    ensures Flattened(flat, ranks, partial, content) == Flattened(flat, ranks, env, content)
  {
    forall b | b in Bases(content)
      ensures (b in partial <==> b in env) && (b in partial ==> partial[b] == env[b])
    {
      if IsComplex(flat, b) {
        SolutionsAgree(flat, ranks, partial, env, b);
      }
    }
    FlattenedAgrees(flat, ranks, partial, env, content);
  }

  /** The groups of every possible merge of the schema set are ranked. */
  ghost predicate AlwaysRanked(
      root: RawSchema, files: map<string, RawSchema>, loadedBefore: set<string>, ranks: Ranks)
  {
    forall order :: Complete(root, files, loadedBefore, order) ==> Ranked(Merged(root, files, order), ranks)
  }

  /**
    Succeeds exactly when every reachable location loads and no type reaches itself through its bases, and then
    the registry is the one the (only) solution of the collected types gives.
   */
  method ResolveSchema(
      root: RawSchema, files: map<string, RawSchema>, alreadyLoaded: set<string>, ghost ranks: Ranks)
    returns (r: Result<Registry, SchemaError>, loaded: set<string>, ghost order: seq<Option<string>>)
    requires AlwaysRanked(root, files, alreadyLoaded, ranks)
    ensures r.Ok? <==> AllLoad(root, files, alreadyLoaded) && Acyclic(Merged(root, files, order))
    ensures AllLoad(root, files, alreadyLoaded) ==> Complete(root, files, alreadyLoaded, order)
    ensures AllLoad(root, files, alreadyLoaded) && r.Err? ==>
              r.error.CycleDetected? && OnCycle(Merged(root, files, order), r.error.name)
    ensures !AllLoad(root, files, alreadyLoaded) ==> r.Err? && r.error.LoadFailed?
    ensures r.Ok? ==> order == Order(root, files, alreadyLoaded)
    ensures r.Ok? ==> forall x :: x in loaded <==> x in alreadyLoaded || Some(x) in order
    ensures r.Ok? ==>
              var flat := Merged(root, files, order);
              Ranked(flat, ranks) &&
              exists env :: Solution(flat, ranks, env) && r.value == RegistryOf(flat, ranks, env)
  {
    var collector := new SchemaCollector(root, files, alreadyLoaded);
    var collected := collector.CollectAllSchemas();
    loaded, order := collector.alreadyLoaded, collector.order;
    if collected.Err? {
      return Err(collected.error), loaded, order;
    }
    var flat := collected.value;
    var resolver := new Resolver(flat, ranks);
    var keys := InSomeOrder(set q | q in flat.types && flat.types[q].Complex?);
    var error := resolver.ResolveAllTypes(keys);
    if error.Some? {
      return Err(error.value), loaded, order;
    }
    var env := resolver.resolved;
    var registry := RegisteredTypes(flat, env);
    registry := RegisterInlineTypes(flat, ranks, env, registry);
    return Ok(registry), loaded, order;
  }

  // ----- What the registry holds

  /** A flattened model has the form it was declared with; an extension is a sequence, a restriction its content. */
  ghost predicate KeepsForm(flat: FlatTypeMap, ranks: Ranks, declared: Content, kept: Content)
    requires Ranked(flat, ranks)
  {
    match declared
    case Sequence(els) => kept == Sequence(Expand(flat, ranks, els))
    case All(els) => kept == All(Expand(flat, ranks, els))
    case Choice(els) => kept == Choice(Expand(flat, ranks, els))
    case Extension(_, _) => kept.Sequence?
    case Restriction(_, inner) => KeepsForm(flat, ranks, inner, kept)
    case _ => kept == declared
  }

  /** A registered type stands for this declared one: its name, its attributes with groups opened, its form. */
  ghost predicate StandsForType(flat: FlatTypeMap, ranks: Ranks, declared: ComplexType, kept: XsdType)
    requires Ranked(flat, ranks)
  {
    && kept.Complex?
    && kept.complex.name == declared.name
    && kept.complex.attributes == ExpandAttributes(flat, ranks, declared.attributes)
    && KeepsForm(flat, ranks, declared.content, kept.complex.content)
  }

  lemma {:induction false} FlattenedKeepsForm(flat: FlatTypeMap, ranks: Ranks, env: Env, content: Content)
    requires Ranked(flat, ranks)
    ensures KeepsForm(flat, ranks, content, Flattened(flat, ranks, env, content))
  {
    if content.Restriction? {
      FlattenedKeepsForm(flat, ranks, env, content.inner);
    }
  }

  /** Which names are registered, and what each stands for; a declared type comes before an element's anonymous one. */
  lemma RegistryHolds(flat: FlatTypeMap, ranks: Ranks, env: Env, q: QName)
    requires Ranked(flat, ranks) && Solution(flat, ranks, env)
    ensures q in RegistryOf(flat, ranks, env) <==>
            || q in flat.types
            || (q in flat.elements && exists c :: flat.elements[q].inlineType == Some(Complex(c)))
    ensures q in flat.types && flat.types[q].Simple? ==> RegistryOf(flat, ranks, env)[q] == flat.types[q]
    ensures q in flat.types && flat.types[q].Complex? ==>
              StandsForType(flat, ranks, flat.types[q].complex, RegistryOf(flat, ranks, env)[q])
    ensures q !in flat.types && q in RegistryOf(flat, ranks, env) ==>
              StandsForType(flat, ranks, flat.elements[q].inlineType.value.complex, RegistryOf(flat, ranks, env)[q])
  {
    hide Ranked;
    if IsComplex(flat, q) {
      FlattenedKeepsForm(flat, ranks, env, flat.types[q].complex.content);
    } else if q in flat.elements && InlineComplex(flat.elements[q]) {
      FlattenedKeepsForm(flat, ranks, env, flat.elements[q].inlineType.value.complex.content);
      assert flat.elements[q].inlineType == Some(Complex(flat.elements[q].inlineType.value.complex));
    }
  }

  // ----- Extension chains

  /** Extension appears only at the top of a content model, as the parser builds it. */
  predicate OneLevel(content: Content)
  {
    if content.Extension? then Bases(content.inner) == {} else Bases(content) == {}
  }

  predicate Extending(flat: FlatTypeMap, q: QName) { IsComplex(flat, q) && flat.types[q].complex.content.Extension? }

  /** From a type, base by base, to one that extends nothing or is not a declared complex type. */
  ghost predicate IsExtensionChain(flat: FlatTypeMap, chain: seq<QName>)
  {
    && |chain| >= 1
    && if |chain| == 1 then !Extending(flat, chain[0])
       else && Extending(flat, chain[0]) && flat.types[chain[0]].complex.content.base == chain[1]
            && IsExtensionChain(flat, chain[1..])
  }

  /** The bases of a content model, nearest first. */
  ghost predicate HasBases(flat: FlatTypeMap, content: Content, bases: seq<QName>)
  {
    if content.Extension? then IsExtensionChain(flat, bases) && bases[0] == content.base else bases == []
  }

  /** What a content model declares itself, its base aside. */
  function Own(content: Content): Content { if content.Extension? then content.inner else content }

  function OwnOf(flat: FlatTypeMap, q: QName): Content
  {
    if IsComplex(flat, q) then Own(flat.types[q].complex.content) else EmptyContent
  }

  /** What the type declares itself, then what each base does, nearest first. */
  function Levels(flat: FlatTypeMap, content: Content, bases: seq<QName>): (levels: seq<Content>)
    ensures |levels| == |bases| + 1
  {
    [Own(content)] + seq(|bases|, i requires 0 <= i < |bases| => OwnOf(flat, bases[i]))
  }

  ghost function LevelElements(flat: FlatTypeMap, ranks: Ranks, level: Content): seq<Element>
    requires Ranked(flat, ranks)
  {
    Elements(Flattened(flat, ranks, map[], level))
  }

  /** What a level contributes: its compositor's list, expanded; a restriction's content; nothing otherwise. */
  lemma LevelElementsAre(flat: FlatTypeMap, ranks: Ranks, level: Content)
    requires Ranked(flat, ranks) && !level.Extension?
    ensures LevelElements(flat, ranks, level) ==
            if level.Sequence? || level.All? || level.Choice? then Expand(flat, ranks, level.elements)
            else if level.Restriction? then LevelElements(flat, ranks, level.inner)
            else []
  {
  }

  /** The elements of the outermost base first, the type's own last. */
  ghost function AllElements(flat: FlatTypeMap, ranks: Ranks, levels: seq<Content>): seq<Element>
    requires Ranked(flat, ranks)
  {
    if levels == [] then [] else AllElements(flat, ranks, levels[1..]) + LevelElements(flat, ranks, levels[0])
  }

  /** Types as the parser builds them. */
  ghost predicate AllOneLevel(flat: FlatTypeMap)
  {
    forall q :: IsComplex(flat, q) ==> OneLevel(flat.types[q].complex.content)
  }

  /** A flattened type, named or anonymous, holds the elements of its whole extension chain, ancestors first. */
  lemma {:induction false} BaseElementsFirst(
      flat: FlatTypeMap, ranks: Ranks, env: Env, content: Content, bases: seq<QName>)
    requires Ranked(flat, ranks) && Solution(flat, ranks, env) && AllOneLevel(flat)
    requires OneLevel(content) && HasBases(flat, content, bases)
    ensures Elements(Flattened(flat, ranks, env, content)) == AllElements(flat, ranks, Levels(flat, content, bases))
    ensures content.Extension? ==> Flattened(flat, ranks, env, content).Sequence?
    decreases |bases|
  {
    hide Ranked, Expand, ExpandAttributes;
    var levels := Levels(flat, content, bases);
    assert AllElements(flat, ranks, levels)
        == AllElements(flat, ranks, levels[1..]) + LevelElements(flat, ranks, levels[0]);
    FlattenedAgrees(flat, ranks, env, map[], Own(content));
    if !content.Extension? {
      assert levels[1..] == [];
    } else if IsComplex(flat, bases[0]) {
      var base := flat.types[bases[0]].complex.content;
      assert levels[1..] == Levels(flat, base, bases[1..]);
      BaseElementsFirst(flat, ranks, env, base, bases[1..]);
    } else {
      assert levels[1..] == [EmptyContent] && [EmptyContent][1..] == [];
      assert AllElements(flat, ranks, []) == [];
    }
  }

  /** Without cycles every type heads such a chain. */
  lemma {:induction false} ChainFrom(flat: FlatTypeMap, path: seq<QName>, seen: set<QName>) returns (chain: seq<QName>)
    requires Acyclic(flat) && |path| >= 1 && IsChain(flat, path)
    requires seen == (set q | q in path) && seen - {path[|path| - 1]} <= flat.types.Keys
    ensures IsExtensionChain(flat, chain) && chain[0] == path[|path| - 1]
    decreases flat.types.Keys - (seen - {path[|path| - 1]})
  {
    var q := path[|path| - 1];
    if !Extending(flat, q) {
      return [q];
    }
    var base := flat.types[q].complex.content.base;
    var longer := path + [base];
    assert Extends(flat, q, base);
    assert IsChain(flat, longer);
    if base in seen {
      var k :| 0 <= k < |path| && path[k] == base;
      assert IsLoop(flat, longer[k..], base);
      assert OnCycle(flat, base);
      assert false;
    }
    assert (set p | p in longer) == seen + {base};
    assert q in flat.types.Keys && q in seen && (seen + {base}) - {base} == seen;
    var rest := ChainFrom(flat, longer, seen + {base});
    chain := [q] + rest;
    assert chain[1..] == rest;
  }

  lemma EveryTypeHasChain(flat: FlatTypeMap, q: QName) returns (chain: seq<QName>)
    requires Acyclic(flat)
    ensures IsExtensionChain(flat, chain) && chain[0] == q
  {
    assert (set p | p in [q]) == {q};
    chain := ChainFrom(flat, [q], {q});
  }

  lemma EveryContentHasBases(flat: FlatTypeMap, content: Content) returns (bases: seq<QName>)
    requires Acyclic(flat)
    ensures HasBases(flat, content, bases)
  {
    bases := [];
    if content.Extension? {
      bases := EveryTypeHasChain(flat, content.base);
    }
  }
}
