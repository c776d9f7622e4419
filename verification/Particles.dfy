/** What a schema asks for by its own particles, and when validation demands just that. */
module Particles {
  import opened Wrappers
  import opened SchemaTypes
  import opened TypeDenotation
  import opened SchemaResolver
  import opened Validation
  import opened Xml

  // ----- The particles of a type

  /** A particle; optional if it is a branch of a choice, or came through an optional group reference. */
  datatype Particle = Particle(el: Element, optional: bool)

  /** Whether what a group reference stands for may be absent. */
  predicate MayBeAbsent(flat: FlatTypeMap, el: Element, optional: bool)
    requires IsGroupRef(flat, el)
  {
    optional || el.minOccurs == 0 || flat.groups[el.refAttr.value].ChoiceGroup?
  }

  /** The particles of an element list, group references opened. */
  ghost function Opened(flat: FlatTypeMap, ranks: Ranks, els: seq<Element>, optional: bool): seq<Particle>
    requires Ranked(flat, ranks)
    decreases Depth(flat, ranks, els), |els|
  {
    if els == [] then [] else
      (if IsGroupRef(flat, els[0])
       then Opened(flat, ranks, flat.groups[els[0].refAttr.value].elements, MayBeAbsent(flat, els[0], optional))
       else [Particle(els[0], optional)])
      + Opened(flat, ranks, els[1..], optional)
  }

  ghost function LevelParticles(flat: FlatTypeMap, ranks: Ranks, level: Content): seq<Particle>
    requires Ranked(flat, ranks)
  {
    match level
    case Sequence(els) => Opened(flat, ranks, els, false)
    case All(els) => Opened(flat, ranks, els, false)
    case Choice(els) => Opened(flat, ranks, els, true)
    case Restriction(_, inner) => LevelParticles(flat, ranks, inner)
    case _ => []
  }

  ghost function AllParticles(flat: FlatTypeMap, ranks: Ranks, levels: seq<Content>): seq<Particle>
    requires Ranked(flat, ranks)
  {
    if levels == [] then [] else LevelParticles(flat, ranks, levels[0]) + AllParticles(flat, ranks, levels[1..])
  }

  // ----- What they ask for

  /** The name a particle stands for: its own, or that of the element it refers to; a wildcard stands for none. */
  function NameOf(flat: FlatTypeMap, el: Element): Option<string>
  {
    if el.name == Some(ANY) then None
    else if el.refAttr.None? then el.name
    else if el.refAttr.value in flat.elements then flat.elements[el.refAttr.value].name
    else Some(el.refAttr.value.local)
  }

  /** The particle itself has to occur, under this name. */
  predicate Asks(flat: FlatTypeMap, p: Particle, name: string)
  {
    !p.optional && p.el.minOccurs > 0 && NameOf(flat, p.el) == Some(name)
  }

  ghost predicate Asked(flat: FlatTypeMap, ranks: Ranks, levels: seq<Content>, name: string)
    requires Ranked(flat, ranks)
  {
    exists p :: p in AllParticles(flat, ranks, levels) && Asks(flat, p, name)
  }

  /** The body has everything that the particles of all levels ask for. */
  ghost predicate MeetsSchema(flat: FlatTypeMap, ranks: Ranks, levels: seq<Content>, body: Forest)
    requires Ranked(flat, ranks)
  {
    forall n :: Asked(flat, ranks, levels, n) ==> n in ChildNames(body)
  }

  // ----- Where validation differs

  /** What the resolver puts in the particle's place requires this name. */
  predicate Taken(flat: FlatTypeMap, p: Particle, name: string)
  {
    exists el :: el in LookUp(flat, p.el) && Requires(el, name)
  }

  /** Demanded without being asked for: a wildcard by its made-up name, or what is optional here. */
  predicate Overstates(flat: FlatTypeMap, p: Particle, name: string)
  {
    if p.el.name == Some(ANY) then name == ANY && p.el.minOccurs > 0
    else if p.el.refAttr.None? then p.optional && Requires(p.el, name)
    else && (p.optional || p.el.minOccurs == 0)
         && p.el.refAttr.value in flat.elements && Requires(flat.elements[p.el.refAttr.value], name)
  }

  /** Asked for without being demanded: a reference to an element not known, or known as optional. */
  predicate Understates(flat: FlatTypeMap, p: Particle, name: string)
  {
    && !p.optional && p.el.minOccurs > 0 && p.el.name != Some(ANY) && p.el.refAttr.Some?
    && if p.el.refAttr.value in flat.elements
       then flat.elements[p.el.refAttr.value].name == Some(name) && flat.elements[p.el.refAttr.value].minOccurs == 0
       else p.el.refAttr.value.local == name
  }

  lemma ParticleDiffersExactlyWhen(flat: FlatTypeMap, p: Particle, name: string)
    ensures Taken(flat, p, name) && !Asks(flat, p, name) <==> Overstates(flat, p, name)
    ensures Asks(flat, p, name) && !Taken(flat, p, name) <==> Understates(flat, p, name)
  {
    var found := LookUp(flat, p.el);
    assert forall el :: el in found ==> el == found[0];
    assert found != [] ==> found[0] in found;
  }

  // ----- The elements of a level are what its particles stand for

  ghost predicate Yields(flat: FlatTypeMap, ps: seq<Particle>, el: Element)
  {
    exists p :: p in ps && el in LookUp(flat, p.el)
  }

  lemma YieldsAppend(flat: FlatTypeMap, ps: seq<Particle>, qs: seq<Particle>, el: Element)
    ensures Yields(flat, ps + qs, el) <==> Yields(flat, ps, el) || Yields(flat, qs, el)
  {
    hide LookUp;
    if Yields(flat, ps, el) {
      var p :| p in ps && el in LookUp(flat, p.el);
      assert p in ps + qs;
    }
    if Yields(flat, qs, el) {
      var p :| p in qs && el in LookUp(flat, p.el);
      assert p in ps + qs;
    }
  }

  lemma YieldsOne(flat: FlatTypeMap, p: Particle, el: Element)
    ensures Yields(flat, [p], el) <==> el in LookUp(flat, p.el)
  {
    hide LookUp;
    assert p in [p];
  }

  lemma {:induction false} ExpandedIsYielded(
      flat: FlatTypeMap, ranks: Ranks, els: seq<Element>, optional: bool, el: Element)
    requires Ranked(flat, ranks)
    ensures el in Expand(flat, ranks, els) <==> Yields(flat, Opened(flat, ranks, els, optional), el)
    decreases Depth(flat, ranks, els), |els|
  {
    if els != [] {
      var rest := Opened(flat, ranks, els[1..], optional);
      ExpandedIsYielded(flat, ranks, els[1..], optional, el);
      hide Yields, LookUp;
      if IsGroupRef(flat, els[0]) {
        var group, within := flat.groups[els[0].refAttr.value].elements, MayBeAbsent(flat, els[0], optional);
        ExpandedIsYielded(flat, ranks, group, within, el);
        YieldsAppend(flat, Opened(flat, ranks, group, within), rest, el);
      } else {
        YieldsOne(flat, Particle(els[0], optional), el);
        YieldsAppend(flat, [Particle(els[0], optional)], rest, el);
      }
    }
  }

  lemma {:induction false} LevelIsYielded(flat: FlatTypeMap, ranks: Ranks, level: Content, el: Element)
    requires Ranked(flat, ranks) && Bases(level) == {}
    ensures el in LevelElements(flat, ranks, level) <==> Yields(flat, LevelParticles(flat, ranks, level), el)
  {
    match level
    case Sequence(els) => ExpandedIsYielded(flat, ranks, els, false, el);
    case All(els) => ExpandedIsYielded(flat, ranks, els, false, el);
    case Choice(els) => ExpandedIsYielded(flat, ranks, els, true, el);
    case Restriction(_, inner) => LevelIsYielded(flat, ranks, inner, el);
    case _ =>
  }

  lemma {:induction false} AllIsYielded(flat: FlatTypeMap, ranks: Ranks, levels: seq<Content>, el: Element)
    requires Ranked(flat, ranks) && (forall i :: 0 <= i < |levels| ==> Bases(levels[i]) == {})
    ensures el in AllElements(flat, ranks, levels) <==> Yields(flat, AllParticles(flat, ranks, levels), el)
  {
    if levels != [] {
      AllIsYielded(flat, ranks, levels[1..], el);
      LevelIsYielded(flat, ranks, levels[0], el);
      hide Yields, LevelElements, LevelParticles;
      YieldsAppend(flat, LevelParticles(flat, ranks, levels[0]), AllParticles(flat, ranks, levels[1..]), el);
    }
  }

  /** A name is demanded exactly when some particle is taken to require it. */
  lemma DemandedIsTaken(flat: FlatTypeMap, ranks: Ranks, levels: seq<Content>, name: string)
    requires Ranked(flat, ranks) && (forall i :: 0 <= i < |levels| ==> Bases(levels[i]) == {})
    ensures Demanded(flat, ranks, levels, name) <==>
            exists p :: p in AllParticles(flat, ranks, levels) && Taken(flat, p, name)
  {
    RequiredAreDemanded(flat, ranks, levels, name);
    RequiredFromHolds(AllElements(flat, ranks, levels), name);
    hide AllElements, AllParticles, LookUp, Requires, Demanded, RequiredFrom;
    var els, ps := AllElements(flat, ranks, levels), AllParticles(flat, ranks, levels);
    if el :| el in els && Requires(el, name) {
      AllIsYielded(flat, ranks, levels, el);
      var p :| p in ps && el in LookUp(flat, p.el);
      assert Taken(flat, p, name);
    }
    if p :| p in ps && Taken(flat, p, name) {
      var el :| el in LookUp(flat, p.el) && Requires(el, name);
      assert Yields(flat, ps, el);
      AllIsYielded(flat, ranks, levels, el);
    }
  }

  lemma {:induction false} LevelsHaveNoBases(flat: FlatTypeMap, content: Content, bases: seq<QName>)
    requires AllOneLevel(flat) && OneLevel(content)
    ensures var levels := Levels(flat, content, bases); forall i :: 0 <= i < |levels| ==> Bases(levels[i]) == {}
  {
  }

  // ----- Bodies that separate the two

  function AskedNames(flat: FlatTypeMap, ps: seq<Particle>): seq<string>
  {
    if ps == [] then [] else
      (if NameOf(flat, ps[0].el).Some? && Asks(flat, ps[0], NameOf(flat, ps[0].el).value)
       then [NameOf(flat, ps[0].el).value] else [])
      + AskedNames(flat, ps[1..])
  }

  lemma {:induction false} AskedNamesAre(flat: FlatTypeMap, ps: seq<Particle>, name: string)
    ensures name in AskedNames(flat, ps) <==> exists p :: p in ps && Asks(flat, p, name)
  {
    if ps != [] {
      AskedNamesAre(flat, ps[1..], name);
      assert ps == [ps[0]] + ps[1..];
      assert ps[0] in ps;
    }
  }

  /** Everything demanded of a name is asked for somewhere. */
  ghost predicate NothingOverstated(flat: FlatTypeMap, ranks: Ranks, levels: seq<Content>)
    requires Ranked(flat, ranks)
  {
    forall p, n :: p in AllParticles(flat, ranks, levels) && Overstates(flat, p, n) ==> Asked(flat, ranks, levels, n)
  }

  /** And everything asked for is demanded somewhere. */
  ghost predicate NothingUnderstated(flat: FlatTypeMap, ranks: Ranks, levels: seq<Content>)
    requires Ranked(flat, ranks)
  {
    forall p, n :: p in AllParticles(flat, ranks, levels) && Understates(flat, p, n) ==>
      Demanded(flat, ranks, levels, n)
  }

  lemma AskedIsDemandedExactlyWhen(flat: FlatTypeMap, ranks: Ranks, levels: seq<Content>)
    requires Ranked(flat, ranks) && (forall i :: 0 <= i < |levels| ==> Bases(levels[i]) == {})
    ensures (forall n :: Asked(flat, ranks, levels, n) <==> Demanded(flat, ranks, levels, n))
            <==> NothingOverstated(flat, ranks, levels) && NothingUnderstated(flat, ranks, levels)
  {
    hide AllParticles, Asks, Taken, Overstates, Understates, Demanded;
    forall n
      ensures Demanded(flat, ranks, levels, n) <==>
              exists p :: p in AllParticles(flat, ranks, levels) && Taken(flat, p, n)
    {
      DemandedIsTaken(flat, ranks, levels, n);
    }
    forall p, n
      ensures Taken(flat, p, n) && !Asks(flat, p, n) <==> Overstates(flat, p, n)
      ensures Asks(flat, p, n) && !Taken(flat, p, n) <==> Understates(flat, p, n)
    {
      ParticleDiffersExactlyWhen(flat, p, n);
    }
  }

  lemma {:induction false} ChoiceAsksNothing(flat: FlatTypeMap, ranks: Ranks, els: seq<Element>)
    requires Ranked(flat, ranks)
    ensures forall p :: p in Opened(flat, ranks, els, true) ==> p.optional
    decreases Depth(flat, ranks, els), |els|
  {
    if els != [] {
      ChoiceAsksNothing(flat, ranks, els[1..]);
      if IsGroupRef(flat, els[0]) {
        ChoiceAsksNothing(flat, ranks, flat.groups[els[0].refAttr.value].elements);
      }
    }
  }

  lemma {:induction false} ChoiceLevelAsksNothing(flat: FlatTypeMap, ranks: Ranks, level: Content)
    requires Ranked(flat, ranks) && IsChoice(level)
    ensures forall p :: p in LevelParticles(flat, ranks, level) ==> p.optional
  {
    if level.Restriction? {
      ChoiceLevelAsksNothing(flat, ranks, level.inner);
    } else {
      ChoiceAsksNothing(flat, ranks, level.elements);
    }
  }

  /**
    Every request gets the verdict the schema's own particles call for exactly when the type is a lone choice, or every
    name demanded without being asked for is asked for by another particle, and every name asked for without being
    demanded is demanded by another.
   */
  lemma VerdictsAreTheSchemasExactlyWhen(
      registry: Registry, t: QName, flat: FlatTypeMap, ranks: Ranks, env: Env, raw: ComplexType, bases: seq<QName>)
    requires Resolved(flat, ranks, env, raw, bases) && RegisteredAs(registry, t, flat, ranks, env, raw)
    ensures var levels := Levels(flat, raw.content, bases);
      (forall body :: Accepted(Events(body), registry, Some(t)) <==> MeetsSchema(flat, ranks, levels, body))
      <==> LoneChoice(levels)
           || (NothingOverstated(flat, ranks, levels) && NothingUnderstated(flat, ranks, levels))
  {
    var levels := Levels(flat, raw.content, bases);
    forall body ensures Accepted(Events(body), registry, Some(t)) <==> Satisfied(flat, ranks, levels, body) {
      AcceptedExactlyWhen(registry, t, flat, ranks, env, raw, bases, body);
    }
    LevelsHaveNoBases(flat, raw.content, bases);
    hide Levels, Resolved, RegisteredAs, Accepted, Ranked, Satisfied, MeetsSchema;
    VerdictsMatchExactlyWhen(flat, ranks, levels);
  }

  lemma VerdictsMatchExactlyWhen(flat: FlatTypeMap, ranks: Ranks, levels: seq<Content>)
    requires Ranked(flat, ranks) && (forall i :: 0 <= i < |levels| ==> Bases(levels[i]) == {})
    ensures (forall body :: Satisfied(flat, ranks, levels, body) <==> MeetsSchema(flat, ranks, levels, body))
            <==> LoneChoice(levels)
                 || (NothingOverstated(flat, ranks, levels) && NothingUnderstated(flat, ranks, levels))
  {
    AskedIsDemandedExactlyWhen(flat, ranks, levels);
    if LoneChoice(levels) {
      ChoiceLevelAsksNothing(flat, ranks, levels[0]);
      assert levels[1..] == [];
      assert AllParticles(flat, ranks, levels) == LevelParticles(flat, ranks, levels[0]) + [];
      assert forall n :: !Asked(flat, ranks, levels, n);
    } else {
      var asked := AskedNames(flat, AllParticles(flat, ranks, levels));
      var demanded := RequiredFrom(AllElements(flat, ranks, levels));
      hide NothingOverstated, NothingUnderstated, LoneChoice, AllElements, AllParticles, ChildNames;
      forall n
        ensures n in ChildNames(BodyWith(asked)) <==> Asked(flat, ranks, levels, n)
        ensures n in ChildNames(BodyWith(demanded)) <==> Demanded(flat, ranks, levels, n)
      {
        AskedNamesAre(flat, AllParticles(flat, ranks, levels), n);
        RequiredAreDemanded(flat, ranks, levels, n);
        BodyHas(asked, n);
        BodyHas(demanded, n);
      }
      hide Demanded, Asked;
      assert MeetsSchema(flat, ranks, levels, BodyWith(asked));
      assert Satisfied(flat, ranks, levels, BodyWith(demanded));
    }
  }

  // ----- An optional reference

  const X := QName(None, "x")
  const TOP := QName(None, "T")
  const X_ELEMENT := Element(Some("x"), None, None, 1, Some(1), None)
  const OPTIONAL_X := Element(None, None, None, 0, Some(1), Some(X))

  /** A global element `x`, and a type whose only particle is an optional reference to it. */
  function OptionalSchema(): FlatTypeMap
  {
    FlatTypeMap(map[TOP := Complex(ComplexType(None, Sequence([OPTIONAL_X]), []))], map[X := X_ELEMENT], map[], map[])
  }

  /** An optional reference is demanded all the same: an empty body meets this schema, and is rejected. */
  lemma OptionalReferenceIsDemanded(ranks: Ranks, env: Env)
    requires Ranked(OptionalSchema(), ranks) && Solution(OptionalSchema(), ranks, env)
    ensures MeetsSchema(OptionalSchema(), ranks, [Sequence([OPTIONAL_X])], BodyWith([]))
    ensures !Accepted(Events(BodyWith([])), RegistryOf(OptionalSchema(), ranks, env), Some(TOP))
  {
    var flat, level := OptionalSchema(), Sequence([OPTIONAL_X]);
    var raw := flat.types[TOP].complex;
    assert IsComplex(flat, TOP);
    NamedAndAnonymousTypesAreRegistered(flat, ranks, env, TOP);
    assert [OPTIONAL_X][1..] == [] && [level][1..] == [];
    assert Opened(flat, ranks, [], false) == [] && LevelParticles(flat, ranks, level) == [Particle(OPTIONAL_X, false)];
    assert AllParticles(flat, ranks, [level]) == [Particle(OPTIONAL_X, false)] + [];
    assert HasBases(flat, raw.content, []) && AllOneLevel(flat);
    AcceptedExactlyWhen(RegistryOf(flat, ranks, env), TOP, flat, ranks, env, raw, [], BodyWith([]));
    assert Levels(flat, raw.content, []) == [level];
    LookedUp(ranks);
    assert Demanded(flat, ranks, [level], "x");
    BodyHas([], "x");
  }

  lemma LookedUp(ranks: Ranks)
    requires Ranked(OptionalSchema(), ranks)
    ensures Demands(OptionalSchema(), ranks, Sequence([OPTIONAL_X]), "x")
  {
    var flat, els := OptionalSchema(), [OPTIONAL_X];
    assert els[1..] == [] && Expand(flat, ranks, []) == [];
    assert Expand(flat, ranks, els) == [X_ELEMENT] + [];
    assert X_ELEMENT in LevelElements(flat, ranks, Sequence(els)) && Requires(X_ELEMENT, "x");
  }
}
