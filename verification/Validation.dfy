/** Structural validation of request bodies (src/dispatch.rs), over the registry the resolver builds. */
module Validation {
  import opened Wrappers
  import opened SchemaTypes
  import opened TypeDenotation
  import opened SchemaResolver
  import opened Xml

  // ----- Child names of the body

  /** The local names of a forest's own elements. */
  function TopNames(f: Forest): set<string>
  {
    match f
    case Nil => {}
    case Elem(name, _, _, next) => {name.local} + TopNames(next)
    case SelfClosed(name, _, next) => {name.local} + TopNames(next)
    case Leaf(_, next) => TopNames(next)
  }

  /** The local names of the children of a forest's own elements. */
  function ChildNames(f: Forest): set<string>
  {
    match f
    case Nil => {}
    case Elem(_, _, kids, next) => TopNames(kids) + ChildNames(next)
    case SelfClosed(_, _, next) => ChildNames(next)
    case Leaf(_, next) => ChildNames(next)
  }

  /** What the event loop adds to the names it has collected, at the given depth. */
  function NamesFrom(events: seq<Event>, depth: nat): set<string>
  {
    if events == [] then {} else
      match events[0]
      case Start(name, _) => (if depth == 1 then {name.local} else {}) + NamesFrom(events[1..], depth + 1)
      case Empty(name, _) => (if depth == 1 then {name.local} else {}) + NamesFrom(events[1..], depth)
      case End(_) => if depth == 0 then {} else NamesFrom(events[1..], depth - 1)
      case Chars(_) => NamesFrom(events[1..], depth)
  }

  method ParseChildElementNames(events: seq<Event>) returns (children: set<string>)
    ensures children == NamesFrom(events, 0)
  {
    children := {};
    var depth: nat, i := 0, 0;
    while i < |events|
      invariant 0 <= i <= |events|
      invariant NamesFrom(events, 0) == children + NamesFrom(events[i..], depth)
    {
      assert events[i..][1..] == events[i + 1..];
      match events[i] {
        case Start(name, _) =>
          depth := depth + 1;
          if depth == 2 {
            children := children + {name.local};
          }
        case Empty(name, _) =>
          if depth == 1 {
            children := children + {name.local};
          }
        case End(_) =>
          if depth == 0 {
            return;
          }
          depth := depth - 1;
        case Chars(_) =>
      }
      i := i + 1;
    }
  }

  /** Below the children, the loop passes over a whole forest without collecting anything. */
  lemma {:induction false} NamesBelow(f: Forest, rest: seq<Event>, depth: nat)
    requires depth >= 2
    ensures NamesFrom(EventsThen(f, rest), depth) == NamesFrom(rest, depth)
  {
    match f
    case Nil =>
    case Elem(name, _, kids, next) =>
      NamesBelow(kids, [End(name)] + EventsThen(next, rest), depth + 1);
      NamesBelow(next, rest, depth);
    case SelfClosed(_, _, next) => NamesBelow(next, rest, depth);
    case Leaf(_, next) => NamesBelow(next, rest, depth);
  }

  lemma {:induction false} NamesOfKids(f: Forest, rest: seq<Event>)
    ensures NamesFrom(EventsThen(f, rest), 1) == TopNames(f) + NamesFrom(rest, 1)
  {
    match f
    case Nil =>
    case Elem(name, _, kids, next) =>
      NamesBelow(kids, [End(name)] + EventsThen(next, rest), 2);
      NamesOfKids(next, rest);
    case SelfClosed(_, _, next) => NamesOfKids(next, rest);
    case Leaf(_, next) => NamesOfKids(next, rest);
  }

  /** On any well-formed stream the loop collects exactly the root's child names. */
  lemma {:induction false} NamesAreChildNames(f: Forest, rest: seq<Event>)
    ensures NamesFrom(EventsThen(f, rest), 0) == ChildNames(f) + NamesFrom(rest, 0)
  {
    match f
    case Nil =>
    case Elem(name, _, kids, next) =>
      NamesOfKids(kids, [End(name)] + EventsThen(next, rest));
      NamesAreChildNames(next, rest);
    case SelfClosed(_, _, next) => NamesAreChildNames(next, rest);
    case Leaf(_, next) => NamesAreChildNames(next, rest);
  }

  /** How deep in elements the event at this index stands, counting from `depth`. */
  function DepthAt(events: seq<Event>, i: nat, depth: int): int
    requires i <= |events|
  {
    if i == 0 then depth
    else DepthAt(events, i - 1, depth)
         + (if events[i - 1].Start? then 1 else if events[i - 1].End? then -1 else 0)
  }

  /** A tag of this name, one level below the root, with no end tag before it that ends nothing. */
  predicate IsChildTag(events: seq<Event>, i: nat, depth: int, n: string)
  {
    && i < |events| && (events[i].Start? || events[i].Empty?) && events[i].name.local == n
    && DepthAt(events, i, depth) == 1 && forall k :: 0 <= k <= i ==> DepthAt(events, k, depth) >= 0
  }

  lemma {:induction false} DepthFromHere(events: seq<Event>, i: nat, depth: int)
    requires events != [] && i < |events|
    ensures DepthAt(events, i + 1, depth) == DepthAt(events[1..], i, DepthAt(events, 1, depth))
  {
    if i > 0 {
      DepthFromHere(events, i - 1, depth);
    }
  }

  lemma ChildTagFromHere(events: seq<Event>, i: nat, depth: nat, n: string)
    requires events != []
    ensures IsChildTag(events, i + 1, depth, n) <==> IsChildTag(events[1..], i, DepthAt(events, 1, depth), n)
  {
    forall k: nat | k < |events|
      ensures DepthAt(events, k + 1, depth) == DepthAt(events[1..], k, DepthAt(events, 1, depth))
    {
      DepthFromHere(events, k, depth);
    }
    assert DepthAt(events, 0, depth) == depth;
    var rest, inner := events[1..], DepthAt(events, 1, depth);
    if IsChildTag(events, i + 1, depth, n) {
      forall k | 0 <= k <= i ensures DepthAt(rest, k, inner) >= 0 {
        assert DepthAt(events, k + 1, depth) >= 0;
      }
    }
    if IsChildTag(rest, i, inner, n) {
      forall k | 0 <= k <= i + 1 ensures DepthAt(events, k, depth) >= 0 {
        assert k > 0 ==> DepthAt(rest, k - 1, inner) >= 0;
      }
    }
  }

  lemma {:induction false} CollectedFromHere(events: seq<Event>, depth: nat, n: string)
    ensures n in NamesFrom(events, depth) <==> exists i: nat :: IsChildTag(events, i, depth, n)
    decreases |events|
  {
    if events != [] {
      assert DepthAt(events, 0, depth) == depth;
      var rest, inner := events[1..], DepthAt(events, 1, depth);
      if inner >= 0 {
        CollectedFromHere(rest, inner, n);
      } else {
        assert forall i: nat :: IsChildTag(rest, i, inner, n) ==> DepthAt(rest, 0, inner) >= 0;
      }
      FirstOrLater(events, depth, n);
    }
  }

  lemma FirstOrLater(events: seq<Event>, depth: nat, n: string)
    requires events != []
    ensures (exists i: nat :: IsChildTag(events, i, depth, n)) <==>
            || IsChildTag(events, 0, depth, n)
            || exists i: nat :: IsChildTag(events[1..], i, DepthAt(events, 1, depth), n)
  {
    var rest, inner := events[1..], DepthAt(events, 1, depth);
    hide IsChildTag;
    if i: nat :| IsChildTag(events, i, depth, n) {
      if i > 0 {
        ChildTagFromHere(events, i - 1, depth, n);
      }
    }
    if i: nat :| IsChildTag(rest, i, inner, n) {
      ChildTagFromHere(events, i, depth, n);
    }
  }

  /** On any stream the loop collects the names of the tags one level below the root, up to the first stray end tag. */
  lemma CollectedAreChildTags(events: seq<Event>, n: string)
    ensures n in NamesFrom(events, 0) <==> exists i: nat :: IsChildTag(events, i, 0, n)
  {
    CollectedFromHere(events, 0, n);
  }

  // ----- Required names

  predicate Requires(el: Element, name: string) { el.minOccurs > 0 && el.name == Some(name) }

  function RequiredFrom(els: seq<Element>): seq<string>
  {
    if els == [] then [] else
      (if els[0].minOccurs > 0 && els[0].name.Some? then [els[0].name.value] else []) + RequiredFrom(els[1..])
  }

  /** A choice demands nothing; anything unflattened is looked into. */
  function CollectRequired(content: Content): seq<string>
  {
    match content
    case Sequence(els) => RequiredFrom(els)
    case All(els) => RequiredFrom(els)
    case Choice(_) => []
    case Extension(_, inner) => CollectRequired(inner)
    case Restriction(_, inner) => CollectRequired(inner)
    case EmptyContent => []
    case SimpleContent(_, _) => []
  }

  function RequiredNames(t: XsdType): seq<string>
  {
    match t
    case Complex(ct) => CollectRequired(ct.content)
    case Simple(_) => []
  }

  lemma {:induction false} RequiredFromHolds(els: seq<Element>, name: string)
    ensures name in RequiredFrom(els) <==> exists el :: el in els && Requires(el, name)
  {
    if els != [] {
      RequiredFromHolds(els[1..], name);
      assert els == [els[0]] + els[1..];
      assert Requires(els[0], name) ==> els[0] in els;
    }
  }

  /** A content model with extension and restriction looked through. */
  function Innermost(content: Content): Content
  {
    if content.Extension? || content.Restriction? then Innermost(content.inner) else content
  }

  /** What is collected: the named elements of a sequence or an `all` that have to occur. */
  lemma {:induction false} CollectedAreRequired(content: Content, name: string)
    ensures name in CollectRequired(content) <==>
            && (Innermost(content).Sequence? || Innermost(content).All?)
            && exists el :: el in Innermost(content).elements && el.minOccurs > 0 && el.name == Some(name)
  {
    if content.Extension? || content.Restriction? {
      CollectedAreRequired(content.inner, name);
    } else if content.Sequence? || content.All? {
      RequiredFromHolds(content.elements, name);
    }
  }

  // ----- validate_request

  datatype ValidationFault = MissingElement(name: string)

  method ValidateRequest(body: seq<Event>, registry: Registry, inputType: Option<QName>)
    returns (r: Result<(), ValidationFault>)
    ensures r.Ok? <==>
            (inputType.Some? && inputType.value in registry ==>
               forall n :: n in RequiredNames(registry[inputType.value]) ==> n in NamesFrom(body, 0))
    ensures r.Err? ==>
            && inputType.Some? && inputType.value in registry
            && r.error.name in RequiredNames(registry[inputType.value]) && r.error.name !in NamesFrom(body, 0)
  {
    if inputType.None? || inputType.value !in registry {
      return Ok(());
    }
    var required := RequiredNames(registry[inputType.value]);
    if required == [] {
      return Ok(());
    }
    var present := ParseChildElementNames(body);
    for i := 0 to |required|
      invariant forall k :: 0 <= k < i ==> required[k] in present
    {
      if required[i] !in present {
        return Err(MissingElement(required[i]));
      }
    }
    return Ok(());
  }

  /** The verdict `ValidateRequest` is proved to give. */
  ghost predicate Accepted(body: seq<Event>, registry: Registry, inputType: Option<QName>)
  {
    inputType.Some? && inputType.value in registry ==>
      forall n :: n in RequiredNames(registry[inputType.value]) ==> n in NamesFrom(body, 0)
  }

  // ----- What a registered type demands

  /** A content model that is a choice, seen through restrictions. */
  predicate IsChoice(content: Content)
  {
    content.Choice? || (content.Restriction? && IsChoice(content.inner))
  }

  ghost predicate Demands(flat: FlatTypeMap, ranks: Ranks, level: Content, name: string)
    requires Ranked(flat, ranks)
  {
    exists el :: el in LevelElements(flat, ranks, level) && Requires(el, name)
  }

  /** Some level has a required element of this name. */
  ghost predicate Demanded(flat: FlatTypeMap, ranks: Ranks, levels: seq<Content>, name: string)
    requires Ranked(flat, ranks)
  {
    exists i :: 0 <= i < |levels| && Demands(flat, ranks, levels[i], name)
  }

  /** Some level that is not a choice has one. */
  ghost predicate DemandedOutsideChoices(flat: FlatTypeMap, ranks: Ranks, levels: seq<Content>, name: string)
    requires Ranked(flat, ranks)
  {
    exists i :: 0 <= i < |levels| && !IsChoice(levels[i]) && Demands(flat, ranks, levels[i], name)
  }

  /** A choice that extends nothing. */
  predicate LoneChoice(levels: seq<Content>) { |levels| == 1 && IsChoice(levels[0]) }

  /** The body has every element required at any level, or the type is a lone choice. */
  ghost predicate Satisfied(flat: FlatTypeMap, ranks: Ranks, levels: seq<Content>, body: Forest)
    requires Ranked(flat, ranks)
  {
    LoneChoice(levels) || forall n :: Demanded(flat, ranks, levels, n) ==> n in ChildNames(body)
  }

  /** The body has every element required at a level that is not a choice. */
  ghost predicate SatisfiedOutsideChoices(flat: FlatTypeMap, ranks: Ranks, levels: seq<Content>, body: Forest)
    requires Ranked(flat, ranks)
  {
    forall n :: DemandedOutsideChoices(flat, ranks, levels, n) ==> n in ChildNames(body)
  }

  /** The registry holds `raw`, flattened, under the name `t`. */
  ghost predicate RegisteredAs(
      registry: Registry, t: QName, flat: FlatTypeMap, ranks: Ranks, env: Env, raw: ComplexType)
    requires Ranked(flat, ranks)
  {
    t in registry && registry[t] == Complex(FlattenedType(flat, ranks, env, raw))
  }

  /** `raw` is one of the parser's types, over types that are resolved, and these are its bases. */
  ghost predicate Resolved(flat: FlatTypeMap, ranks: Ranks, env: Env, raw: ComplexType, bases: seq<QName>)
  {
    && Ranked(flat, ranks) && Solution(flat, ranks, env) && AllOneLevel(flat)
    && OneLevel(raw.content) && HasBases(flat, raw.content, bases)
  }

  /** Both kinds of type validation meets: declared ones, and anonymous ones under their element's name. */
  lemma NamedAndAnonymousTypesAreRegistered(flat: FlatTypeMap, ranks: Ranks, env: Env, q: QName)
    requires Ranked(flat, ranks) && Solution(flat, ranks, env)
    ensures IsComplex(flat, q) ==>
              RegisteredAs(RegistryOf(flat, ranks, env), q, flat, ranks, env, flat.types[q].complex)
    ensures q in flat.elements && InlineComplex(flat.elements[q]) && q !in flat.types ==>
              RegisteredAs(RegistryOf(flat, ranks, env), q, flat, ranks, env, flat.elements[q].inlineType.value.complex)
  {
  }

  lemma {:induction false} FlattenedShape(flat: FlatTypeMap, ranks: Ranks, env: Env, content: Content)
    requires Ranked(flat, ranks) && Bases(content) == {}
    ensures var f := Flattened(flat, ranks, env, content);
            && (f.Choice? <==> IsChoice(content))
            && (!f.Choice? ==> CollectRequired(f) == RequiredFrom(Elements(f)))
  {
    if content.Restriction? {
      FlattenedShape(flat, ranks, env, content.inner);
    }
  }

  lemma {:induction false} AllElementsHold(flat: FlatTypeMap, ranks: Ranks, levels: seq<Content>, el: Element)
    requires Ranked(flat, ranks)
    ensures el in AllElements(flat, ranks, levels) <==>
            exists i :: 0 <= i < |levels| && el in LevelElements(flat, ranks, levels[i])
  {
    hide LevelElements;
    if levels != [] {
      AllElementsHold(flat, ranks, levels[1..], el);
      if i :| 0 <= i < |levels[1..]| && el in LevelElements(flat, ranks, levels[1..][i]) {
        assert levels[1..][i] == levels[i + 1];
      }
      if i :| 1 <= i < |levels| && el in LevelElements(flat, ranks, levels[i]) {
        assert levels[i] == levels[1..][i - 1];
      }
    }
  }

  lemma RequiredAreDemanded(flat: FlatTypeMap, ranks: Ranks, levels: seq<Content>, name: string)
    requires Ranked(flat, ranks)
    ensures name in RequiredFrom(AllElements(flat, ranks, levels)) <==> Demanded(flat, ranks, levels, name)
  {
    hide LevelElements, AllElements;
    RequiredFromHolds(AllElements(flat, ranks, levels), name);
    forall el ensures el in AllElements(flat, ranks, levels) <==>
                      exists i :: 0 <= i < |levels| && el in LevelElements(flat, ranks, levels[i]) {
      AllElementsHold(flat, ranks, levels, el);
    }
  }

  /** The names validation collects for a registered type are those some level demands, unless it is a lone choice. */
  lemma CollectedAreDemanded(
      flat: FlatTypeMap, ranks: Ranks, env: Env, raw: ComplexType, bases: seq<QName>, name: string)
    requires Resolved(flat, ranks, env, raw, bases)
    ensures var levels := Levels(flat, raw.content, bases);
      name in CollectRequired(Flattened(flat, ranks, env, raw.content))
      <==> !LoneChoice(levels) && Demanded(flat, ranks, levels, name)
  {
    var levels := Levels(flat, raw.content, bases);
    BaseElementsFirst(flat, ranks, env, raw.content, bases);
    RequiredAreDemanded(flat, ranks, levels, name);
    if !raw.content.Extension? {
      FlattenedShape(flat, ranks, env, raw.content);
    }
  }

  /** A request is accepted exactly when it has every element required at any level, or its type is a lone choice. */
  lemma AcceptedExactlyWhen(
      registry: Registry, t: QName, flat: FlatTypeMap, ranks: Ranks, env: Env, raw: ComplexType, bases: seq<QName>,
      body: Forest)
    requires Resolved(flat, ranks, env, raw, bases) && RegisteredAs(registry, t, flat, ranks, env, raw)
    ensures Accepted(Events(body), registry, Some(t))
            <==> Satisfied(flat, ranks, Levels(flat, raw.content, bases), body)
  {
    NamesAreChildNames(body, []);
    assert NamesFrom([], 0) == {} && ChildNames(body) + {} == ChildNames(body);
    forall n
      ensures n in RequiredNames(registry[t]) <==>
              !LoneChoice(Levels(flat, raw.content, bases))
              && Demanded(flat, ranks, Levels(flat, raw.content, bases), n)
    {
      CollectedAreDemanded(flat, ranks, env, raw, bases, n);
    }
    hide Demanded, LoneChoice, Resolved, Levels, Ranked;
  }

  // ----- When the branches of a choice are not required

  /** A lone choice accepts every body. */
  lemma LoneChoiceAcceptsEverything(
      registry: Registry, t: QName, flat: FlatTypeMap, ranks: Ranks, env: Env, raw: ComplexType, body: seq<Event>)
    requires Ranked(flat, ranks) && RegisteredAs(registry, t, flat, ranks, env, raw)
    requires Bases(raw.content) == {} && IsChoice(raw.content)
    ensures Accepted(body, registry, Some(t))
  {
    FlattenedShape(flat, ranks, env, raw.content);
  }

  /** A body with exactly these children. */
  function BodyWith(names: seq<string>): Forest
  {
    Elem(Name("", "r"), [], Childless(names), Nil)
  }

  function Childless(names: seq<string>): Forest
  {
    if names == [] then Nil else SelfClosed(Name("", names[0]), [], Childless(names[1..]))
  }

  lemma {:induction false} BodyHas(names: seq<string>, n: string)
    ensures n in TopNames(Childless(names)) <==> n in names
    ensures n in ChildNames(BodyWith(names)) <==> n in names
  {
    if names != [] {
      BodyHas(names[1..], n);
      assert names == [names[0]] + names[1..];
    }
  }

  /** The levels that are not choices. */
  function NonChoices(levels: seq<Content>): seq<Content>
  {
    if levels == [] then [] else (if IsChoice(levels[0]) then [] else [levels[0]]) + NonChoices(levels[1..])
  }

  lemma DemandedFirst(flat: FlatTypeMap, ranks: Ranks, levels: seq<Content>, name: string)
    requires Ranked(flat, ranks) && levels != []
    ensures Demanded(flat, ranks, levels, name)
            <==> Demands(flat, ranks, levels[0], name) || Demanded(flat, ranks, levels[1..], name)
    ensures DemandedOutsideChoices(flat, ranks, levels, name)
            <==> (!IsChoice(levels[0]) && Demands(flat, ranks, levels[0], name))
                 || DemandedOutsideChoices(flat, ranks, levels[1..], name)
  {
    hide Demands, IsChoice;
    var rest := levels[1..];
    assert forall i :: 1 <= i < |levels| ==> levels[i] == rest[i - 1];
    if i :| 0 <= i < |rest| && Demands(flat, ranks, rest[i], name) {
      assert levels[i + 1] == rest[i];
    }
    if i :| 0 <= i < |rest| && !IsChoice(rest[i]) && Demands(flat, ranks, rest[i], name) {
      assert levels[i + 1] == rest[i];
    }
  }

  lemma {:induction false} NonChoicesDemand(flat: FlatTypeMap, ranks: Ranks, levels: seq<Content>, name: string)
    requires Ranked(flat, ranks)
    ensures Demanded(flat, ranks, NonChoices(levels), name) <==> DemandedOutsideChoices(flat, ranks, levels, name)
  {
    if levels != [] {
      hide Demands, IsChoice;
      var rest, kept := levels[1..], NonChoices(levels);
      NonChoicesDemand(flat, ranks, rest, name);
      DemandedFirst(flat, ranks, levels, name);
      if !IsChoice(levels[0]) {
        assert kept == [levels[0]] + NonChoices(rest);
        assert kept[1..] == NonChoices(rest);
        DemandedFirst(flat, ranks, kept, name);
      } else {
        assert kept == NonChoices(rest);
      }
      hide Demanded, DemandedOutsideChoices;
    }
  }

  /** Whatever a choice on the chain demands is demanded beside it as well. */
  ghost predicate ChoicesAddNothing(flat: FlatTypeMap, ranks: Ranks, levels: seq<Content>)
    requires Ranked(flat, ranks)
  {
    forall i, n :: 0 <= i < |levels| && IsChoice(levels[i]) && Demands(flat, ranks, levels[i], n) ==>
      DemandedOutsideChoices(flat, ranks, levels, n)
  }

  /**
    The branches of choices are exempt exactly when the type extends nothing, or no choice on its chain requires an
    element that is not required beside the choices anyway.
   */
  lemma ChoicesAreExemptExactlyWhen(
      registry: Registry, t: QName, flat: FlatTypeMap, ranks: Ranks, env: Env, raw: ComplexType, bases: seq<QName>)
    requires Resolved(flat, ranks, env, raw, bases) && RegisteredAs(registry, t, flat, ranks, env, raw)
    ensures var levels := Levels(flat, raw.content, bases);
      (forall body :: Accepted(Events(body), registry, Some(t)) <==> SatisfiedOutsideChoices(flat, ranks, levels, body))
      <==> |levels| == 1 || ChoicesAddNothing(flat, ranks, levels)
  {
    var levels := Levels(flat, raw.content, bases);
    forall body ensures Accepted(Events(body), registry, Some(t)) <==> Satisfied(flat, ranks, levels, body) {
      AcceptedExactlyWhen(registry, t, flat, ranks, env, raw, bases, body);
    }
    hide Levels, Resolved, RegisteredAs, Accepted, Ranked;
    ExemptExactlyWhen(flat, ranks, levels);
  }

  lemma ExemptExactlyWhen(flat: FlatTypeMap, ranks: Ranks, levels: seq<Content>)
    requires Ranked(flat, ranks) && levels != []
    ensures (forall body ::
               Satisfied(flat, ranks, levels, body) <==> SatisfiedOutsideChoices(flat, ranks, levels, body))
            <==> |levels| == 1 || ChoicesAddNothing(flat, ranks, levels)
  {
    hide Demands, IsChoice, ChildNames;
    if |levels| > 1 {
      var names := RequiredFrom(AllElements(flat, ranks, NonChoices(levels)));
      var least := BodyWith(names);
      forall n ensures n in ChildNames(least) <==> DemandedOutsideChoices(flat, ranks, levels, n) {
        RequiredAreDemanded(flat, ranks, NonChoices(levels), n);
        NonChoicesDemand(flat, ranks, levels, n);
        BodyHas(names, n);
      }
      assert SatisfiedOutsideChoices(flat, ranks, levels, least);
      assert Satisfied(flat, ranks, levels, least) <==> ChoicesAddNothing(flat, ranks, levels);
    }
  }

  // ----- A choice inside a chain

  const A := Element(Some("a"), None, None, 1, Some(1), None)
  const B := Element(Some("b"), None, None, 1, Some(1), None)
  const BASE := QName(None, "Base")
  const DERIVED := QName(None, "Derived")

  /** A base type that is a choice between `a` and `b`, and a type that extends it with nothing. */
  function ChoiceSchema(): FlatTypeMap
  {
    FlatTypeMap(
      map[BASE := Complex(ComplexType(None, Choice([A, B]), [])),
          DERIVED := Complex(ComplexType(None, Extension(BASE, EmptyContent), []))],
      map[], map[], map[])
  }

  lemma ChoiceDemandsBranch(ranks: Ranks)
    requires Ranked(ChoiceSchema(), ranks)
    ensures Demands(ChoiceSchema(), ranks, Choice([A, B]), "b")
    ensures forall n :: !Demands(ChoiceSchema(), ranks, EmptyContent, n)
  {
    var els := [A, B];
    ExpandFrom(ChoiceSchema(), ranks, els, 0);
    assert els[0..] == els && els[1..] == [B];
    ExpandFrom(ChoiceSchema(), ranks, els, 1);
    assert B in LevelElements(ChoiceSchema(), ranks, Choice(els)) && Requires(B, "b");
  }

  /** The exemption is lost through extension: in this schema the derived type demands a branch of the base's choice. */
  lemma ChoiceInChainDemandsEveryBranch(ranks: Ranks, env: Env)
    requires Ranked(ChoiceSchema(), ranks) && Solution(ChoiceSchema(), ranks, env)
    ensures forall body :: Accepted(body, RegistryOf(ChoiceSchema(), ranks, env), Some(BASE))
    ensures !Accepted(Events(BodyWith(["a"])), RegistryOf(ChoiceSchema(), ranks, env), Some(DERIVED))
  {
    var flat := ChoiceSchema();
    assert IsComplex(flat, BASE) && IsComplex(flat, DERIVED);
    var base, derived := flat.types[BASE].complex, flat.types[DERIVED].complex;
    NamedAndAnonymousTypesAreRegistered(flat, ranks, env, BASE);
    NamedAndAnonymousTypesAreRegistered(flat, ranks, env, DERIVED);
    forall body ensures Accepted(body, RegistryOf(flat, ranks, env), Some(BASE)) {
      LoneChoiceAcceptsEverything(RegistryOf(flat, ranks, env), BASE, flat, ranks, env, base, body);
    }
    assert HasBases(flat, derived.content, [BASE]) && AllOneLevel(flat);
    AcceptedExactlyWhen(RegistryOf(flat, ranks, env), DERIVED, flat, ranks, env, derived, [BASE], BodyWith(["a"]));
    var levels := Levels(flat, derived.content, [BASE]);
    ChoiceDemandsBranch(ranks);
    assert levels[1] == Choice([A, B]);
    assert Demanded(flat, ranks, levels, "b");
    BodyHas(["a"], "b");
  }
}
