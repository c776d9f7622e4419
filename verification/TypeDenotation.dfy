/**
  What a set of XSD types means once extension chains are flattened, stated as equations with no order of
  evaluation, no memo and no cycle check (XML Schema Part 1, section 3.4.2: base elements first, then own).
 */
module TypeDenotation {
  import opened Wrappers
  import opened SchemaTypes

  const ANY := "__any__"

  // ----- Group references

  predicate IsGroupRef(flat: FlatTypeMap, el: Element)
  {
    el.name != Some(ANY) && el.refAttr.Some? && el.refAttr.value in flat.groups
  }

  /** Ranks under which every group, and every attribute group, outranks those it refers to. */
  datatype Ranks = Ranks(group: QName -> nat, attributeGroup: QName -> nat)

  /** One more than the highest rank among the groups the list refers to. */
  ghost function Depth(flat: FlatTypeMap, ranks: Ranks, els: seq<Element>): nat
  {
    if els == [] then 0 else
      var here := if IsGroupRef(flat, els[0]) then ranks.group(els[0].refAttr.value) + 1 else 0;
      var rest := Depth(flat, ranks, els[1..]);
      if here > rest then here else rest
  }

  ghost predicate Ranked(flat: FlatTypeMap, ranks: Ranks)
  {
    && (forall g :: g in flat.groups ==> Depth(flat, ranks, flat.groups[g].elements) <= ranks.group(g))
    && (forall g, n :: g in flat.attributeGroups && n in flat.attributeGroups
                       && n in flat.attributeGroups[g].attributeGroups
          ==> ranks.attributeGroup(n) < ranks.attributeGroup(g))
  }

  /** An element list with group references inlined and element references looked up. */
  ghost function Expand(flat: FlatTypeMap, ranks: Ranks, els: seq<Element>): seq<Element>
    requires Ranked(flat, ranks)
    decreases Depth(flat, ranks, els), |els|
  {
    if els == [] then [] else
      (if IsGroupRef(flat, els[0]) then Expand(flat, ranks, flat.groups[els[0].refAttr.value].elements)
       else LookUp(flat, els[0]))
      + Expand(flat, ranks, els[1..])
  }

  /** What an entry that is no group reference stands for; an unknown reference stands for nothing. */
  function LookUp(flat: FlatTypeMap, el: Element): seq<Element>
  {
    if el.name == Some(ANY) || el.refAttr.None? then [el]
    else if el.refAttr.value in flat.elements then [flat.elements[el.refAttr.value]]
    else []
  }

  lemma ExpandFrom(flat: FlatTypeMap, ranks: Ranks, els: seq<Element>, i: nat)
    requires Ranked(flat, ranks) && i < |els|
    ensures Expand(flat, ranks, els[i..]) ==
            (if IsGroupRef(flat, els[i]) then Expand(flat, ranks, flat.groups[els[i].refAttr.value].elements)
             else LookUp(flat, els[i]))
            + Expand(flat, ranks, els[i + 1..])
    ensures Depth(flat, ranks, els[i + 1..]) <= Depth(flat, ranks, els[i..])
    ensures IsGroupRef(flat, els[i]) ==>
              Depth(flat, ranks, flat.groups[els[i].refAttr.value].elements) < Depth(flat, ranks, els[i..])
  {
    assert els[i..][1..] == els[i + 1..];
  }

  ghost function GroupAttributes(flat: FlatTypeMap, ranks: Ranks, g: QName): seq<Attribute>
    requires Ranked(flat, ranks) && g in flat.attributeGroups
    decreases ranks.attributeGroup(g), |flat.attributeGroups[g].attributeGroups| + 1
  {
    flat.attributeGroups[g].attributes
      + NestedAttributes(flat, ranks, g, flat.attributeGroups[g].attributeGroups)
  }

  ghost function NestedAttributes(flat: FlatTypeMap, ranks: Ranks, owner: QName, nested: seq<QName>): seq<Attribute>
    requires Ranked(flat, ranks)
    requires forall n :: n in nested && n in flat.attributeGroups ==>
               ranks.attributeGroup(n) < ranks.attributeGroup(owner)
    decreases ranks.attributeGroup(owner), |nested|
  {
    if nested == [] then [] else
      (if nested[0] in flat.attributeGroups then GroupAttributes(flat, ranks, nested[0]) else [])
      + NestedAttributes(flat, ranks, owner, nested[1..])
  }

  ghost function ExpandAttributes(flat: FlatTypeMap, ranks: Ranks, attributes: seq<Attribute>): seq<Attribute>
    requires Ranked(flat, ranks)
  {
    if attributes == [] then [] else
      var a := attributes[0];
      (if a.refAttr.Some? && a.refAttr.value in flat.attributeGroups
       then GroupAttributes(flat, ranks, a.refAttr.value) else [a])
      + ExpandAttributes(flat, ranks, attributes[1..])
  }

  // ----- Extension

  /** The elements of a content model, empty for anything not yet flattened. */
  function Elements(content: Content): seq<Element>
  {
    if content.Sequence? || content.All? || content.Choice? then content.elements else []
  }

  /** The types a content model extends, at any nesting depth. */
  function Bases(content: Content): set<QName>
  {
    match content
    case Extension(base, inner) => {base} + Bases(inner)
    case Restriction(_, inner) => Bases(inner)
    case _ => {}
  }

  predicate IsComplex(flat: FlatTypeMap, q: QName) { q in flat.types && flat.types[q].Complex? }

  predicate Extends(flat: FlatTypeMap, q: QName, base: QName)
  {
    IsComplex(flat, q) && base in Bases(flat.types[q].complex.content)
  }

  type Env = map<QName, ComplexType>

  /** The elements `base` contributes: none when it is simple or not declared. */
  function BaseElements(env: Env, base: QName): seq<Element>
  {
    if base in env then Elements(env[base].content) else []
  }

  /** A content model flattened, given the flattened types it extends. */
  ghost function Flattened(flat: FlatTypeMap, ranks: Ranks, env: Env, content: Content): Content
    requires Ranked(flat, ranks)
  {
    match content
    case Extension(base, inner) =>
      Sequence(BaseElements(env, base) + Elements(Flattened(flat, ranks, env, inner)))
    case Restriction(_, inner) => Flattened(flat, ranks, env, inner)
    case Sequence(els) => Sequence(Expand(flat, ranks, els))
    case All(els) => All(Expand(flat, ranks, els))
    case Choice(els) => Choice(Expand(flat, ranks, els))
    case SimpleContent(_, _) => content
    case EmptyContent => content
  }

  ghost function FlattenedType(flat: FlatTypeMap, ranks: Ranks, env: Env, raw: ComplexType): ComplexType
    requires Ranked(flat, ranks)
  {
    ComplexType(raw.name, Flattened(flat, ranks, env, raw.content), ExpandAttributes(flat, ranks, raw.attributes))
  }

  /** Every complex type that `content` extends has a value in `env`. */
  ghost predicate BasesIn(flat: FlatTypeMap, env: Env, content: Content)
  {
    forall b :: b in Bases(content) && IsComplex(flat, b) ==> b in env
  }

  /** `env` gives some of the complex types values that satisfy the equations. */
  ghost predicate PartialSolution(flat: FlatTypeMap, ranks: Ranks, env: Env)
    requires Ranked(flat, ranks)
  {
    forall q :: q in env ==>
      && IsComplex(flat, q)
      && BasesIn(flat, env, flat.types[q].complex.content)
      && env[q] == FlattenedType(flat, ranks, env, flat.types[q].complex)
  }

  ghost predicate Solution(flat: FlatTypeMap, ranks: Ranks, env: Env)
    requires Ranked(flat, ranks)
  {
    PartialSolution(flat, ranks, env) && (forall q :: IsComplex(flat, q) ==> q in env)
  }

  /** Flattening only looks at the bases. */
  lemma {:induction false} FlattenedAgrees(flat: FlatTypeMap, ranks: Ranks, e1: Env, e2: Env, content: Content)
    requires Ranked(flat, ranks)
    requires forall b :: b in Bases(content) ==> (b in e1 <==> b in e2) && (b in e1 ==> e1[b] == e2[b])
    ensures Flattened(flat, ranks, e1, content) == Flattened(flat, ranks, e2, content)
  {
    if content.Extension? || content.Restriction? {
      FlattenedAgrees(flat, ranks, e1, e2, content.inner);
    }
  }

  // ----- Cycles

  /** Each type on the chain extends the next. */
  ghost predicate IsChain(flat: FlatTypeMap, chain: seq<QName>)
  {
    forall i, j :: 0 <= i && j == i + 1 < |chain| ==> Extends(flat, chain[i], chain[j])
  }

  ghost predicate IsLoop(flat: FlatTypeMap, chain: seq<QName>, q: QName)
  {
    |chain| >= 2 && IsChain(flat, chain) && chain[0] == q && chain[|chain| - 1] == q
  }

  /** `q` reaches itself by going from type to base. */
  ghost predicate OnCycle(flat: FlatTypeMap, q: QName)
  {
    exists chain :: IsLoop(flat, chain, q)
  }

  ghost predicate Acyclic(flat: FlatTypeMap) { forall q :: !OnCycle(flat, q) }

  /** Heights under which every type in `keys` stands above the complex types it extends. */
  ghost predicate Layered(flat: FlatTypeMap, keys: set<QName>, height: map<QName, nat>)
  {
    forall q, b :: q in keys && Extends(flat, q, b) && IsComplex(flat, b) ==>
      b in keys && q in height && b in height && height[b] < height[q]
  }

  lemma {:induction false} HeightFalls(
      flat: FlatTypeMap, keys: set<QName>, height: map<QName, nat>, chain: seq<QName>, i: nat)
    requires Layered(flat, keys, height) && IsChain(flat, chain) && 1 <= i < |chain|
    requires chain[0] in keys && (forall k :: 0 <= k < |chain| ==> IsComplex(flat, chain[k]))
    ensures chain[i] in keys && chain[0] in height && chain[i] in height && height[chain[i]] < height[chain[0]]
  {
    assert Extends(flat, chain[i - 1], chain[i]);
    if i > 1 {
      HeightFalls(flat, keys, height, chain, i - 1);
    }
  }

  lemma LayeredIsAcyclic(flat: FlatTypeMap, keys: set<QName>, height: map<QName, nat>)
    requires Layered(flat, keys, height) && (forall q :: IsComplex(flat, q) ==> q in keys)
    ensures Acyclic(flat)
  {
    forall q, chain | IsLoop(flat, chain, q)
      ensures false
    {
      forall k | 0 <= k < |chain|
        ensures IsComplex(flat, chain[k])
      {
        if k < |chain| - 1 {
          assert Extends(flat, chain[k], chain[k + 1]);
        } else {
          assert Extends(flat, chain[0], chain[1]);
        }
      }
      HeightFalls(flat, keys, height, chain, |chain| - 1);
    }
  }

  // ----- Uniqueness

  /** Two partial solutions that differed at a type would differ at one of its bases, and so on round a cycle. */
  lemma {:induction false} AgreeBelow(
      flat: FlatTypeMap, ranks: Ranks, e1: Env, e2: Env, chain: seq<QName>, seen: set<QName>)
    requires Ranked(flat, ranks) && Acyclic(flat)
    requires PartialSolution(flat, ranks, e1) && PartialSolution(flat, ranks, e2)
    requires |chain| >= 1 && IsChain(flat, chain)
    requires chain[|chain| - 1] in e1 && chain[|chain| - 1] in e2
    requires seen == (set x | x in chain) && seen <= flat.types.Keys
    ensures e1[chain[|chain| - 1]] == e2[chain[|chain| - 1]]
    decreases flat.types.Keys - seen
  {
    var q := chain[|chain| - 1];
    var content := flat.types[q].complex.content;
    hide FlattenedType, Ranked, IsLoop;
    forall b | b in Bases(content)
      ensures (b in e1 <==> b in e2) && (b in e1 ==> e1[b] == e2[b])
    {
      if IsComplex(flat, b) {
        var longer := chain + [b];
        ChainGrows(flat, chain, b);
        ChainCloses(flat, chain, b);
        assert (set x | x in longer) == seen + {b};
        AgreeBelow(flat, ranks, e1, e2, longer, seen + {b});
      }
    }
    SameFlattened(flat, ranks, e1, e2, flat.types[q].complex);
  }

  lemma ChainGrows(flat: FlatTypeMap, chain: seq<QName>, b: QName)
    requires |chain| >= 1 && IsChain(flat, chain) && Extends(flat, chain[|chain| - 1], b)
    ensures IsChain(flat, chain + [b])
  {
  }

  /** Without cycles, no chain comes back to a type on it. */
  lemma ChainCloses(flat: FlatTypeMap, chain: seq<QName>, b: QName)
    requires Acyclic(flat) && |chain| >= 1 && IsChain(flat, chain) && Extends(flat, chain[|chain| - 1], b)
    ensures b !in chain
  {
    if b in chain {
      var k :| 0 <= k < |chain| && chain[k] == b;
      ChainGrows(flat, chain, b);
      assert IsLoop(flat, (chain + [b])[k..], b);
      assert OnCycle(flat, b);
      assert false;
    }
  }

  lemma SameFlattened(flat: FlatTypeMap, ranks: Ranks, e1: Env, e2: Env, raw: ComplexType)
    requires Ranked(flat, ranks)
    requires forall b :: b in Bases(raw.content) ==> (b in e1 <==> b in e2) && (b in e1 ==> e1[b] == e2[b])
    ensures FlattenedType(flat, ranks, e1, raw) == FlattenedType(flat, ranks, e2, raw)
  {
    FlattenedAgrees(flat, ranks, e1, e2, raw.content);
  }

  /** Acyclic types have at most one solution, and partial solutions agree wherever both are defined. */
  lemma SolutionsAgree(flat: FlatTypeMap, ranks: Ranks, e1: Env, e2: Env, q: QName)
    requires Ranked(flat, ranks) && Acyclic(flat)
    requires PartialSolution(flat, ranks, e1) && PartialSolution(flat, ranks, e2)
    requires q in e1 && q in e2
    ensures e1[q] == e2[q]
  {
    assert (set x | x in [q]) == {q};
    AgreeBelow(flat, ranks, e1, e2, [q], {q});
  }

  lemma UniqueSolution(flat: FlatTypeMap, ranks: Ranks, e1: Env, e2: Env)
    requires Ranked(flat, ranks) && Acyclic(flat)
    requires Solution(flat, ranks, e1) && Solution(flat, ranks, e2)
    ensures e1 == e2
  {
    forall q | q in e1
      ensures q in e2 && e1[q] == e2[q]
    {
      SolutionsAgree(flat, ranks, e1, e2, q);
    }
  }
}
