/** The memoising, cycle-detecting type resolver (src/xsd/resolver.rs, from resolve_named_type on). */
module TypeResolver {
  import opened Wrappers
  import opened SchemaTypes
  import opened TypeDenotation

  const OPAQUE_TYPE := ComplexType(None, EmptyContent, [])

  /** The type on top of the stack, if any, extends `base`. */
  ghost predicate ExtendedByTop(flat: FlatTypeMap, stack: seq<QName>, base: QName)
  {
    stack != [] ==> Extends(flat, stack[|stack| - 1], base)
  }

  ghost predicate Grown(before: Env, after: Env)
  {
    forall q :: q in before ==> q in after && after[q] == before[q]
  }

  /** The memo is a partial solution whose types are layered, and the stack is a chain of unfinished types. */
  ghost predicate Inv(
      flat: FlatTypeMap, ranks: Ranks, resolved: Env, resolving: set<QName>, stack: seq<QName>,
      height: map<QName, nat>, top: nat)
  {
    && Ranked(flat, ranks)
    && PartialSolution(flat, ranks, resolved)
    && Layered(flat, resolved.Keys, height)
    && height.Keys == resolved.Keys && (forall q :: q in height ==> height[q] < top)
    && resolving == (set q | q in stack)
    && IsChain(flat, stack)
    && (forall q :: q in stack ==> IsComplex(flat, q) && q !in resolved)
  }

  lemma Push(
      flat: FlatTypeMap, ranks: Ranks, resolved: Env, resolving: set<QName>, stack: seq<QName>,
      height: map<QName, nat>, top: nat, q: QName)
    requires Inv(flat, ranks, resolved, resolving, stack, height, top)
    requires IsComplex(flat, q) && q !in resolved && ExtendedByTop(flat, stack, q)
    ensures Inv(flat, ranks, resolved, resolving + {q}, stack + [q], height, top)
    ensures forall b :: b in Bases(flat.types[q].complex.content) ==> ExtendedByTop(flat, stack + [q], b)
  {
  }

  /** Recording the type on top of the stack keeps the memo a partial solution, and its types layered. */
  lemma Pop(
      flat: FlatTypeMap, ranks: Ranks, resolved: Env, resolving: set<QName>, stack: seq<QName>,
      height: map<QName, nat>, top: nat, q: QName)
    requires Inv(flat, ranks, resolved, resolving + {q}, stack + [q], height, top) && q !in resolving
    requires resolving == (set p | p in stack)
    requires BasesIn(flat, resolved, flat.types[q].complex.content)
    ensures Inv(flat, ranks, resolved[q := FlattenedType(flat, ranks, resolved, flat.types[q].complex)],
                resolving, stack, height[q := top], top + 1)
  {
    assert q in stack + [q];
    RecordSolution(flat, ranks, resolved, q);
    forall i, j | 0 <= i && j == i + 1 < |stack|
      ensures Extends(flat, stack[i], stack[j])
    {
      assert (stack + [q])[i] == stack[i] && (stack + [q])[j] == stack[j];
    }
  }

  /** A base that is still being resolved closes a loop through the stack. */
  lemma CycleFound(flat: FlatTypeMap, stack: seq<QName>, q: QName)
    requires IsChain(flat, stack) && ExtendedByTop(flat, stack, q) && q in stack
    ensures OnCycle(flat, q)
  {
    var k :| 0 <= k < |stack| && stack[k] == q;
    assert IsLoop(flat, stack[k..] + [q], q);
  }

  lemma ExpandNothing(flat: FlatTypeMap, ranks: Ranks)
    requires Ranked(flat, ranks)
    ensures Expand(flat, ranks, []) == []
  {
  }

  class Resolver {
    const flat: FlatTypeMap
    ghost const ranks: Ranks
    var resolved: map<QName, ComplexType>
    var resolving: set<QName>
    ghost var stack: seq<QName>          // the types being resolved, outermost first
    ghost var height: map<QName, nat>    // grows with the order in which types were finished
    ghost var top: nat

    constructor (flat: FlatTypeMap, ghost ranks: Ranks)
      requires Ranked(flat, ranks)
      ensures this.flat == flat && this.ranks == ranks
      ensures Valid() && resolved == map[] && stack == []
    {
      this.flat, this.ranks, resolved, resolving := flat, ranks, map[], {};
      stack, height, top := [], map[], 0;
    }

    ghost predicate Valid()
      reads this
    {
      Inv(flat, ranks, resolved, resolving, stack, height, top)
    }

    method ResolveNamedType(q: QName) returns (r: Result<ComplexType, SchemaError>)
      requires Valid() && ExtendedByTop(flat, stack, q)
      modifies this
      ensures r.Ok? ==> Valid() && stack == old(stack) && resolving == old(resolving) && Grown(old(resolved), resolved)
      ensures r.Ok? && IsComplex(flat, q) ==> q in resolved && r.value == resolved[q]
      ensures r.Ok? && !IsComplex(flat, q) ==> q !in resolved && r.value == OPAQUE_TYPE
      ensures r.Err? ==> r.error.CycleDetected? && OnCycle(flat, r.error.name)
      decreases flat.types.Keys - resolving, 1, EmptyContent
    {
      if q in resolved {
        return Ok(resolved[q]);
      }
      if q in resolving {
        CycleFound(flat, stack, q);
        return Err(CycleDetected(q));
      }
      if q !in flat.types {
        return Ok(OPAQUE_TYPE);
      }
      match flat.types[q] {
        case Simple(_) =>
          return Ok(OPAQUE_TYPE);
        case Complex(raw) =>
          r := ResolveUnfinished(q, raw);
      }
    }

    /** The part of resolve_named_type between marking a type as in progress and recording it. */
    method ResolveUnfinished(q: QName, raw: ComplexType) returns (r: Result<ComplexType, SchemaError>)
      requires Valid() && ExtendedByTop(flat, stack, q)
      requires q in flat.types && flat.types[q] == Complex(raw) && q !in resolved && q !in resolving
      requires resolving == (set p | p in stack)
      modifies this
      ensures r.Ok? ==> Valid() && stack == old(stack) && resolving == old(resolving) && Grown(old(resolved), resolved)
      ensures r.Ok? ==> q in resolved && r.value == resolved[q]
      ensures r.Err? ==> r.error.CycleDetected? && OnCycle(flat, r.error.name)
      decreases flat.types.Keys - resolving, 0, EmptyContent
    {
      hide Inv, OnCycle, FlattenedType, Extends;
      Push(flat, ranks, resolved, resolving, stack, height, top, q);
      resolving, stack := resolving + {q}, stack + [q];
      r := ResolveComplexType(raw);
      if r.Err? {
        return;
      }
      stack, resolving := old(stack), resolving - {q};
      assert resolving == old(resolving);
      Pop(flat, ranks, resolved, resolving, stack, height, top, q);
      height, top := height[q := top], top + 1;
      resolved := resolved[q := r.value];
    }

    method ResolveComplexType(raw: ComplexType) returns (r: Result<ComplexType, SchemaError>)
      requires Valid() && (forall b :: b in Bases(raw.content) ==> ExtendedByTop(flat, stack, b))
      modifies this
      ensures r.Ok? ==> Valid() && stack == old(stack) && resolving == old(resolving)
      ensures r.Ok? ==> Grown(old(resolved), resolved) && BasesIn(flat, resolved, raw.content)
      ensures r.Ok? ==> r.value == FlattenedType(flat, ranks, resolved, raw)
      ensures r.Err? ==> r.error.CycleDetected? && OnCycle(flat, r.error.name)
      decreases flat.types.Keys - resolving, 3, EmptyContent
    {
      var content := ResolveContent(raw.content);
      if content.Err? {
        return Err(content.error);
      }
      var attributes := ResolveAttributes(raw.attributes);
      return Ok(ComplexType(raw.name, content.value, attributes));
    }

    method ResolveContent(content: Content) returns (r: Result<Content, SchemaError>)
      requires Valid() && (forall b :: b in Bases(content) ==> ExtendedByTop(flat, stack, b))
      modifies this
      ensures r.Ok? ==> Valid() && stack == old(stack) && resolving == old(resolving)
      ensures r.Ok? ==> Grown(old(resolved), resolved) && BasesIn(flat, resolved, content)
      ensures r.Ok? ==> r.value == Flattened(flat, ranks, resolved, content)
      ensures r.Err? ==> r.error.CycleDetected? && OnCycle(flat, r.error.name)
      decreases flat.types.Keys - resolving, 2, content
    {
      match content {
        case Extension(base, inner) =>
          var baseType := ResolveNamedType(base);
          if baseType.Err? {
            return Err(baseType.error);
          }
          var elements := Elements(baseType.value.content);
          assert elements == BaseElements(resolved, base);
          ghost var before := resolved;
          var own := ResolveContent(inner);
          if own.Err? {
            return Err(own.error);
          }
          elements := elements + Elements(own.value);
          return Ok(Sequence(elements));
        case Restriction(_, inner) =>
          r := ResolveContent(inner);
        case Sequence(els) =>
          var expanded := ResolveElementList(els);
          return Ok(Sequence(expanded));
        case All(els) =>
          var expanded := ResolveElementList(els);
          return Ok(All(expanded));
        case Choice(els) =>
          var expanded := ResolveElementList(els);
          return Ok(Choice(expanded));
        case SimpleContent(_, _) =>
          return Ok(content);
        case EmptyContent =>
          return Ok(EmptyContent);
      }
    }

    method ResolveElementList(elements: seq<Element>) returns (result: seq<Element>)
      requires Ranked(flat, ranks)
      ensures result == Expand(flat, ranks, elements)
      decreases Depth(flat, ranks, elements)
    {
      hide Expand, Depth, Ranked;
      result := [];
      assert elements[0..] == elements;
      for i := 0 to |elements|
        invariant result + Expand(flat, ranks, elements[i..]) == Expand(flat, ranks, elements)
        invariant Depth(flat, ranks, elements[i..]) <= Depth(flat, ranks, elements)
      {
        var el := elements[i];
        ExpandFrom(flat, ranks, elements, i);
        if el.name == Some(ANY) {
          result := result + [el];
        } else if el.refAttr.Some? {
          if el.refAttr.value in flat.groups {
            var inlined := ResolveElementList(flat.groups[el.refAttr.value].elements);
            result := result + inlined;
          } else if el.refAttr.value in flat.elements {
            result := result + [flat.elements[el.refAttr.value]];
          }
        } else {
          result := result + [el];
        }
      }
      assert elements[|elements|..] == [];
      ExpandNothing(flat, ranks);
    }

    method ResolveAttributes(attributes: seq<Attribute>) returns (result: seq<Attribute>)
      requires Ranked(flat, ranks)
      ensures result == ExpandAttributes(flat, ranks, attributes)
    {
      result := [];
      for i := 0 to |attributes|
        invariant result + ExpandAttributes(flat, ranks, attributes[i..]) == ExpandAttributes(flat, ranks, attributes)
      {
        var a := attributes[i];
        assert attributes[i..][1..] == attributes[i + 1..];
        if a.refAttr.Some? && a.refAttr.value in flat.attributeGroups {
          var expanded := ExpandAttributeGroup(a.refAttr.value);
          result := result + expanded;
        } else {
          result := result + [a];
        }
      }
    }

    method ExpandAttributeGroup(g: QName) returns (result: seq<Attribute>)
      requires Ranked(flat, ranks) && g in flat.attributeGroups
      ensures result == GroupAttributes(flat, ranks, g)
      decreases ranks.attributeGroup(g)
    {
      var group := flat.attributeGroups[g];
      result := group.attributes;
      for i := 0 to |group.attributeGroups|
        invariant result + NestedAttributes(flat, ranks, g, group.attributeGroups[i..]) 
               == GroupAttributes(flat, ranks, g)
      {
        var nested := group.attributeGroups[i];
        assert group.attributeGroups[i..][1..] == group.attributeGroups[i + 1..];
        if nested in flat.attributeGroups {
          var expanded := ExpandAttributeGroup(nested);
          result := result + expanded;
        }
      }
    }

    /** Resolves every complex type, visiting them in any order. */
    method ResolveAllTypes(order: seq<QName>) returns (error: Option<SchemaError>)
      requires Valid() && resolved == map[] && stack == []
      requires forall q :: q in order <==> IsComplex(flat, q)
      modifies this
      ensures error.None? <==> Acyclic(flat)
      ensures error.None? ==> Solution(flat, ranks, resolved)
      ensures error.Some? ==> error.value.CycleDetected? && OnCycle(flat, error.value.name)
    {
      hide FlattenedType, BasesIn, Extends, IsLoop, OnCycle, Ranked;
      for i := 0 to |order|
        invariant Valid() && stack == []
        invariant forall k :: 0 <= k < i ==> order[k] in resolved
      {
        if order[i] !in resolved {
          resolving := {};
          ghost var before := resolved;
          var r := ResolveNamedType(order[i]);
          if r.Err? {
            return Some(r.error);
          }
        }
      }
      LayeredIsAcyclic(flat, resolved.Keys, height);
      return None;
    }
  }

  lemma RecordSolution(flat: FlatTypeMap, ranks: Ranks, env: Env, q: QName)
    requires Ranked(flat, ranks) && PartialSolution(flat, ranks, env)
    requires IsComplex(flat, q) && q !in env && BasesIn(flat, env, flat.types[q].complex.content)
    ensures PartialSolution(flat, ranks, env[q := FlattenedType(flat, ranks, env, flat.types[q].complex)])
  {
    var env' := env[q := FlattenedType(flat, ranks, env, flat.types[q].complex)];
    forall p | p in env'
      ensures env'[p] == FlattenedType(flat, ranks, env', flat.types[p].complex)
      ensures IsComplex(flat, p) && BasesIn(flat, env', flat.types[p].complex.content)
    {
      FlattenedAgrees(flat, ranks, env, env', flat.types[p].complex.content);
    }
  }
}
