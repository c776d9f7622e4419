/** What inlining group references and attribute groups amounts to, entry by entry (src/xsd/resolver.rs). */
module ExpandedLists {
  import opened Wrappers
  import opened SchemaTypes
  import opened TypeDenotation

  // ----- Elements in order

  /** Lists one after the other expand to their expansions one after the other. */
  lemma {:induction false} ExpandAppends(flat: FlatTypeMap, ranks: Ranks, a: seq<Element>, b: seq<Element>)
    requires Ranked(flat, ranks)
    ensures Expand(flat, ranks, a + b) == Expand(flat, ranks, a) + Expand(flat, ranks, b)
  {
    if a == [] {
      assert a + b == b && Expand(flat, ranks, a) + Expand(flat, ranks, b) == Expand(flat, ranks, b);
    } else {
      assert (a + b)[1..] == a[1..] + b;
      ExpandAppends(flat, ranks, a[1..], b);
    }
  }

  /** A wildcard and a declaration stay, a reference becomes its group's list or the global element, or goes. */
  lemma EntryExpands(flat: FlatTypeMap, ranks: Ranks, el: Element)
    requires Ranked(flat, ranks)
    ensures Expand(flat, ranks, [el]) ==
            if el.refAttr == None || el.name == Some("__any__") then [el]
            else if el.refAttr.value in flat.groups then Expand(flat, ranks, flat.groups[el.refAttr.value].elements)
            else if el.refAttr.value in flat.elements then [flat.elements[el.refAttr.value]]
            else []
  {
    assert [el][1..] == [] && Expand(flat, ranks, []) == [];
  }

  // ----- Elements by membership

  /** The groups on the way refer to one another, the first being referred to from the list itself. */
  ghost predicate GroupPath(flat: FlatTypeMap, els: seq<Element>, path: seq<QName>)
    decreases |path|
  {
    path == [] || (
      && path[0] in flat.groups
      && (exists el :: el in els && el.name != Some("__any__") && el.refAttr == Some(path[0]))
      && GroupPath(flat, flat.groups[path[0]].elements, path[1..]))
  }

  /** The list the path leads to. */
  function ListAt(flat: FlatTypeMap, els: seq<Element>, path: seq<QName>): seq<Element>
  {
    if path == [] then els
    else if path[|path| - 1] in flat.groups then flat.groups[path[|path| - 1]].elements else []
  }

  /** An entry that is, or refers to, this element. */
  predicate StandsFor(flat: FlatTypeMap, el: Element, e: Element)
  {
    if el.refAttr == None || el.name == Some("__any__") then e == el
    else el.refAttr.value !in flat.groups && el.refAttr.value in flat.elements
         && flat.elements[el.refAttr.value] == e
  }

  ghost predicate ReachesElement(flat: FlatTypeMap, els: seq<Element>, path: seq<QName>, e: Element)
  {
    GroupPath(flat, els, path) && exists el :: el in ListAt(flat, els, path) && StandsFor(flat, el, e)
  }

  /** The expansion holds exactly the elements that some path of group references leads to. */
  lemma ExpandedExactlyWhen(flat: FlatTypeMap, ranks: Ranks, els: seq<Element>, e: Element)
    requires Ranked(flat, ranks)
    ensures e in Expand(flat, ranks, els) <==> exists path :: ReachesElement(flat, els, path, e)
  {
    if e in Expand(flat, ranks, els) {
      var path := PathTo(flat, ranks, els, e);
    }
    if path :| ReachesElement(flat, els, path, e) {
      PathExpands(flat, ranks, els, path, e);
    }
  }

  /** Some entry of the list expands to something that holds the element. */
  lemma {:induction false} FromSomeEntry(flat: FlatTypeMap, ranks: Ranks, els: seq<Element>, e: Element)
    requires Ranked(flat, ranks)
    ensures e in Expand(flat, ranks, els) <==> exists el :: el in els && e in Expand(flat, ranks, [el])
    decreases |els|
  {
    if els != [] {
      FromSomeEntry(flat, ranks, els[1..], e);
      assert els == [els[0]] + els[1..];
      ExpandAppends(flat, ranks, [els[0]], els[1..]);
      hide Expand, Ranked;
      forall el | el in els && e in Expand(flat, ranks, [el]) ensures e in Expand(flat, ranks, els) {
        assert el == els[0] || el in els[1..];
      }
    }
  }

  lemma {:induction false} GroupIsShallower(flat: FlatTypeMap, ranks: Ranks, els: seq<Element>, el: Element)
    requires Ranked(flat, ranks) && el in els
    requires el.name != Some("__any__") && el.refAttr.Some? && el.refAttr.value in flat.groups
    ensures Depth(flat, ranks, flat.groups[el.refAttr.value].elements) < Depth(flat, ranks, els)
    decreases |els|
  {
    if els[0] != el {
      GroupIsShallower(flat, ranks, els[1..], el);
    }
  }

  lemma {:induction false} PathTo(flat: FlatTypeMap, ranks: Ranks, els: seq<Element>, e: Element)
      returns (path: seq<QName>)
    requires Ranked(flat, ranks) && e in Expand(flat, ranks, els)
    ensures ReachesElement(flat, els, path, e)
    decreases Depth(flat, ranks, els)
  {
    FromSomeEntry(flat, ranks, els, e);
    var el :| el in els && e in Expand(flat, ranks, [el]);
    EntryExpands(flat, ranks, el);
    if el.refAttr.Some? && el.name != Some("__any__") && el.refAttr.value in flat.groups {
      var g := el.refAttr.value;
      GroupIsShallower(flat, ranks, els, el);
      var rest := PathTo(flat, ranks, flat.groups[g].elements, e);
      hide Ranked, Expand, Depth;
      path := [g] + rest;
      PathGrows(flat, els, el, rest, e);
    } else {
      path := [];
      assert StandsFor(flat, el, e);
    }
  }

  lemma PathGrows(flat: FlatTypeMap, els: seq<Element>, el: Element, rest: seq<QName>, e: Element)
    requires el in els && el.name != Some("__any__") && el.refAttr.Some? && el.refAttr.value in flat.groups
    requires ReachesElement(flat, flat.groups[el.refAttr.value].elements, rest, e)
    ensures ReachesElement(flat, els, [el.refAttr.value] + rest, e)
  {
    hide StandsFor;
    var path := [el.refAttr.value] + rest;
    assert path[1..] == rest;
  }

  lemma {:induction false} PathExpands(
      flat: FlatTypeMap, ranks: Ranks, els: seq<Element>, path: seq<QName>, e: Element)
    requires Ranked(flat, ranks) && ReachesElement(flat, els, path, e)
    ensures e in Expand(flat, ranks, els)
    decreases |path|
  {
    FromSomeEntry(flat, ranks, els, e);
    var el :| el in els && (path == [] ==> StandsFor(flat, el, e))
              && (path != [] ==> el.name != Some("__any__") && el.refAttr == Some(path[0]));
    EntryExpands(flat, ranks, el);
    if path != [] {
      NextGroup(flat, els, path, e);
      PathExpands(flat, ranks, flat.groups[path[0]].elements, path[1..], e);
      hide Ranked, Expand, StandsFor, GroupPath, ReachesElement;
    }
  }

  lemma NextGroup(flat: FlatTypeMap, els: seq<Element>, path: seq<QName>, e: Element)
    requires path != [] && ReachesElement(flat, els, path, e)
    ensures path[0] in flat.groups && ReachesElement(flat, flat.groups[path[0]].elements, path[1..], e)
  {
    hide StandsFor;
  }

  // ----- Attributes

  lemma {:induction false} AttributesAppend(
      flat: FlatTypeMap, ranks: Ranks, a: seq<Attribute>, b: seq<Attribute>)
    requires Ranked(flat, ranks)
    ensures ExpandAttributes(flat, ranks, a + b) == ExpandAttributes(flat, ranks, a) + ExpandAttributes(flat, ranks, b)
  {
    if a == [] {
      assert a + b == b;
      assert ExpandAttributes(flat, ranks, a) == [];
    } else {
      assert (a + b)[1..] == a[1..] + b;
      AttributesAppend(flat, ranks, a[1..], b);
      hide Ranked;
    }
  }

  /** A reference to an attribute group becomes the group's list; everything else stays, unknown references too. */
  lemma AttributeExpands(flat: FlatTypeMap, ranks: Ranks, a: Attribute)
    requires Ranked(flat, ranks)
    ensures ExpandAttributes(flat, ranks, [a]) ==
            if a.refAttr.Some? && a.refAttr.value in flat.attributeGroups
            then GroupAttributes(flat, ranks, a.refAttr.value) else [a]
  {
    assert [a][1..] == [] && ExpandAttributes(flat, ranks, []) == [];
  }

  /** The attributes of these groups one group after the other; unknown groups have none. */
  ghost function AllGroups(flat: FlatTypeMap, ranks: Ranks, groups: seq<QName>): seq<Attribute>
    requires Ranked(flat, ranks)
  {
    if groups == [] then []
    else if groups[|groups| - 1] !in flat.attributeGroups then AllGroups(flat, ranks, groups[..|groups| - 1])
    else AllGroups(flat, ranks, groups[..|groups| - 1]) + GroupAttributes(flat, ranks, groups[|groups| - 1])
  }

  lemma {:induction false} NestedIsAll(flat: FlatTypeMap, ranks: Ranks, owner: QName, nested: seq<QName>)
    requires Ranked(flat, ranks)
    requires forall n :: n in nested && n in flat.attributeGroups ==>
               ranks.attributeGroup(n) < ranks.attributeGroup(owner)
    ensures NestedAttributes(flat, ranks, owner, nested) == AllGroups(flat, ranks, nested)
    decreases |nested|
  {
    if nested != [] {
      NestedIsAll(flat, ranks, owner, nested[1..]);
      assert nested == [nested[0]] + nested[1..];
      AllAppend(flat, ranks, [nested[0]], nested[1..]);
      assert [nested[0]][..0] == [] && AllGroups(flat, ranks, []) == [];
    }
  }

  lemma {:induction false} AllAppend(flat: FlatTypeMap, ranks: Ranks, a: seq<QName>, b: seq<QName>)
    requires Ranked(flat, ranks)
    ensures AllGroups(flat, ranks, a + b) == AllGroups(flat, ranks, a) + AllGroups(flat, ranks, b)
    decreases |b|
  {
    hide Ranked, GroupAttributes;
    if b == [] {
      assert a + b == a;
    } else {
      assert (a + b)[..|a + b| - 1] == a + b[..|b| - 1];
      AllAppend(flat, ranks, a, b[..|b| - 1]);
    }
  }

  /** A group's own attributes come first, then those of the groups it names, in the order named. */
  lemma GroupAttributesAre(flat: FlatTypeMap, ranks: Ranks, g: QName)
    requires Ranked(flat, ranks) && g in flat.attributeGroups
    ensures var own := flat.attributeGroups[g].attributes;
      && |own| <= |GroupAttributes(flat, ranks, g)|
      && GroupAttributes(flat, ranks, g)[..|own|] == own
      && GroupAttributes(flat, ranks, g)[|own|..] == AllGroups(flat, ranks, flat.attributeGroups[g].attributeGroups)
  {
    NestedIsAll(flat, ranks, g, flat.attributeGroups[g].attributeGroups);
  }

  /** Each group on the way names the next. */
  predicate AttributePath(flat: FlatTypeMap, g: QName, path: seq<QName>)
    decreases |path|
  {
    g in flat.attributeGroups && (
      path == [] ||
      (path[0] in flat.attributeGroups[g].attributeGroups && AttributePath(flat, path[0], path[1..])))
  }

  ghost predicate LeadsTo(flat: FlatTypeMap, g: QName, path: seq<QName>, a: Attribute)
  {
    var end := if path == [] then g else path[|path| - 1];
    AttributePath(flat, g, path) && end in flat.attributeGroups && a in flat.attributeGroups[end].attributes
  }

  /** A group has exactly the attributes that some path of group names leads to. */
  lemma GroupHasExactlyWhen(flat: FlatTypeMap, ranks: Ranks, g: QName, a: Attribute)
    requires Ranked(flat, ranks) && g in flat.attributeGroups
    ensures a in GroupAttributes(flat, ranks, g) <==> exists path :: LeadsTo(flat, g, path, a)
  {
    if a in GroupAttributes(flat, ranks, g) {
      var path := AttributePathTo(flat, ranks, g, a);
    }
    if path :| LeadsTo(flat, g, path, a) {
      AttributePathHolds(flat, ranks, g, path, a);
    }
  }

  lemma {:induction false} InSomeGroup(flat: FlatTypeMap, ranks: Ranks, groups: seq<QName>, a: Attribute)
    requires Ranked(flat, ranks)
    ensures a in AllGroups(flat, ranks, groups) <==>
            exists n :: n in groups && n in flat.attributeGroups && a in GroupAttributes(flat, ranks, n)
  {
    hide Ranked, GroupAttributes;
    if groups != [] {
      var shorter, last := groups[..|groups| - 1], groups[|groups| - 1];
      assert groups == shorter + [last];
      InSomeGroup(flat, ranks, shorter, a);
    }
  }

  lemma OwnOrNamed(flat: FlatTypeMap, ranks: Ranks, g: QName, a: Attribute)
    requires Ranked(flat, ranks) && g in flat.attributeGroups
    ensures a in GroupAttributes(flat, ranks, g) <==>
            || a in flat.attributeGroups[g].attributes
            || exists n :: n in flat.attributeGroups[g].attributeGroups && n in flat.attributeGroups
                           && a in GroupAttributes(flat, ranks, n)
  {
    GroupAttributesAre(flat, ranks, g);
    hide GroupAttributes, Ranked;
    var all, own := GroupAttributes(flat, ranks, g), flat.attributeGroups[g].attributes;
    assert all == all[..|own|] + all[|own|..];
    InSomeGroup(flat, ranks, flat.attributeGroups[g].attributeGroups, a);
  }

  lemma {:induction false} AttributePathTo(flat: FlatTypeMap, ranks: Ranks, g: QName, a: Attribute)
      returns (path: seq<QName>)
    requires Ranked(flat, ranks) && g in flat.attributeGroups && a in GroupAttributes(flat, ranks, g)
    ensures LeadsTo(flat, g, path, a)
    decreases ranks.attributeGroup(g)
  {
    OwnOrNamed(flat, ranks, g, a);
    if a in flat.attributeGroups[g].attributes {
      path := [];
    } else {
      var n :| n in flat.attributeGroups[g].attributeGroups && n in flat.attributeGroups
               && a in GroupAttributes(flat, ranks, n);
      var rest := AttributePathTo(flat, ranks, n, a);
      hide Ranked, GroupAttributes;
      path := [n] + rest;
      assert path[1..] == rest;
    }
  }

  lemma {:induction false} AttributePathHolds(
      flat: FlatTypeMap, ranks: Ranks, g: QName, path: seq<QName>, a: Attribute)
    requires Ranked(flat, ranks) && LeadsTo(flat, g, path, a)
    ensures g in flat.attributeGroups && a in GroupAttributes(flat, ranks, g)
    decreases |path|
  {
    OwnOrNamed(flat, ranks, g, a);
    if path != [] {
      AttributePathHolds(flat, ranks, path[0], path[1..], a);
    }
  }
}
