/**
  What becomes of a type that needs declarations in a file that an earlier inline schema has loaded: that file is not
  loaded again (src/xsd/resolver.rs, src/wsdl/resolver.rs), so its types, elements and groups are not known where the
  type is flattened.
 */
module LostDeclarations {
  import opened Wrappers
  import opened SchemaTypes
  import opened Reachability
  import opened SchemaLoader
  import opened TypeDenotation
  import opened SchemaResolver
  import opened Validation
  import opened InlineSchemas
  import opened Xml

  /** Everything declared in `flat` is declared alike in `whole`. */
  predicate Within(flat: FlatTypeMap, whole: FlatTypeMap)
  {
    && (forall q :: q in flat.types ==> q in whole.types && whole.types[q] == flat.types[q])
    && (forall q :: q in flat.elements ==> q in whole.elements && whole.elements[q] == flat.elements[q])
    && (forall q :: q in flat.groups ==> q in whole.groups && whole.groups[q] == flat.groups[q])
  }

  /** How many of the bases, from the nearest on, are declared. */
  function Kept(flat: FlatTypeMap, bases: seq<QName>): (n: nat)
    ensures n <= |bases|
  {
    if bases == [] || bases[0] !in flat.types then 0 else 1 + Kept(flat, bases[1..])
  }

  /** Where fewer types are known, a chain of bases stops at the first that is not. */
  lemma {:induction false} BasesAreCut(
      flat: FlatTypeMap, whole: FlatTypeMap, content: Content, found: seq<QName>, bases: seq<QName>)
    requires Within(flat, whole) && HasBases(flat, content, found) && HasBases(whole, content, bases)
    ensures var kept := Kept(flat, bases);
      && found == (if kept == |bases| then bases else bases[..kept + 1])
      && (forall i :: 0 <= i < kept ==> OwnOf(flat, bases[i]) == OwnOf(whole, bases[i]))
      && (kept < |bases| ==> OwnOf(flat, bases[kept]) == EmptyContent)
    decreases |bases|
  {
    if content.Extension? {
      var b, kept := content.base, Kept(flat, bases);
      assert bases == [b] + bases[1..] && found == [b] + found[1..];
      if b in flat.types {
        if IsComplex(flat, b) {
          BasesAreCut(flat, whole, flat.types[b].complex.content, found[1..], bases[1..]);
          assert forall i :: 1 <= i < kept ==> bases[i] == bases[1..][i - 1];
          assert kept < |bases| ==> bases[kept] == bases[1..][kept - 1];
        }
      } else {
        assert kept == 0 && |found| == 1;
      }
    }
  }

  lemma LostLevels(
      flat: FlatTypeMap, whole: FlatTypeMap, content: Content, found: seq<QName>, bases: seq<QName>)
    requires Within(flat, whole) && HasBases(flat, content, found) && HasBases(whole, content, bases)
    ensures var kept, levels := Kept(flat, bases), Levels(whole, content, bases);
      Levels(flat, content, found) == levels[..kept + 1] + if kept < |bases| then [EmptyContent] else []
  {
    BasesAreCut(flat, whole, content, found, bases);
  }

  // ----- Lost references

  /** The elements that a list holds only through references to elements or groups that are not known. */
  ghost function LostElements(flat: FlatTypeMap, whole: FlatTypeMap, ranks: Ranks, els: seq<Element>): seq<Element>
    requires Ranked(whole, ranks)
    decreases Depth(whole, ranks, els), |els|
  {
    if els == [] then [] else
      (if IsGroupRef(whole, els[0]) then
         var group := whole.groups[els[0].refAttr.value].elements;
         if els[0].refAttr.value in flat.groups then LostElements(flat, whole, ranks, group)
         else Expand(whole, ranks, group)
       else if els[0].name != Some(ANY) && els[0].refAttr.Some? && els[0].refAttr.value !in flat.elements
       then LookUp(whole, els[0])
       else [])
      + LostElements(flat, whole, ranks, els[1..])
  }

  /** The elements taken instead of groups that are not known, and have their names. */
  ghost function MistakenElements(flat: FlatTypeMap, whole: FlatTypeMap, ranks: Ranks, els: seq<Element>): seq<Element>
    requires Ranked(whole, ranks)
    decreases Depth(whole, ranks, els), |els|
  {
    if els == [] then [] else
      (if !IsGroupRef(whole, els[0]) then []
       else if els[0].refAttr.value in flat.groups
       then MistakenElements(flat, whole, ranks, whole.groups[els[0].refAttr.value].elements)
       else LookUp(flat, els[0]))
      + MistakenElements(flat, whole, ranks, els[1..])
  }

  ghost function LostAt(flat: FlatTypeMap, whole: FlatTypeMap, ranks: Ranks, level: Content): seq<Element>
    requires Ranked(whole, ranks)
  {
    match level
    case Sequence(els) => LostElements(flat, whole, ranks, els)
    case All(els) => LostElements(flat, whole, ranks, els)
    case Choice(els) => LostElements(flat, whole, ranks, els)
    case Restriction(_, inner) => LostAt(flat, whole, ranks, inner)
    case _ => []
  }

  ghost function MistakenAt(flat: FlatTypeMap, whole: FlatTypeMap, ranks: Ranks, level: Content): seq<Element>
    requires Ranked(whole, ranks)
  {
    match level
    case Sequence(els) => MistakenElements(flat, whole, ranks, els)
    case All(els) => MistakenElements(flat, whole, ranks, els)
    case Choice(els) => MistakenElements(flat, whole, ranks, els)
    case Restriction(_, inner) => MistakenAt(flat, whole, ranks, inner)
    case _ => []
  }

  lemma FirstSplits(flat: FlatTypeMap, whole: FlatTypeMap, el: Element)
    requires Within(flat, whole)
    ensures IsGroupRef(flat, el) ==> IsGroupRef(whole, el)
                                     && flat.groups[el.refAttr.value] == whole.groups[el.refAttr.value]
    ensures !IsGroupRef(whole, el) ==>
      if el.name != Some(ANY) && el.refAttr.Some? && el.refAttr.value !in flat.elements then LookUp(flat, el) == []
      else LookUp(flat, el) == LookUp(whole, el)
  {
  }

  /** What lies in one of two lists, and what sets them apart. */
  predicate Apart(el: Element, all: seq<Element>, here: seq<Element>, lost: seq<Element>, mistaken: seq<Element>)
  {
    && (el in all ==> el in here || el in lost) && (el in lost ==> el in all)
    && (el in here ==> el in all || el in mistaken) && (el in mistaken ==> el in here)
  }

  lemma ApartAppend(
      el: Element, a: seq<Element>, h: seq<Element>, l: seq<Element>, m: seq<Element>,
      a': seq<Element>, h': seq<Element>, l': seq<Element>, m': seq<Element>)
    requires Apart(el, a, h, l, m) && Apart(el, a', h', l', m')
    ensures Apart(el, a + a', h + h', l + l', m + m')
  {
  }

  lemma {:induction false} ExpandedSplits(
      flat: FlatTypeMap, whole: FlatTypeMap, ranks: Ranks, els: seq<Element>, el: Element)
    requires Ranked(flat, ranks) && Ranked(whole, ranks) && Within(flat, whole)
    ensures Apart(el, Expand(whole, ranks, els), Expand(flat, ranks, els), LostElements(flat, whole, ranks, els),
                  MistakenElements(flat, whole, ranks, els))
    decreases Depth(whole, ranks, els), |els|
  {
    if els != [] {
      var first, rest := els[0], els[1..];
      ExpandedSplits(flat, whole, ranks, rest, el);
      FirstSplits(flat, whole, first);
      hide Ranked, LookUp, Within;
      var a, h, l, m := Expand(whole, ranks, rest), Expand(flat, ranks, rest),
                        LostElements(flat, whole, ranks, rest), MistakenElements(flat, whole, ranks, rest);
      if IsGroupRef(flat, first) {
        var group := whole.groups[first.refAttr.value].elements;
        ExpandedSplits(flat, whole, ranks, group, el);
        ApartAppend(el, Expand(whole, ranks, group), Expand(flat, ranks, group),
                    LostElements(flat, whole, ranks, group), MistakenElements(flat, whole, ranks, group), a, h, l, m);
      } else if IsGroupRef(whole, first) {
        var group := Expand(whole, ranks, whole.groups[first.refAttr.value].elements);
        ApartAppend(el, group, LookUp(flat, first), group, LookUp(flat, first), a, h, l, m);
      } else if first.name != Some(ANY) && first.refAttr.Some? && first.refAttr.value !in flat.elements {
        ApartAppend(el, LookUp(whole, first), [], LookUp(whole, first), [], a, h, l, m);
      } else {
        ApartAppend(el, LookUp(whole, first), LookUp(whole, first), [], [], a, h, l, m);
      }
    }
  }

  /** With more known, a level holds what it held before and what was lost, but not what was mistaken. */
  lemma {:induction false} LevelSplits(
      flat: FlatTypeMap, whole: FlatTypeMap, ranks: Ranks, level: Content, el: Element)
    requires Ranked(flat, ranks) && Ranked(whole, ranks) && Within(flat, whole) && Bases(level) == {}
    ensures Apart(el, LevelElements(whole, ranks, level), LevelElements(flat, ranks, level),
                  LostAt(flat, whole, ranks, level), MistakenAt(flat, whole, ranks, level))
  {
    hide Within, Ranked, Expand, LostElements, MistakenElements;
    match level
    case Sequence(els) => ExpandedSplits(flat, whole, ranks, els, el);
    case All(els) => ExpandedSplits(flat, whole, ranks, els, el);
    case Choice(els) => ExpandedSplits(flat, whole, ranks, els, el);
    case Restriction(_, inner) => LevelSplits(flat, whole, ranks, inner, el);
    case _ =>
  }

  // ----- Lost and mistaken names

  predicate Holds(els: seq<Element>, name: string) { exists el :: el in els && Requires(el, name) }

  /** The name is demanded by a lost base, or through a lost reference at a level that is kept. */
  ghost predicate Loses(
      flat: FlatTypeMap, whole: FlatTypeMap, ranks: Ranks, levels: seq<Content>, kept: nat, name: string)
    requires Ranked(whole, ranks) && kept < |levels|
  {
    || (exists i :: kept < i < |levels| && Demands(whole, ranks, levels[i], name))
    || (exists i :: 0 <= i <= kept && Holds(LostAt(flat, whole, ranks, levels[i]), name))
  }

  /** The name is that of an element taken for a group. */
  ghost predicate Mistakes(
      flat: FlatTypeMap, whole: FlatTypeMap, ranks: Ranks, levels: seq<Content>, kept: nat, name: string)
    requires Ranked(whole, ranks) && kept < |levels|
  {
    exists i :: 0 <= i <= kept && Holds(MistakenAt(flat, whole, ranks, levels[i]), name)
  }

  /** Every name that is lost is demanded by what is known, and every name that is mistaken is demanded anyway. */
  ghost predicate LosesNothing(
      flat: FlatTypeMap, whole: FlatTypeMap, ranks: Ranks, here: seq<Content>, levels: seq<Content>, kept: nat)
    requires Ranked(flat, ranks) && Ranked(whole, ranks) && kept < |levels|
  {
    forall n ::
      && (Loses(flat, whole, ranks, levels, kept, n) ==> Demanded(flat, ranks, here, n))
      && (Mistakes(flat, whole, ranks, levels, kept, n) ==> Demanded(whole, ranks, levels, n))
  }

  lemma NothingDemandsNothing(flat: FlatTypeMap, ranks: Ranks, name: string)
    requires Ranked(flat, ranks)
    ensures !Demands(flat, ranks, EmptyContent, name)
  {
  }

  lemma DemandsSplit(flat: FlatTypeMap, whole: FlatTypeMap, ranks: Ranks, level: Content, name: string)
    requires Ranked(flat, ranks) && Ranked(whole, ranks) && Within(flat, whole) && Bases(level) == {}
    ensures var all, here := Demands(whole, ranks, level, name), Demands(flat, ranks, level, name);
      var lost, mistaken :=
        Holds(LostAt(flat, whole, ranks, level), name), Holds(MistakenAt(flat, whole, ranks, level), name);
      && (all ==> here || lost) && (lost ==> all) && (here ==> all || mistaken) && (mistaken ==> here)
  {
    forall el
      ensures Apart(el, LevelElements(whole, ranks, level), LevelElements(flat, ranks, level),
                    LostAt(flat, whole, ranks, level), MistakenAt(flat, whole, ranks, level))
    {
      LevelSplits(flat, whole, ranks, level, el);
    }
    hide LevelElements, LostAt, MistakenAt, Within, Apart;
    HoldApart(LevelElements(whole, ranks, level), LevelElements(flat, ranks, level), LostAt(flat, whole, ranks, level),
              MistakenAt(flat, whole, ranks, level), name);
  }

  lemma HoldApart(all: seq<Element>, here: seq<Element>, lost: seq<Element>, mistaken: seq<Element>, name: string)
    requires forall el :: Apart(el, all, here, lost, mistaken)
    ensures (Holds(all, name) ==> Holds(here, name) || Holds(lost, name)) && (Holds(lost, name) ==> Holds(all, name))
    ensures Holds(here, name) ==> Holds(all, name) || Holds(mistaken, name)
    ensures Holds(mistaken, name) ==> Holds(here, name)
  {
    hide Requires;
    if el :| el in all && Requires(el, name) { assert Apart(el, all, here, lost, mistaken); }
    if el :| el in here && Requires(el, name) { assert Apart(el, all, here, lost, mistaken); }
    if el :| el in lost && Requires(el, name) { assert Apart(el, all, here, lost, mistaken); }
    if el :| el in mistaken && Requires(el, name) { assert Apart(el, all, here, lost, mistaken); }
  }

  /** What is demanded with everything known: what is demanded here but mistaken, and what is lost. */
  lemma DemandedSplits(
      flat: FlatTypeMap, whole: FlatTypeMap, ranks: Ranks, levels: seq<Content>, kept: nat, lost: bool, name: string)
    requires Ranked(flat, ranks) && Ranked(whole, ranks) && Within(flat, whole)
    requires kept < |levels| && forall i :: 0 <= i <= kept ==> Bases(levels[i]) == {}
    ensures var here := levels[..kept + 1] + if lost then [EmptyContent] else [];
      var all, known := Demanded(whole, ranks, levels, name), Demanded(flat, ranks, here, name);
      var loses, mistakes :=
        Loses(flat, whole, ranks, levels, kept, name), Mistakes(flat, whole, ranks, levels, kept, name);
      && (all ==> known || loses) && (loses ==> all) && (known ==> all || mistakes) && (mistakes ==> known)
  {
    var here := levels[..kept + 1] + if lost then [EmptyContent] else [];
    NothingDemandsNothing(flat, ranks, name);
    forall i | 0 <= i <= kept
      ensures var all, known := Demands(whole, ranks, levels[i], name), Demands(flat, ranks, here[i], name);
        var lost, mistaken := Holds(LostAt(flat, whole, ranks, levels[i]), name),
                              Holds(MistakenAt(flat, whole, ranks, levels[i]), name);
        && (all ==> known || lost) && (lost ==> all) && (known ==> all || mistaken) && (mistaken ==> known)
    {
      DemandsSplit(flat, whole, ranks, levels[i], name);
    }
    hide Demands, Holds, LostAt, MistakenAt, Within, Ranked;
    assert forall i :: kept < i < |here| ==> here[i] == EmptyContent;
    assert forall i :: 0 <= i <= kept ==> here[i] == levels[i];
    if i :| 0 <= i < |levels| && Demands(whole, ranks, levels[i], name) {
      assert i <= kept && Demands(flat, ranks, here[i], name) ==> Demanded(flat, ranks, here, name);
    }
    if i :| 0 <= i < |here| && Demands(flat, ranks, here[i], name) {
      assert Demands(whole, ranks, levels[i], name) ==> Demanded(whole, ranks, levels, name);
    }
  }

  lemma {:induction false} KeptLevelsHaveNoBases(
      flat: FlatTypeMap, whole: FlatTypeMap, content: Content, found: seq<QName>, bases: seq<QName>)
    requires Within(flat, whole) && HasBases(flat, content, found) && HasBases(whole, content, bases)
    requires AllOneLevel(flat) && OneLevel(content)
    ensures var levels := Levels(whole, content, bases);
            forall i :: 0 <= i <= Kept(flat, bases) ==> Bases(levels[i]) == {}
  {
    BasesAreCut(flat, whole, content, found, bases);
    var levels := Levels(whole, content, bases);
    hide HasBases, Within, Kept;
    forall i | 0 <= i <= Kept(flat, bases) ensures Bases(levels[i]) == {} {
      if i > 0 {
        assert levels[i] == OwnOf(flat, bases[i - 1]);
      }
    }
  }

  /** A body with just the elements some levels require. */
  lemma LeastBody(flat: FlatTypeMap, ranks: Ranks, levels: seq<Content>) returns (body: Forest)
    requires Ranked(flat, ranks)
    ensures forall n :: n in ChildNames(body) <==> Demanded(flat, ranks, levels, n)
  {
    hide Demands, ChildNames;
    var names := RequiredFrom(AllElements(flat, ranks, levels));
    body := BodyWith(names);
    forall n ensures n in ChildNames(body) <==> Demanded(flat, ranks, levels, n) {
      RequiredAreDemanded(flat, ranks, levels, n);
      BodyHas(names, n);
    }
  }

  /** However much is lost, bases or references: all verdicts are the same exactly when the same names are demanded. */
  lemma SameVerdictsExactlyWhen(
      flat: FlatTypeMap, whole: FlatTypeMap, ranks: Ranks, here: seq<Content>, levels: seq<Content>)
    requires Ranked(flat, ranks) && Ranked(whole, ranks) && (LoneChoice(here) <==> LoneChoice(levels))
    ensures (forall body :: Satisfied(flat, ranks, here, body) <==> Satisfied(whole, ranks, levels, body))
            <==> LoneChoice(levels) || forall n :: Demanded(flat, ranks, here, n) <==> Demanded(whole, ranks, levels, n)
  {
    hide Demanded, LoneChoice, ChildNames, Ranked;
    var a := LeastBody(flat, ranks, here);
    var b := LeastBody(whole, ranks, levels);
    assert Satisfied(flat, ranks, here, a) && Satisfied(whole, ranks, levels, b);
    if !LoneChoice(levels) && Satisfied(whole, ranks, levels, a) && Satisfied(flat, ranks, here, b) {
      forall n ensures Demanded(flat, ranks, here, n) <==> Demanded(whole, ranks, levels, n) {
        assert Demanded(flat, ranks, here, n) <==> n in ChildNames(a);
        assert Demanded(whole, ranks, levels, n) <==> n in ChildNames(b);
      }
    }
  }

  /**
    A type that has lost declarations is validated against as if it had not, exactly when it is a lone choice, or what
    it lost and what it mistook make no difference to the names it demands.
   */
  lemma LossesHarmlessExactlyWhen(
      flat: FlatTypeMap, whole: FlatTypeMap, ranks: Ranks, content: Content, found: seq<QName>, bases: seq<QName>)
    requires Ranked(flat, ranks) && Ranked(whole, ranks) && Within(flat, whole)
    requires HasBases(flat, content, found) && HasBases(whole, content, bases)
    requires AllOneLevel(flat) && OneLevel(content)
    ensures var kept, here, levels := Kept(flat, bases), Levels(flat, content, found), Levels(whole, content, bases);
      (forall body :: Satisfied(flat, ranks, here, body) <==> Satisfied(whole, ranks, levels, body))
      <==> LoneChoice(levels) || LosesNothing(flat, whole, ranks, here, levels, kept)
  {
    var kept, levels, here := Kept(flat, bases), Levels(whole, content, bases), Levels(flat, content, found);
    LostLevels(flat, whole, content, found, bases);
    KeptLevelsHaveNoBases(flat, whole, content, found, bases);
    assert if content.Extension? then |found| >= 1 && |bases| >= 1 else found == bases == [];
    assert |here| == |found| + 1 && |levels| == |bases| + 1;
    assert LoneChoice(here) <==> LoneChoice(levels);
    hide Levels, HasBases, Kept, LevelElements, LoneChoice, Demanded, Loses, Mistakes, Satisfied, Within, Ranked;
    forall n
      ensures var all, known := Demanded(whole, ranks, levels, n), Demanded(flat, ranks, here, n);
        var loses, mistakes :=
          Loses(flat, whole, ranks, levels, kept, n), Mistakes(flat, whole, ranks, levels, kept, n);
        && (all ==> known || loses) && (loses ==> all) && (known ==> all || mistakes) && (mistakes ==> known)
    {
      DemandedSplits(flat, whole, ranks, levels, kept, kept < |bases|, n);
    }
    SameVerdictsExactlyWhen(flat, whole, ranks, here, levels);
  }

  // ----- When a base is lost

  /** Maps that agree where they overlap. */
  ghost predicate Alike<K(!new), V>(maps: seq<map<K, V>>)
  {
    forall i, j, k :: 0 <= i < |maps| && 0 <= j < |maps| && k in maps[i] && k in maps[j] ==> maps[i][k] == maps[j][k]
  }

  /** Among these schemas, declarations of one name are the same. */
  ghost predicate DeclaredAlike(root: RawSchema, files: map<string, RawSchema>, all: seq<Option<string>>)
  {
    var schemas := SchemasAt(root, files, all);
    Alike(TypesOf(schemas)) && Alike(ElementsOf(schemas)) && Alike(GroupsOf(schemas))
  }

  lemma OverlaidWithin<K(!new), V>(few: seq<map<K, V>>, many: seq<map<K, V>>)
    requires Alike(many) && forall m :: m in few ==> m in many
    ensures forall k :: k in Overlaid(few) ==> k in Overlaid(many) && Overlaid(many)[k] == Overlaid(few)[k]
  {
    forall k | k in Overlaid(few)
      ensures k in Overlaid(many) && Overlaid(many)[k] == Overlaid(few)[k]
    {
      OverlaidHolds(few, k);
      OverlaidHolds(many, k);
      hide Overlaid;
      var i: nat :| LastWith(few, k, Overlaid(few)[k], i);
      assert few[i] in few;
      var j :| 0 <= j < |many| && many[j] == few[i];
      var n: nat :| LastWith(many, k, Overlaid(many)[k], n);
    }
  }

  lemma SchemasAmong(
      root: RawSchema, files: map<string, RawSchema>, order: seq<Option<string>>, all: seq<Option<string>>)
    requires forall at :: at in order ==> at in all
    ensures var few, many := SchemasAt(root, files, order), SchemasAt(root, files, all);
      && (forall m :: m in TypesOf(few) ==> m in TypesOf(many))
      && (forall m :: m in ElementsOf(few) ==> m in ElementsOf(many))
      && (forall m :: m in GroupsOf(few) ==> m in GroupsOf(many))
  {
    hide SchemaAt;
    var few, many := SchemasAt(root, files, order), SchemasAt(root, files, all);
    forall i | 0 <= i < |order|
      ensures TypesOf(few)[i] in TypesOf(many) && ElementsOf(few)[i] in ElementsOf(many)
      ensures GroupsOf(few)[i] in GroupsOf(many)
    {
      assert order[i] in order;
      var j :| 0 <= j < |all| && all[j] == order[i];
      assert few[i] == many[j];
      assert TypesOf(many)[j] == TypesOf(few)[i] && ElementsOf(many)[j] == ElementsOf(few)[i];
      assert GroupsOf(many)[j] == GroupsOf(few)[i];
    }
  }

  /** What some schemas declare together, where they are laid over one another. */
  function Laid(schemas: seq<RawSchema>): FlatTypeMap
  {
    FlatTypeMap(Overlaid(TypesOf(schemas)), Overlaid(ElementsOf(schemas)), map[], Overlaid(GroupsOf(schemas)))
  }

  lemma LaidWithin(few: seq<RawSchema>, many: seq<RawSchema>)
    requires Alike(TypesOf(many)) && Alike(ElementsOf(many)) && Alike(GroupsOf(many))
    requires forall m :: m in TypesOf(few) ==> m in TypesOf(many)
    requires forall m :: m in ElementsOf(few) ==> m in ElementsOf(many)
    requires forall m :: m in GroupsOf(few) ==> m in GroupsOf(many)
    ensures Within(Laid(few), Laid(many))
  {
    hide Alike, TypesOf, ElementsOf, GroupsOf, Overlaid;
    OverlaidWithin(TypesOf(few), TypesOf(many));
    OverlaidWithin(ElementsOf(few), ElementsOf(many));
    OverlaidWithin(GroupsOf(few), GroupsOf(many));
  }

  lemma WithinLaid(flat: FlatTypeMap, whole: FlatTypeMap, few: seq<RawSchema>, many: seq<RawSchema>)
    requires flat.types == Laid(few).types && flat.elements == Laid(few).elements && flat.groups == Laid(few).groups
    requires whole.types == Laid(many).types && whole.elements == Laid(many).elements
    requires whole.groups == Laid(many).groups && Within(Laid(few), Laid(many))
    ensures Within(flat, whole)
  {
    hide Laid;
  }

  lemma MergedIsLaid(root: RawSchema, files: map<string, RawSchema>, order: seq<Option<string>>)
    ensures var flat, laid := Merged(root, files, order), Laid(SchemasAt(root, files, order));
      flat.types == laid.types && flat.elements == laid.elements && flat.groups == laid.groups
  {
    MergedIsOverlaid(root, files, order);
    hide Merged, Overlaid, SchemasAt;
  }

  /** Starting with locations loaded already, a schema collects nothing it would not collect alone. */
  lemma CollectedWithin(
      root: RawSchema, files: map<string, RawSchema>, before: set<string>,
      order: seq<Option<string>>, all: seq<Option<string>>)
    requires Complete(root, files, before, order) && Complete(root, files, {}, all) && DeclaredAlike(root, files, all)
    ensures Within(Merged(root, files, order), Merged(root, files, all))
  {
    hide Complete, Merged, Alike, SchemasAt, TypesOf, ElementsOf, GroupsOf, Overlaid, SchemaAt, Laid, Within;
    FewerProcessed(root, files, before, order, all);
    var few, many := SchemasAt(root, files, order), SchemasAt(root, files, all);
    SchemasAmong(root, files, order, all);
    LaidWithin(few, many);
    MergedIsLaid(root, files, order);
    MergedIsLaid(root, files, all);
    WithinLaid(Merged(root, files, order), Merged(root, files, all), few, many);
  }

  lemma FewerProcessed(
      root: RawSchema, files: map<string, RawSchema>, before: set<string>,
      order: seq<Option<string>>, all: seq<Option<string>>)
    requires Complete(root, files, before, order) && Complete(root, files, {}, all)
    ensures forall at :: at in order ==> at in all
  {
    forall at | at in order ensures at in all {
      if at.Some? {
        ReachedAvoids(ImportGraph(files), NamedLocations(root), before, at.value);
      }
    }
  }

  /**
    A base is lost exactly when neither the schema nor anything it reaches without entering what earlier schemas have
    loaded declares it; so it is, if it is only declared where earlier schemas have been.
   */
  lemma BaseIsLostExactlyWhen(files: map<string, RawSchema>, ranks: Ranks, p: ResolvedSchema, base: QName)
    requires Sound(files, ranks, p)
    ensures base !in FlatOf(files, p).types <==>
            && base !in p.raw.types
            && forall x :: Reachable(p.raw, files, p.loadedBefore, x) ==> base !in files[x].types
    ensures base !in p.raw.types && (forall x :: x in files && base in files[x].types ==> x in p.loadedBefore)
            ==> base !in FlatOf(files, p).types
  {
    CollectedTypeNames(p.raw, files, p.loadedBefore, p.order, base);
    forall x | Reachable(p.raw, files, p.loadedBefore, x) ensures x !in p.loadedBefore && x in files {
      ReachedAvoids(ImportGraph(files), NamedLocations(p.raw), p.loadedBefore, x);
    }
    hide Reachable, Merged, Complete;
  }

  /**
    Requests are validated as if the schema had been resolved alone, with nothing loaded before it, exactly when its
    type is a lone choice, or every name demanded by a lost base, or through a reference into a file loaded earlier, is
    demanded by what the schema knows, and every name of an element mistaken for a group there is demanded anyway.
   */
  lemma LossesUncheckedExactlyWhen(
      files: map<string, RawSchema>, ranks: Ranks, p: ResolvedSchema, env: Env, all: seq<Option<string>>,
      registry: Registry, t: QName, raw: ComplexType, found: seq<QName>, bases: seq<QName>)
    requires Complete(p.raw, files, p.loadedBefore, p.order) && Complete(p.raw, files, {}, all)
    requires DeclaredAlike(p.raw, files, all)
    requires Resolved(FlatOf(files, p), ranks, env, raw, found)
    requires RegisteredAs(registry, t, FlatOf(files, p), ranks, env, raw)
    requires Ranked(Merged(p.raw, files, all), ranks) && HasBases(Merged(p.raw, files, all), raw.content, bases)
    ensures var flat, whole := FlatOf(files, p), Merged(p.raw, files, all);
      var here, levels := Levels(flat, raw.content, found), Levels(whole, raw.content, bases);
      (forall body :: Accepted(Events(body), registry, Some(t)) <==> Satisfied(whole, ranks, levels, body))
      <==> LoneChoice(levels) || LosesNothing(flat, whole, ranks, here, levels, Kept(flat, bases))
  {
    var flat, whole := FlatOf(files, p), Merged(p.raw, files, all);
    CollectedWithin(p.raw, files, p.loadedBefore, p.order, all);
    LossesHarmlessExactlyWhen(flat, whole, ranks, raw.content, found, bases);
    forall body
      ensures Accepted(Events(body), registry, Some(t))
              <==> Satisfied(flat, ranks, Levels(flat, raw.content, found), body)
    {
      AcceptedExactlyWhen(registry, t, flat, ranks, env, raw, found, body);
    }
    hide Levels, Satisfied, LosesNothing, Accepted, Merged, Ranked, LoneChoice;
  }
}
