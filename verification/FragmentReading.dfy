/** What is read in a fragment once it is written out: its quotes, its meaning, and its root tag. */
module FragmentReading {
  import opened Wrappers
  import opened Xml
  import opened Namespaces
  import opened Tags
  import opened Envelope
  import opened EnvelopeMeaning

  /** The text of the fragment of an element below two ancestors with these attributes. */
  function FragmentText(outer: seq<Attr>, inner: seq<Attr>, el: Forest): seq<Ink>
    requires IsElement(el)
  {
    WriteAll(Events(Fragment(Bindings(inner) + Bindings(outer), el)))
  }

  // ----- When it reads back

  /** No value on the fragment's root holds a double quote, inherited declarations included. */
  predicate RootQuoteFree(outer: seq<Attr>, inner: seq<Attr>, own: seq<Attr>)
  {
    && QuoteFreeAttrs(own)
    && forall b :: b in Bindings(inner) + Bindings(outer) && b.prefix !in OwnPrefixes(own) ==> '"' !in b.uri
  }

  /** No value in the fragment holds a double quote. */
  predicate QuoteFree(outer: seq<Attr>, inner: seq<Attr>, el: Forest)
    requires IsElement(el)
  {
    RootQuoteFree(outer, inner, el.attrs) && (el.Elem? ==> QuoteFreeTree(el.kids))
  }

  lemma {:induction false} InheritedQuotes(bindings: seq<Binding>, own: set<string>)
    ensures QuoteFreeAttrs(Inherited(bindings, own)) <==>
            forall b :: b in bindings && b.prefix !in own ==> '"' !in b.uri
  {
    forall a | a in Inherited(bindings, own)
      ensures exists b :: b in bindings && b.prefix !in own && a == Attr(DeclName(b.prefix), b.uri)
    {
      InheritedFrom(bindings, own, a);
    }
    forall b | b in bindings && b.prefix !in own
      ensures Attr(DeclName(b.prefix), b.uri) in Inherited(bindings, own)
    {
      InheritedHas(bindings, own, b);
    }
  }

  lemma {:induction false} InheritedFrom(bindings: seq<Binding>, own: set<string>, a: Attr)
    requires a in Inherited(bindings, own)
    ensures exists b :: b in bindings && b.prefix !in own && a == Attr(DeclName(b.prefix), b.uri)
  {
    if bindings[0].prefix !in own && a == Attr(DeclName(bindings[0].prefix), bindings[0].uri) {
      assert bindings[0] in bindings;
    } else {
      assert a in Inherited(bindings[1..], own);
      InheritedFrom(bindings[1..], own, a);
    }
  }

  lemma RootQuotes(outer: seq<Attr>, inner: seq<Attr>, own: seq<Attr>)
    ensures QuoteFreeAttrs(RootAttrs(Bindings(inner) + Bindings(outer), own)) <==> RootQuoteFree(outer, inner, own)
  {
    var inherited := Inherited(Bindings(inner) + Bindings(outer), OwnPrefixes(own));
    InheritedQuotes(Bindings(inner) + Bindings(outer), OwnPrefixes(own));
    hide Inherited, Bindings, OwnPrefixes;
    assert forall a :: a in inherited + own <==> a in inherited || a in own;
  }

  lemma {:induction false} CleanReads(f: Forest)
    ensures QuoteFreeTree(Clean(f)) <==> QuoteFreeTree(f)
    ensures NamedTree(f) ==> NamedTree(Clean(f))
  {
    match f
    case Nil =>
    case Elem(_, _, kids, next) => CleanReads(kids); CleanReads(next);
    case SelfClosed(_, _, next) => CleanReads(next);
    case Leaf(_, next) => CleanReads(next);
  }

  lemma DeclNameLike(name: Name)
    requires IsDecl(name) && NameLike(name)
    ensures NameLike(DeclName(DeclPrefix(name)))
  {
    if name == Name("xmlns", "") {
      var key := Key(Name("", "xmlns"));
      assert forall i :: 0 <= i < |key| ==> Key(name)[i] == key[i];
    }
  }

  lemma BindingsNamed(attrs: seq<Attr>, b: Binding)
    requires NamedAttrs(attrs) && b in Bindings(attrs)
    ensures NameLike(DeclName(b.prefix))
  {
    BindingsAre(attrs, b);
    var a :| a in attrs && IsDecl(a.name) && DeclPrefix(a.name) == b.prefix && a.value == b.uri;
    DeclNameLike(a.name);
  }

  lemma RootNamed(outer: seq<Attr>, inner: seq<Attr>, own: seq<Attr>)
    requires NamedAttrs(outer) && NamedAttrs(inner) && NamedAttrs(own)
    ensures NamedAttrs(RootAttrs(Bindings(inner) + Bindings(outer), own))
  {
    hide NameLike, Bindings, OwnPrefixes, Inherited;
    var bindings, prefixes := Bindings(inner) + Bindings(outer), OwnPrefixes(own);
    forall a | a in Inherited(bindings, prefixes)
      ensures NameLike(a.name)
    {
      InheritedFrom(bindings, prefixes, a);
      var b :| b in bindings && b.prefix !in prefixes && a == Attr(DeclName(b.prefix), b.uri);
      if b in Bindings(inner) { BindingsNamed(inner, b); } else { BindingsNamed(outer, b); }
    }
  }

  /** The fragment reads back as the tags that were meant exactly when no value in it holds a double quote. */
  lemma FragmentReadsBackExactlyWhen(outer: seq<Attr>, inner: seq<Attr>, el: Forest)
    requires IsElement(el) && NamedAttrs(outer) && NamedAttrs(inner) && NamedTree(el)
    ensures ReadAll(FragmentText(outer, inner, el)) == Some(Events(Fragment(Bindings(inner) + Bindings(outer), el)))
            <==> QuoteFree(outer, inner, el)
  {
    var f := Fragment(Bindings(inner) + Bindings(outer), el);
    RootNamed(outer, inner, el.attrs);
    RootQuotes(outer, inner, el.attrs);
    hide Bindings, RootAttrs, RootQuoteFree, NamedAttrs, QuoteFreeAttrs;
    if el.Elem? {
      CleanReads(el.kids);
    }
    TreeReadsBackExactlyWhen(f);
  }

  /** The first tag of the fragment, written out. */
  function RootText(outer: seq<Attr>, inner: seq<Attr>, el: Forest): string
    requires IsElement(el)
  {
    TagText(Key(el.name), AttrsText(RootAttrs(Bindings(inner) + Bindings(outer), el.attrs)), el.SelfClosed?)
  }

  lemma FragmentStartsWithRoot(outer: seq<Attr>, inner: seq<Attr>, el: Forest)
    requires IsElement(el)
    ensures var text := FragmentText(outer, inner, el);
            text != [] && text[0] == Ink.Tag(RootText(outer, inner, el))
  {
    var bindings := Bindings(inner) + Bindings(outer);
    if el.Elem? {
      FragmentEvents(bindings, el.name, el.attrs, el.kids);
    } else {
      FragmentEvents(bindings, el.name, el.attrs, Nil);
    }
  }

  /** The tag a fragment starts with, for these attributes. */
  function RootTag(el: Forest, attrs: seq<Attr>): Event
    requires IsElement(el)
  {
    if el.Elem? then Start(el.name, attrs) else Empty(el.name, attrs)
  }

  lemma RootReadsBack(outer: seq<Attr>, inner: seq<Attr>, el: Forest)
    requires IsElement(el) && NameLike(el.name) && NamedAttrs(outer) && NamedAttrs(inner) && NamedAttrs(el.attrs)
    requires RootQuoteFree(outer, inner, el.attrs)
    ensures ReadTag(RootText(outer, inner, el))
            == Some((RootTag(el, RootAttrs(Bindings(inner) + Bindings(outer), el.attrs)), ""))
  {
    RootNamed(outer, inner, el.attrs);
    RootQuotes(outer, inner, el.attrs);
    hide Bindings, RootAttrs, RootQuoteFree, NamedAttrs, QuoteFreeAttrs, ReadTag, NameLike;
    var tag := RootTag(el, RootAttrs(Bindings(inner) + Bindings(outer), el.attrs));
    TagReadsBackExactlyWhen(tag, "");
    assert Write(tag).text + "" == RootText(outer, inner, el);
  }

  // ----- What it holds

  /** The events without CDATA sections, comments and PIs; tags, text and entity references stay, in their order. */
  function Stripped(events: seq<Event>): seq<Event>
  {
    if events == [] then []
    else if events[0].Chars? && (events[0].piece.CData? || events[0].piece.Misc?) then Stripped(events[1..])
    else [events[0]] + Stripped(events[1..])
  }

  lemma {:induction false} CleanIsStripped(f: Forest, rest: seq<Event>)
    ensures Stripped(EventsThen(f, rest)) == EventsThen(Clean(f), Stripped(rest))
  {
    match f
    case Nil =>
    case Elem(name, _, kids, next) =>
      var tail := [End(name)] + EventsThen(next, rest);
      assert tail[1..] == EventsThen(next, rest);
      CleanIsStripped(kids, tail);
      CleanIsStripped(next, rest);
    case SelfClosed(_, _, next) => CleanIsStripped(next, rest);
    case Leaf(_, next) => CleanIsStripped(next, rest);
  }

  /** A cut-out element: its own events, the declarations it inherits on its first tag. */
  function CutOut(outer: seq<Attr>, inner: seq<Attr>, el: Forest): seq<Event>
    requires IsElement(el)
  {
    [RootTag(el, RootAttrs(Bindings(inner) + Bindings(outer), el.attrs))] + Stripped(Events(el)[1..])
  }

  lemma FragmentIsCutOut(outer: seq<Attr>, inner: seq<Attr>, el: Forest)
    requires IsElement(el)
    ensures Events(Fragment(Bindings(inner) + Bindings(outer), el)) == CutOut(outer, inner, el)
  {
    var bindings := Bindings(inner) + Bindings(outer);
    if el.Elem? {
      FragmentEvents(bindings, el.name, el.attrs, el.kids);
      CleanIsStripped(el.kids, [End(el.name)]);
      assert [End(el.name)][1..] == [] && [End(el.name)] + EventsThen(Nil, []) == [End(el.name)];
      assert Events(el)[1..] == EventsThen(el.kids, [End(el.name)]);
    } else {
      FragmentEvents(bindings, el.name, el.attrs, Nil);
      assert Events(el)[1..] == [];
    }
  }

  /**
    Read back, a fragment without double quotes in its values is its element, event by event: every tag, every piece of
    text and every entity reference, in document order, and nothing else.
   */
  lemma FragmentHoldsItsElement(outer: seq<Attr>, inner: seq<Attr>, el: Forest)
    requires IsElement(el) && NamedAttrs(outer) && NamedAttrs(inner) && NamedTree(el)
    requires QuoteFree(outer, inner, el)
    ensures ReadAll(FragmentText(outer, inner, el)) == Some(CutOut(outer, inner, el))
  {
    FragmentReadsBackExactlyWhen(outer, inner, el);
    FragmentIsCutOut(outer, inner, el);
  }

  /** No CDATA section, comment or PI. */
  predicate SectionFree(f: Forest)
  {
    match f
    case Nil => true
    case Elem(_, _, kids, next) => SectionFree(kids) && SectionFree(next)
    case SelfClosed(_, _, next) => SectionFree(next)
    case Leaf(piece, next) => !piece.CData? && !piece.Misc? && SectionFree(next)
  }

  lemma {:induction false} SectionFreeIsClean(f: Forest)
    ensures Clean(f) == f <==> SectionFree(f)
    ensures SectionFree(Clean(f))
  {
    match f
    case Nil =>
    case Elem(_, _, kids, next) => SectionFreeIsClean(kids); SectionFreeIsClean(next);
    case SelfClosed(_, _, next) => SectionFreeIsClean(next);
    case Leaf(_, next) => SectionFreeIsClean(next); CleanIsSmaller(next);
  }

  function Size(f: Forest): nat
  {
    match f
    case Nil => 0
    case Elem(_, _, kids, next) => 1 + Size(kids) + Size(next)
    case SelfClosed(_, _, next) => 1 + Size(next)
    case Leaf(_, next) => 1 + Size(next)
  }

  lemma {:induction false} CleanIsSmaller(f: Forest)
    ensures Size(Clean(f)) <= Size(f)
  {
    match f
    case Nil =>
    case Elem(_, _, kids, next) => CleanIsSmaller(kids); CleanIsSmaller(next);
    case SelfClosed(_, _, next) => CleanIsSmaller(next);
    case Leaf(_, next) => CleanIsSmaller(next);
  }

  // ----- What it means

  /** The fragment is a tree, and means what the element means in its document. */
  ghost predicate KeepsMeaning(fragment: seq<Event>, outer: seq<Attr>, inner: seq<Attr>, el: Forest)
  {
    exists f ::
      fragment == Events(f) && Meaning(OUTERMOST, f) == Meaning(Inside(Inside(OUTERMOST, outer), inner), Clean(el))
  }

  /**
    Read back, a fragment without double quotes in its values means what the element means in its document, exactly
    when no prefix the element leaves free is declared differently by its two ancestors.
   */
  lemma FragmentKeepsMeaningExactlyWhen(outer: seq<Attr>, inner: seq<Attr>, el: Forest)
    requires IsElement(el) && NamedAttrs(outer) && NamedAttrs(inner) && NamedTree(el)
    requires QuoteFree(outer, inner, el)
    ensures var read := ReadAll(FragmentText(outer, inner, el));
            read.Some? && (KeepsMeaning(read.value, outer, inner, el) <==> !ChangesMeaning(outer, inner, el))
  {
    var f := Fragment(Bindings(inner) + Bindings(outer), el);
    FragmentReadsBackExactlyWhen(outer, inner, el);
    FragmentMeansTheSameExactlyWhen(outer, inner, el);
    hide Fragment, Meaning, Events, Bindings, ChangesMeaning;
    if KeepsMeaning(Events(f), outer, inner, el) {
      var g :| Events(f) == Events(g)
               && Meaning(OUTERMOST, g) == Meaning(Inside(Inside(OUTERMOST, outer), inner), Clean(el));
      SameEventsSameTree(f, g);
    }
  }

  lemma SameEventsSameTree(f: Forest, g: Forest)
    requires Events(f) == Events(g)
    ensures f == g
  {
    EventsThenInjective(f, g, [], []);
  }

  /** Read back, the root tag has no attribute twice exactly when no prefix clashes. */
  lemma FragmentWellFormedExactlyWhen(outer: seq<Attr>, inner: seq<Attr>, el: Forest)
    requires IsElement(el) && NameLike(el.name) && NamedAttrs(outer) && NamedAttrs(inner) && NamedAttrs(el.attrs)
    requires WellFormedTag(outer) && WellFormedTag(inner) && WellFormedTag(el.attrs)
    requires RootQuoteFree(outer, inner, el.attrs)
    ensures var text := FragmentText(outer, inner, el);
            text != [] && var root := ReadInk(text[0]);
            root.Some? && (root.value.Start? || root.value.Empty?)
            && (WellFormedTag(root.value.attrs) <==> !Clashes(outer, inner, el.attrs))
  {
    FragmentStartsWithRoot(outer, inner, el);
    RootReadsBack(outer, inner, el);
    RootWellFormedExactlyWhen(outer, inner, el.attrs);
    hide WellFormedTag, Clashes, FragmentText, RootAttrs, RootText, ReadTag;
  }

  // ----- What a double quote does

  /** The inherited declarations, none of them overridden. */
  function AllInherited(outer: seq<Attr>, inner: seq<Attr>): seq<Attr>
  {
    Inherited(Bindings(inner) + Bindings(outer), {})
  }

  lemma InheritedReads(outer: seq<Attr>, inner: seq<Attr>)
    requires NamedAttrs(outer) && NamedAttrs(inner) && QuoteFreeAttrs(outer) && QuoteFreeAttrs(inner)
    ensures NamedAttrs(AllInherited(outer, inner)) && QuoteFreeAttrs(AllInherited(outer, inner))
  {
    RootNamed(outer, inner, []);
    BindingsQuoteFree(outer);
    BindingsQuoteFree(inner);
    RootQuotes(outer, inner, []);
    hide NameLike, Inherited;
    assert OwnPrefixes([]) == {} && AllInherited(outer, inner) + [] == AllInherited(outer, inner);
  }

  lemma DoubledRootText(outer: seq<Attr>, inner: seq<Attr>, op: Name, first: Attr, second: Attr)
    requires !IsDecl(first.name)
    ensures RootText(outer, inner, SelfClosed(op, [Doubled(first, second)], Nil))
            == TagText(Key(op), AttrsText(AllInherited(outer, inner) + [first, second]), true)
  {
    assert OwnPrefixes([Doubled(first, second)]) == {};
    hide Inherited, Bindings, OwnPrefixes, Doubled, AttrsText, TagText;
    AttrsTextAppend(AllInherited(outer, inner), [Doubled(first, second)]);
    DoubledText(first, second);
    AttrsTextAppend(AllInherited(outer, inner), [first, second]);
  }

  /** A lone attribute of that kind, in no namespace, comes back as two. */
  lemma DoubledReadsAsTwo(outer: seq<Attr>, inner: seq<Attr>, op: Name, first: Attr, second: Attr)
    requires NamedAttrs(outer) && NamedAttrs(inner) && NameLike(op) && NameLike(first.name) && NameLike(second.name)
    requires QuoteFreeAttrs(outer) && QuoteFreeAttrs(inner) && '"' !in first.value && '"' !in second.value
    requires !IsDecl(first.name)
    ensures ReadTag(RootText(outer, inner, SelfClosed(op, [Doubled(first, second)], Nil)))
            == Some((Empty(op, AllInherited(outer, inner) + [first, second]), ""))
  {
    var two := AllInherited(outer, inner) + [first, second];
    hide AttrsText, NameLike, ReadTag, TagText, AllInherited, RootText;
    InheritedReads(outer, inner);
    DoubledRootText(outer, inner, op, first, second);
    TagReadsBackExactlyWhen(Empty(op, two), "");
    assert Write(Empty(op, two)).text + "" == Write(Empty(op, two)).text;
  }

  lemma BindingsQuoteFree(attrs: seq<Attr>)
    requires QuoteFreeAttrs(attrs)
    ensures forall b :: b in Bindings(attrs) ==> '"' !in b.uri
  {
    forall b | b in Bindings(attrs) ensures '"' !in b.uri {
      BindingsAre(attrs, b);
    }
  }

  /** Such an attribute can repeat its own name, so that the root tag is malformed though no prefix clashes. */
  lemma QuoteRepeatsAttribute(outer: seq<Attr>, op: Name, x: Name, v: string, w: string)
    requires NamedAttrs(outer) && QuoteFreeAttrs(outer) && NameLike(op) && NameLike(x) && !IsDecl(x)
    requires '"' !in v && '"' !in w
    ensures var el := SelfClosed(op, [Doubled(Attr(x, v), Attr(x, w))], Nil);
            var root := ReadTag(RootText(outer, [], el));
            && WellFormedTag(el.attrs) && !Clashes(outer, [], el.attrs)
            && root.Some? && root.value.0.Empty? && !WellFormedTag(root.value.0.attrs)
  {
    DoubledReadsAsTwo(outer, [], op, Attr(x, v), Attr(x, w));
    var inherited := AllInherited(outer, []);
    hide RootText, ReadTag, AllInherited, NameLike, Doubled;
    var n, two := |inherited|, inherited + [Attr(x, v), Attr(x, w)];
    assert two[n].name == two[n + 1].name;
  }
}
