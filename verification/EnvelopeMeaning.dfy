/** What the extracted fragments are and mean, for well-formed envelopes. */
module EnvelopeMeaning {
  import opened Wrappers
  import opened Xml
  import opened Namespaces
  import opened Tags
  import opened Envelope

  // ----- The event loops on trees

  /** A forest without its CDATA sections, comments and PIs. */
  function Clean(f: Forest): (c: Forest)
    ensures IsElement(f) ==> IsElement(c)
  {
    match f
    case Nil => Nil
    case Elem(name, attrs, kids, next) => Elem(name, attrs, Clean(kids), Clean(next))
    case SelfClosed(name, attrs, next) => SelfClosed(name, attrs, Clean(next))
    case Leaf(piece, next) => if Kept(piece) then Leaf(piece, Clean(next)) else Clean(next)
  }

  /** The first element of a forest, alone. */
  function FirstElement(f: Forest): (el: Option<Forest>)
    ensures el.Some? ==> IsElement(el.value)
  {
    match f
    case Nil => None
    case Elem(name, attrs, kids, _) => Some(Elem(name, attrs, kids, Nil))
    case SelfClosed(name, attrs, _) => Some(SelfClosed(name, attrs, Nil))
    case Leaf(_, next) => FirstElement(next)
  }

  predicate IsElement(f: Forest) { (f.Elem? || f.SelfClosed?) && f.next == Nil }

  /** An element cut out of its document: cleaned, with the inherited declarations on its root. */
  function Fragment(bindings: seq<Binding>, el: Forest): Forest
    requires IsElement(el)
  {
    if el.Elem? then Elem(el.name, RootAttrs(bindings, el.attrs), Clean(el.kids), Nil)
    else SelfClosed(el.name, RootAttrs(bindings, el.attrs), Nil)
  }

  /** Every element of a forest, cut out. */
  function Fragments(bindings: seq<Binding>, f: Forest): seq<seq<Event>>
  {
    match f
    case Nil => []
    case Elem(name, attrs, kids, next) =>
      [Events(Fragment(bindings, Elem(name, attrs, kids, Nil)))] + Fragments(bindings, next)
    case SelfClosed(name, attrs, next) =>
      [Events(Fragment(bindings, SelfClosed(name, attrs, Nil)))] + Fragments(bindings, next)
    case Leaf(_, next) => Fragments(bindings, next)
  }

  lemma FragmentEvents(bindings: seq<Binding>, name: Name, attrs: seq<Attr>, kids: Forest)
    ensures Events(Fragment(bindings, Elem(name, attrs, kids, Nil)))
            == [Start(name, RootAttrs(bindings, attrs))] + EventsThen(Clean(kids), [End(name)])
    ensures Events(Fragment(bindings, SelfClosed(name, attrs, Nil))) == [Empty(name, RootAttrs(bindings, attrs))]
  {
    assert [End(name)] + EventsThen(Nil, []) == [End(name)];
  }

  /** Copying runs over a whole forest and comes out with the forest cleaned. */
  lemma {:induction false} CopyForest(f: Forest, rest: seq<Event>, depth: nat)
    requires depth >= 1
    ensures var after := CopyUntilClose(rest, depth);
            var all := CopyUntilClose(EventsThen(f, rest), depth);
            if after.Ok? then all == Ok(Split(EventsThen(Clean(f), after.value.taken), after.value.rest))
            else all == after
  {
    match f
    case Nil =>
    case Elem(name, _, kids, next) =>
      CopyForest(next, rest, depth);
      CopyForest(kids, [End(name)] + EventsThen(next, rest), depth + 1);
    case SelfClosed(_, _, next) => CopyForest(next, rest, depth);
    case Leaf(_, next) => CopyForest(next, rest, depth);
  }

  lemma {:induction false} SkipForest(f: Forest, rest: seq<Event>, depth: nat)
    requires depth >= 1
    ensures SkipToEnd(EventsThen(f, rest), depth) == SkipToEnd(rest, depth)
  {
    match f
    case Nil =>
    case Elem(name, _, kids, next) =>
      SkipForest(kids, [End(name)] + EventsThen(next, rest), depth + 1);
      SkipForest(next, rest, depth);
    case SelfClosed(_, _, next) => SkipForest(next, rest, depth);
    case Leaf(_, next) => SkipForest(next, rest, depth);
  }

  /** An element's content and end tag, copied. */
  lemma CopyContent(name: Name, kids: Forest, rest: seq<Event>)
    ensures CopyUntilClose(EventsThen(kids, [End(name)] + rest), 1)
            == Ok(Split(EventsThen(Clean(kids), [End(name)]), rest))
  {
    CopyForest(kids, [End(name)] + rest, 1);
    assert ([End(name)] + rest)[1..] == rest;
  }

  lemma {:induction false} HeaderForest(f: Forest, close: Name, rest: seq<Event>, bindings: seq<Binding>)
    ensures HeaderChildren(EventsThen(f, [End(close)] + rest), bindings) == Ok(Split(Fragments(bindings, f), rest))
  {
    match f
    case Nil => assert ([End(close)] + rest)[1..] == rest;
    case Elem(name, attrs, kids, next) =>
      CopyContent(name, kids, EventsThen(next, [End(close)] + rest));
      FragmentEvents(bindings, name, attrs, kids);
      HeaderForest(next, close, rest, bindings);
    case SelfClosed(name, attrs, next) =>
      FragmentEvents(bindings, name, attrs, Nil);
      HeaderForest(next, close, rest, bindings);
    case Leaf(_, next) => HeaderForest(next, close, rest, bindings);
  }

  /** Taking the first child of Body and skipping to Body's end consumes exactly Body. */
  lemma {:induction false} BodyForest(f: Forest, close: Name, rest: seq<Event>, bindings: seq<Binding>)
    ensures var taken := BodyChild(EventsThen(f, [End(close)] + rest), bindings);
            match FirstElement(f)
            case None => taken == Err(MissingBody)
            case Some(el) =>
              taken.Ok? && taken.value.taken == Events(Fragment(bindings, el))
              && SkipToEnd(taken.value.rest, 1) == Ok(rest)
  {
    var tail := [End(close)] + rest;
    assert tail[1..] == rest;
    match f
    case Nil =>
    case Elem(name, attrs, kids, next) =>
      CopyContent(name, kids, EventsThen(next, tail));
      FragmentEvents(bindings, name, attrs, kids);
      SkipForest(next, tail, 1);
    case SelfClosed(name, attrs, next) =>
      FragmentEvents(bindings, name, attrs, Nil);
      SkipForest(next, tail, 1);
    case Leaf(_, next) => BodyForest(next, close, rest, bindings);
  }

  /** The envelope's children, as a tree function: the last Header and the last Body count. */
  function SplitChildren(scope: Scope, bindings: seq<Binding>, f: Forest, parts: Parts): Result<Parts, Fault>
  {
    match f
    case Nil => Ok(parts)
    case SelfClosed(_, _, next) => SplitChildren(scope, bindings, next, parts)
    case Leaf(_, next) => SplitChildren(scope, bindings, next, parts)
    case Elem(name, attrs, kids, next) =>
      var inherited := Bindings(attrs) + bindings;
      match PartOf(scope, name, attrs)
      case HeaderPart => SplitChildren(scope, bindings, next, parts.(headers := Fragments(inherited, kids)))
      case BodyPart => (
        match FirstElement(kids)
        case None => Err(MissingBody)
        case Some(el) =>
          SplitChildren(scope, bindings, next, parts.(body := Some(Events(Fragment(inherited, el)))))
      )
      case OtherPart => SplitChildren(scope, bindings, next, parts)
  }

  lemma {:induction false} ChildrenForest(
      f: Forest, close: Name, rest: seq<Event>, scope: Scope, bindings: seq<Binding>, parts: Parts)
    ensures EnvelopeChildren(EventsThen(f, [End(close)] + rest), scope, bindings, parts)
            == SplitChildren(scope, bindings, f, parts)
  {
    match f
    case Nil =>
    case SelfClosed(_, _, next) => ChildrenForest(next, close, rest, scope, bindings, parts);
    case Leaf(_, next) => ChildrenForest(next, close, rest, scope, bindings, parts);
    case Elem(name, attrs, kids, next) =>
      var tail := EventsThen(next, [End(close)] + rest);
      var inherited := Bindings(attrs) + bindings;
      match PartOf(scope, name, attrs)
      case HeaderPart =>
        HeaderForest(kids, name, tail, inherited);
        ChildrenForest(next, close, rest, scope, bindings, parts.(headers := Fragments(inherited, kids)));
      case BodyPart =>
        BodyForest(kids, name, tail, inherited);
        if FirstElement(kids).Some? {
          var el := FirstElement(kids).value;
          ChildrenForest(next, close, rest, scope, bindings,
                         parts.(body := Some(Events(Fragment(inherited, el)))));
        }
      case OtherPart =>
        SkipForest(kids, [End(name)] + tail, 1);
        assert ([End(name)] + tail)[1..] == tail;
        ChildrenForest(next, close, rest, scope, bindings, parts);
  }

  /** A document: leading comments and PIs, then the document element, then anything. */
  function Document(prolog: seq<Piece>, root: Forest, epilog: Forest): seq<Event>
    requires root.Elem? && root.next == Nil
  {
    if prolog == [] then EventsThen(root, Events(epilog))
    else [Chars(prolog[0])] + Document(prolog[1..], root, epilog)
  }

  /** Parsing a document whose root is a SOAP envelope splits the tree. */
  lemma {:induction false} ParseDocument(
      prolog: seq<Piece>, name: Name, attrs: seq<Attr>, kids: Forest, epilog: Forest, version: SoapVersion)
    requires name.local == "Envelope"
    requires ElementNs(Inside(OUTERMOST, attrs), name.prefix) == Bound(if version == Soap12 then SOAP12 else SOAP11)
    ensures var parts := SplitChildren(Inside(OUTERMOST, attrs), Bindings(attrs), kids, Parts([], None));
            Parse(Document(prolog, Elem(name, attrs, kids, Nil), epilog)) ==
              if parts.Err? then Err(parts.error)
              else if parts.value.body.None? then Err(MissingBody)
              else Ok(Parsed(version, WriteEach(parts.value.headers), WriteAll(parts.value.body.value)))
  {
    if prolog == [] {
      var doc := Document(prolog, Elem(name, attrs, kids, Nil), epilog);
      var tail := EventsThen(kids, [End(name)] + Events(epilog));
      assert EventsThen(Nil, Events(epilog)) == Events(epilog);
      assert doc == [Start(name, attrs)] + tail;
      assert doc[1..] == tail;
      assert SOAP12 != SOAP11 by {
        assert |SOAP12| != |SOAP11|;
      }
      ChildrenForest(kids, name, Events(epilog), Inside(OUTERMOST, attrs), Bindings(attrs), Parts([], None));
    } else {
      ParseDocument(prolog[1..], name, attrs, kids, epilog, version);
    }
  }

  // ----- What the fragment's root declares

  lemma {:induction false} DeclaredKeys(attrs: seq<Attr>)
    ensures Declared(attrs).Keys == OwnPrefixes(attrs)
  {
    forall p
      ensures p in Declared(attrs) <==> p in OwnPrefixes(attrs)
    {
      DeclaredHas(attrs, p);
    }
  }

  /** The bindings of a tag, as a scope. */
  function AsScope(bindings: seq<Binding>): Scope
  {
    if bindings == [] then map[] else
      var rest := AsScope(bindings[1..]);
      if bindings[0].prefix in rest then rest else rest[bindings[0].prefix := bindings[0].uri]
  }

  lemma {:induction false} BindingsScope(attrs: seq<Attr>)
    ensures AsScope(Bindings(attrs)) == Declared(attrs)
  {
    if attrs != [] {
      BindingsScope(attrs[1..]);
      if IsDecl(attrs[0].name) {
        assert Bindings(attrs)[1..] == Bindings(attrs[1..]);
      } else {
        assert Bindings(attrs) == Bindings(attrs[1..]);
      }
    }
  }

  lemma {:induction false} AsScopeAppend(a: seq<Binding>, b: seq<Binding>)
    ensures AsScope(a + b) == AsScope(a) + AsScope(b)
  {
    if a == [] {
      assert a + b == b;
    } else {
      assert (a + b)[1..] == a[1..] + b;
      AsScopeAppend(a[1..], b);
    }
  }

  lemma {:induction false} InheritedScope(bindings: seq<Binding>, own: set<string>)
    ensures Declared(Inherited(bindings, own)) == AsScope(bindings) - own
  {
    if bindings != [] {
      var b, rest := bindings[0], Inherited(bindings[1..], own);
      InheritedScope(bindings[1..], own);
      if b.prefix in own {
        assert Inherited(bindings, own) == rest;
        hide Declared, Inherited;
      } else {
        DeclaredCons(b, rest);
        hide Declared;
        assert Inherited(bindings, own) == [Attr(DeclName(b.prefix), b.uri)] + rest;
      }
    }
  }

  lemma DeclaredCons(b: Binding, rest: seq<Attr>)
    ensures Declared([Attr(DeclName(b.prefix), b.uri)] + rest)
            == if b.prefix in Declared(rest) then Declared(rest) else Declared(rest)[b.prefix := b.uri]
  {
    assert ([Attr(DeclName(b.prefix), b.uri)] + rest)[1..] == rest;
  }

  lemma {:induction false} InheritedInvisible(scope: Scope, bindings: seq<Binding>, own: set<string>)
    ensures ExpandAttrs(scope, Inherited(bindings, own)) == []
  {
    if bindings != [] {
      InheritedInvisible(scope, bindings[1..], own);
      if bindings[0].prefix in own {
        assert Inherited(bindings, own) == Inherited(bindings[1..], own);
      } else {
        assert Inherited(bindings, own)[1..] == Inherited(bindings[1..], own);
      }
    }
  }

  lemma DeclaredByRoot(bindings: seq<Binding>, own: seq<Attr>)
    ensures Declared(RootAttrs(bindings, own)) == (AsScope(bindings) - OwnPrefixes(own)) + Declared(own)
  {
    InheritedScope(bindings, OwnPrefixes(own));
    DeclaredAppend(Inherited(bindings, OwnPrefixes(own)), own);
  }

  lemma ScopeAlgebra(s: Scope, inner: Scope, outer: Scope, own: Scope)
    ensures s + (((inner + outer) - own.Keys) + own) == ((s + inner) + outer) + own
  {
  }

  /** The scope a fragment's root sees alone, its own declarations aside: the outer declarations hide the inner ones. */
  function Swapped(outer: seq<Attr>, inner: seq<Attr>): Scope { Inside(Inside(OUTERMOST, inner), outer) }

  lemma FragmentScope(outer: seq<Attr>, inner: seq<Attr>, own: seq<Attr>)
    ensures Inside(OUTERMOST, RootAttrs(Bindings(inner) + Bindings(outer), own)) == Inside(Swapped(outer, inner), own)
  {
    var bindings := Bindings(inner) + Bindings(outer);
    BindingsScope(inner);
    BindingsScope(outer);
    AsScopeAppend(Bindings(inner), Bindings(outer));
    DeclaredByRoot(bindings, own);
    DeclaredKeys(own);
    hide Declared, Bindings, OwnPrefixes, RootAttrs, AsScope;
    ScopeAlgebra(OUTERMOST, Declared(inner), Declared(outer), Declared(own));
  }

  // ----- Names keep their meaning

  /** The prefixes of attributes that are looked up. */
  function AttrPrefixes(attrs: seq<Attr>): set<string>
  {
    set a | a in attrs && !IsDecl(a.name) && a.name.prefix != "" :: a.name.prefix
  }

  /** The prefixes a forest uses where it does not declare them. */
  function Free(f: Forest): set<string>
  {
    match f
    case Nil => {}
    case Elem(name, attrs, kids, next) =>
      ({name.prefix} + AttrPrefixes(attrs) + Free(kids) - OwnPrefixes(attrs)) + Free(next)
    case SelfClosed(name, attrs, next) => ({name.prefix} + AttrPrefixes(attrs) - OwnPrefixes(attrs)) + Free(next)
    case Leaf(_, next) => Free(next)
  }

  lemma {:induction false} CleanUsesTheSame(f: Forest)
    ensures Free(Clean(f)) == Free(f)
  {
    match f
    case Nil =>
    case Elem(_, _, kids, next) => CleanUsesTheSame(kids); CleanUsesTheSame(next);
    case SelfClosed(_, _, next) => CleanUsesTheSame(next);
    case Leaf(_, next) => CleanUsesTheSame(next);
  }

  /** Both scopes give each of these prefixes the same namespace. */
  predicate Agree(s: Scope, t: Scope, prefixes: set<string>)
  {
    forall p :: p in prefixes ==> ElementNs(s, p) == ElementNs(t, p)
  }

  lemma {:induction false} AttrsAgreeExactlyWhen(s: Scope, t: Scope, attrs: seq<Attr>)
    ensures ExpandAttrs(s, attrs) == ExpandAttrs(t, attrs) <==> Agree(s, t, AttrPrefixes(attrs))
  {
    if attrs != [] {
      var a, x, y := attrs[0], ExpandAttrs(s, attrs), ExpandAttrs(t, attrs);
      AttrsAgreeExactlyWhen(s, t, attrs[1..]);
      AttrPrefixesFirst(attrs);
      hide AttrPrefixes;
      if IsDecl(a.name) {
        assert x == ExpandAttrs(s, attrs[1..]) && y == ExpandAttrs(t, attrs[1..]);
        assert {} + AttrPrefixes(attrs[1..]) == AttrPrefixes(attrs[1..]);
      } else {
        assert x[1..] == ExpandAttrs(s, attrs[1..]) && y[1..] == ExpandAttrs(t, attrs[1..]);
        assert x == y <==> x[0] == y[0] && x[1..] == y[1..];
      }
    }
  }

  lemma AttrPrefixesFirst(attrs: seq<Attr>)
    requires attrs != []
    ensures AttrPrefixes(attrs) ==
            (if IsDecl(attrs[0].name) || attrs[0].name.prefix == "" then {} else {attrs[0].name.prefix})
            + AttrPrefixes(attrs[1..])
  {
    assert attrs == [attrs[0]] + attrs[1..];
  }

  /** What an element declares hides what the scopes around it say. */
  lemma AgreeInside(s: Scope, t: Scope, attrs: seq<Attr>, prefixes: set<string>)
    ensures Agree(Inside(s, attrs), Inside(t, attrs), prefixes) <==> Agree(s, t, prefixes - OwnPrefixes(attrs))
  {
    DeclaredKeys(attrs);
    hide Declared, OwnPrefixes;
    forall p
      ensures p !in OwnPrefixes(attrs) ==>
                ElementNs(Inside(s, attrs), p) == ElementNs(s, p) && ElementNs(Inside(t, attrs), p) == ElementNs(t, p)
      ensures p in OwnPrefixes(attrs) ==> ElementNs(Inside(s, attrs), p) == ElementNs(Inside(t, attrs), p)
    {
    }
  }

  lemma AgreeOnUnion(s: Scope, t: Scope, p: set<string>, q: set<string>)
    ensures Agree(s, t, p + q) <==> Agree(s, t, p) && Agree(s, t, q)
  {
  }

  lemma TagAgrees(s: Scope, t: Scope, name: Name, attrs: seq<Attr>)
    ensures var s', t' := Inside(s, attrs), Inside(t, attrs);
            ElementNs(s', name.prefix) == ElementNs(t', name.prefix) && ExpandAttrs(s', attrs) == ExpandAttrs(t', attrs)
            <==> Agree(s', t', {name.prefix} + AttrPrefixes(attrs))
  {
    AttrsAgreeExactlyWhen(Inside(s, attrs), Inside(t, attrs), attrs);
    AgreeOnUnion(Inside(s, attrs), Inside(t, attrs), {name.prefix}, AttrPrefixes(attrs));
    hide ElementNs, Inside, AttrPrefixes, ExpandAttrs;
  }

  /** A forest means the same in two scopes exactly when they agree on the prefixes free in it. */
  lemma {:induction false} MeansTheSameExactlyWhen(s: Scope, t: Scope, f: Forest)
    ensures Meaning(s, f) == Meaning(t, f) <==> Agree(s, t, Free(f))
    decreases f
  {
    hide ElementNs, Inside, AttrPrefixes, ExpandAttrs, OwnPrefixes, Agree;
    match f
    case Nil => assert Agree(s, t, {}) by { AgreeOnNothing(s, t); }
    case Elem(name, attrs, kids, next) =>
      var s', t', used := Inside(s, attrs), Inside(t, attrs), {name.prefix} + AttrPrefixes(attrs);
      TagAgrees(s, t, name, attrs);
      MeansTheSameExactlyWhen(s', t', kids);
      MeansTheSameExactlyWhen(s, t, next);
      AgreeOnUnion(s', t', used, Free(kids));
      AgreeInside(s, t, attrs, used + Free(kids));
      AgreeOnUnion(s, t, used + Free(kids) - OwnPrefixes(attrs), Free(next));
    case SelfClosed(name, attrs, next) =>
      var used := {name.prefix} + AttrPrefixes(attrs);
      TagAgrees(s, t, name, attrs);
      MeansTheSameExactlyWhen(s, t, next);
      AgreeInside(s, t, attrs, used);
      AgreeOnUnion(s, t, used - OwnPrefixes(attrs), Free(next));
    case Leaf(_, next) => MeansTheSameExactlyWhen(s, t, next);
  }

  lemma AgreeOnNothing(s: Scope, t: Scope)
    ensures Agree(s, t, {})
  {
  }

  /** Both ancestors declare the prefix, but not the same. */
  predicate DeclaredDifferently(outer: seq<Attr>, inner: seq<Attr>, p: string)
  {
    p in Declared(outer) && p in Declared(inner) && Declared(outer)[p] != Declared(inner)[p]
  }

  /** Some prefix the element leaves free is declared differently by its two ancestors. */
  predicate ChangesMeaning(outer: seq<Attr>, inner: seq<Attr>, el: Forest)
  {
    exists p :: p in Free(el) && DeclaredDifferently(outer, inner, p)
  }

  lemma SwappedAgrees(outer: seq<Attr>, inner: seq<Attr>, p: string)
    ensures ElementNs(Swapped(outer, inner), p) == ElementNs(Inside(Inside(OUTERMOST, outer), inner), p)
            <==> !DeclaredDifferently(outer, inner, p)
  {
    hide Declared;
  }

  /** Every name of the fragment means alone what it means in the document, exactly when no such prefix is used. */
  lemma FragmentMeansTheSameExactlyWhen(outer: seq<Attr>, inner: seq<Attr>, el: Forest)
    requires IsElement(el)
    ensures Meaning(OUTERMOST, Fragment(Bindings(inner) + Bindings(outer), el))
            == Meaning(Inside(Inside(OUTERMOST, outer), inner), Clean(el))
            <==> !ChangesMeaning(outer, inner, el)
  {
    var bindings := Bindings(inner) + Bindings(outer);
    FragmentScope(outer, inner, el.attrs);
    var scope := Inside(OUTERMOST, RootAttrs(bindings, el.attrs));
    ExpandAttrsAppend(scope, Inherited(bindings, OwnPrefixes(el.attrs)), el.attrs);
    InheritedInvisible(scope, bindings, OwnPrefixes(el.attrs));
    assert Meaning(OUTERMOST, Fragment(bindings, el)) == Meaning(Swapped(outer, inner), Clean(el));
    hide Meaning, Fragment, RootAttrs, Inherited, ExpandAttrs, Declared, ElementNs;
    MeansTheSameExactlyWhen(Swapped(outer, inner), Inside(Inside(OUTERMOST, outer), inner), Clean(el));
    CleanUsesTheSame(el);
    forall p
      ensures ElementNs(Swapped(outer, inner), p) == ElementNs(Inside(Inside(OUTERMOST, outer), inner), p)
              <==> !DeclaredDifferently(outer, inner, p)
    {
      SwappedAgrees(outer, inner, p);
    }
  }

  // ----- When the fragment's root is well-formed

  /** A prefix declared on both ancestors, and not on the element itself, is re-emitted twice. */
  predicate Clashes(outer: seq<Attr>, inner: seq<Attr>, own: seq<Attr>)
  {
    exists p :: p in OwnPrefixes(outer) && p in OwnPrefixes(inner) && p !in OwnPrefixes(own)
  }

  lemma {:induction false} InheritedNames(bindings: seq<Binding>, own: set<string>, a: Attr)
    requires a in Inherited(bindings, own)
    ensures IsDecl(a.name) && a.name == DeclName(DeclPrefix(a.name)) && DeclPrefix(a.name) !in own
    ensures exists b :: b in bindings && b.prefix == DeclPrefix(a.name)
  {
    if bindings[0].prefix !in own && a == Attr(DeclName(bindings[0].prefix), bindings[0].uri) {
      assert bindings[0] in bindings;
    } else {
      assert a in Inherited(bindings[1..], own);
      InheritedNames(bindings[1..], own, a);
    }
  }

  lemma {:induction false} InheritedHas(bindings: seq<Binding>, own: set<string>, b: Binding)
    requires b in bindings && b.prefix !in own
    ensures Attr(DeclName(b.prefix), b.uri) in Inherited(bindings, own)
  {
    if b != bindings[0] {
      InheritedHas(bindings[1..], own, b);
    }
  }

  lemma {:induction false} BindingsAre(attrs: seq<Attr>, b: Binding)
    ensures b in Bindings(attrs) <==>
            exists a :: a in attrs && IsDecl(a.name) && DeclPrefix(a.name) == b.prefix && a.value == b.uri
  {
    if attrs != [] {
      BindingsAre(attrs[1..], b);
      assert attrs == [attrs[0]] + attrs[1..];
      assert attrs[0] in attrs;
    }
  }

  predicate DistinctPrefixes(bindings: seq<Binding>)
  {
    forall i, j :: 0 <= i < j < |bindings| ==> bindings[i].prefix != bindings[j].prefix
  }

  lemma {:induction false} BindingsDistinct(attrs: seq<Attr>)
    requires WellFormedTag(attrs)
    ensures DistinctPrefixes(Bindings(attrs))
  {
    if attrs != [] {
      BindingsDistinct(attrs[1..]);
      if IsDecl(attrs[0].name) {
        forall b | b in Bindings(attrs[1..])
          ensures b.prefix != DeclPrefix(attrs[0].name)
        {
          BindingsAre(attrs[1..], b);
        }
      }
    }
  }

  lemma {:induction false} InheritedDistinct(bindings: seq<Binding>, own: set<string>)
    requires forall i, j :: 0 <= i < j < |bindings| && bindings[i].prefix !in own ==>
               bindings[i].prefix != bindings[j].prefix
    ensures WellFormedTag(Inherited(bindings, own))
  {
    if bindings != [] {
      InheritedDistinct(bindings[1..], own);
      if bindings[0].prefix !in own {
        forall a | a in Inherited(bindings[1..], own)
          ensures a.name != DeclName(bindings[0].prefix)
        {
          InheritedNames(bindings[1..], own, a);
        }
      }
    }
  }

  /** Two equal prefixes among the bindings, not overridden, give the root the same attribute twice. */
  lemma {:induction false} InheritedRepeats(first: seq<Binding>, second: seq<Binding>, own: set<string>, p: string)
    requires p !in own && (exists b :: b in first && b.prefix == p) && (exists b :: b in second && b.prefix == p)
    ensures !WellFormedTag(Inherited(first + second, own))
  {
    InheritedAppend(first, second, own);
    var b1 :| b1 in first && b1.prefix == p;
    var b2 :| b2 in second && b2.prefix == p;
    InheritedHas(first, own, b1);
    InheritedHas(second, own, b2);
    var left, right := Inherited(first, own), Inherited(second, own);
    var i :| 0 <= i < |left| && left[i] == Attr(DeclName(p), b1.uri);
    var j :| 0 <= j < |right| && right[j] == Attr(DeclName(p), b2.uri);
    assert (left + right)[i].name == (left + right)[|left| + j].name;
  }

  lemma {:induction false} InheritedAppend(a: seq<Binding>, b: seq<Binding>, own: set<string>)
    ensures Inherited(a + b, own) == Inherited(a, own) + Inherited(b, own)
  {
    if a == [] {
      assert a + b == b;
    } else {
      assert (a + b)[1..] == a[1..] + b;
      InheritedAppend(a[1..], b, own);
    }
  }

  lemma HasPrefix(attrs: seq<Attr>, p: string)
    ensures p in OwnPrefixes(attrs) <==> exists b :: b in Bindings(attrs) && b.prefix == p
  {
    if p in OwnPrefixes(attrs) {
      var a :| a in attrs && IsDecl(a.name) && DeclPrefix(a.name) == p;
      BindingsAre(attrs, Binding(p, a.value));
    }
    if b :| b in Bindings(attrs) && b.prefix == p {
      BindingsAre(attrs, b);
    }
  }

  /** The root tag has no attribute twice exactly when no prefix clashes. */
  lemma RootWellFormedExactlyWhen(outer: seq<Attr>, inner: seq<Attr>, own: seq<Attr>)
    requires WellFormedTag(outer) && WellFormedTag(inner) && WellFormedTag(own)
    ensures WellFormedTag(RootAttrs(Bindings(inner) + Bindings(outer), own)) <==> !Clashes(outer, inner, own)
  {
    hide Bindings, OwnPrefixes, Inherited;
    var first, second, prefixes := Bindings(inner), Bindings(outer), OwnPrefixes(own);
    var inherited := Inherited(first + second, prefixes);
    if Clashes(outer, inner, own) {
      var p :| p in OwnPrefixes(outer) && p in OwnPrefixes(inner) && p !in prefixes;
      HasPrefix(outer, p);
      HasPrefix(inner, p);
      InheritedRepeats(first, second, prefixes, p);
      if WellFormedTag(inherited + own) {
        PartWellFormed(inherited, own);
      }
    } else {
      BindingsDistinct(inner);
      BindingsDistinct(outer);
      forall i, j | 0 <= i < j < |first + second| && (first + second)[i].prefix !in prefixes
        ensures (first + second)[i].prefix != (first + second)[j].prefix
      {
        if i < |first| <= j {
          assert first[i] in first && second[j - |first|] in second;
          HasPrefix(inner, first[i].prefix);
          HasPrefix(outer, second[j - |first|].prefix);
        }
      }
      InheritedDistinct(first + second, prefixes);
      forall a, b | a in inherited && b in own
        ensures a.name != b.name
      {
        InheritedNames(first + second, prefixes, a);
        if a.name == b.name {
          OwnPrefixHas(own, b);
        }
      }
    }
  }

  lemma OwnPrefixHas(own: seq<Attr>, b: Attr)
    requires b in own && IsDecl(b.name)
    ensures DeclPrefix(b.name) in OwnPrefixes(own)
  {
  }

  lemma PartWellFormed(a: seq<Attr>, b: seq<Attr>)
    requires WellFormedTag(a + b)
    ensures WellFormedTag(a)
  {
    forall i, j | 0 <= i < j < |a|
      ensures a[i].name != a[j].name
    {
      assert (a + b)[i] == a[i] && (a + b)[j] == a[j];
    }
    assert forall x :: x in a ==> x in a + b;
  }
}
