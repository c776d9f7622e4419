/** Reading a canonical form back: when it still means the same, and when it is its own canonical form. */
module CanonicalReread {
  import opened Wrappers
  import opened Xml
  import opened Namespaces
  import opened Ordering
  import opened Tags
  import opened Canonical
  import opened CanonicalComplete
  import opened CanonicalText

  // ----- One root

  /** Tags match, and all of them lie within one document element. */
  predicate Rooted(tokens: seq<Token>, open: seq<EName>, seen: bool)
  {
    tokens == [] ||
    match tokens[0]
    case Open(name, _, selfClosing) =>
      (open != [] || !seen) && Rooted(tokens[1..], if selfClosing then open else open + [name], true)
    case Close(name) =>
      open != [] && name == open[|open| - 1] && Rooted(tokens[1..], open[..|open| - 1], seen)
    case _ => Rooted(tokens[1..], open, seen)
  }

  // ----- The scope every element of the output is in

  function OutputScope(uris: seq<string>): Scope
  {
    OUTERMOST + Declared(DeclAttrs(Sorted(DeclEntries(uris))))
  }

  lemma FirstKeyIsNew(es: seq<Entry>)
    requires es != [] && DistinctKeys(es)
    ensures forall x :: x in es[1..] ==> x.key != es[0].key
    ensures DistinctKeys(es[1..])
    ensures forall x :: x in es <==> x == es[0] || x in es[1..]
  {
    assert es == [es[0]] + es[1..];
  }

  lemma DeclaredFirst(es: seq<Entry>)
    requires es != [] && es[0].key != ""
    ensures var rest := Declared(DeclAttrs(es[1..]));
            Declared(DeclAttrs(es)) ==
              if es[0].key in rest then rest else rest[es[0].key := es[0].value]
  {
    assert DeclAttrs(es)[1..] == DeclAttrs(es[1..]);
  }

  /** Declarations with distinct prefixes are exactly what is declared. */
  lemma {:induction false} DeclaredEntries(es: seq<Entry>, e: Entry)
    requires DistinctKeys(es) && (forall x :: x in es ==> x.key != "")
    ensures e in es ==> e.key in Declared(DeclAttrs(es)) && Declared(DeclAttrs(es))[e.key] == e.value
    ensures e.key in Declared(DeclAttrs(es)) ==> exists x :: x in es && x.key == e.key
  {
    if es != [] {
      FirstKeyIsNew(es);
      assert es[0] in es;
      DeclaredFirst(es);
      hide Declared, DistinctKeys;
      DeclaredEntries(es[1..], e);
      DeclaredEntries(es[1..], es[0]);
    } else {
      assert DeclAttrs(es) == [];
    }
  }

  lemma DeclsLookUp(uris: seq<string>, i: nat)
    requires i < |uris|
    ensures PrefixAt(i) in OutputScope(uris) && OutputScope(uris)[PrefixAt(i)] == uris[i]
    ensures "" !in OutputScope(uris) && "xml" in OutputScope(uris) && OutputScope(uris)["xml"] == XML_NS
  {
    NoStrayDecl(uris, "");
    NoStrayDecl(uris, "xml");
    var es := Sorted(DeclEntries(uris));
    DeclKeys(uris);
    SortedMembers(DeclEntries(uris), DeclEntries(uris)[i]);
    DeclaredEntries(es, DeclEntries(uris)[i]);
  }

  lemma DeclKeys(uris: seq<string>)
    ensures DistinctKeys(Sorted(DeclEntries(uris)))
    ensures forall x :: x in Sorted(DeclEntries(uris)) ==> |x.key| >= 2 && x.key[0] == 'n'
  {
    DeclEntriesDistinct(uris);
    SortedDistinct(DeclEntries(uris));
    forall x | x in Sorted(DeclEntries(uris))
      ensures |x.key| >= 2 && x.key[0] == 'n'
    {
      SortedMembers(DeclEntries(uris), x);
      var i :| 0 <= i < |uris| && DeclEntries(uris)[i] == x;
      PrefixAtInjective(i, i);
    }
  }

  lemma NoStrayDecl(uris: seq<string>, prefix: string)
    requires prefix == "" || prefix[0] != 'n'
    ensures prefix !in Declared(DeclAttrs(Sorted(DeclEntries(uris))))
  {
    DeclKeys(uris);
    DeclaredEntries(Sorted(DeclEntries(uris)), Entry(prefix, ""));
  }

  // ----- Names come back

  lemma ElementNameBack(uris: seq<string>, name: EName)
    requires GoodName(name) && name.ns != Uri(XML_NS) && Covered(uris, name.ns)
    ensures ElementName(OutputScope(uris), Name(PrefixFor(uris, name.ns), name.local)) == Ok(name)
  {
    if name.ns.Uri? {
      var i := IndexOf(uris, name.ns.uri);
      DeclsLookUp(uris, i);
      PrefixAtInjective(i, i);
    } else {
      NoStrayDecl(uris, "");
    }
  }

  lemma AttrBack(uris: seq<string>, a: EAttr)
    requires GoodName(a.name) && a.name != EName(NoNs, "xmlns") && Covered(uris, a.name.ns)
    ensures var name := ReadName(AttrEntry(uris, a).key);
            !IsDecl(name) && AttrName(OutputScope(uris), name) == a.name
  {
    PrefixForInjective(uris, a.name.ns, a.name.ns);
    ReadWritten(PrefixFor(uris, a.name.ns), a.name.local);
    if a.name.ns.Uri? && a.name.ns.uri != XML_NS {
      var i := IndexOf(uris, a.name.ns.uri);
      DeclsLookUp(uris, i);
      PrefixAtInjective(i, i);
      assert PrefixAt(i)[0] != "xmlns"[0] && PrefixAt(i)[0] != "xml"[0];
    }
  }

  function EscapedAttr(a: EAttr): EAttr { EAttr(a.name, Escape(a.value)) }

  /** Some attribute of the list is what the entry was written from. */
  ghost predicate WrittenFrom(uris: seq<string>, attrs: seq<EAttr>, e: Entry, back: EAttr)
  {
    exists a :: a in attrs && e == AttrEntry(uris, a) && back == EscapedAttr(a)
  }

  /** The first entry of a tag reads back as the attribute it was written from, escaped. */
  lemma HeadBack(uris: seq<string>, a: EAttr, es: seq<Entry>)
    requires GoodName(a.name) && a.name != EName(NoNs, "xmlns") && Covered(uris, a.name.ns)
    requires es != [] && es[0] == AttrEntry(uris, a)
    requires Declared(EntryAttrs(es[1..])) == map[]
    ensures Declared(EntryAttrs(es)) == map[]
    ensures AttrsOf(OutputScope(uris), EntryAttrs(es))
            == [EscapedAttr(a)] + AttrsOf(OutputScope(uris), EntryAttrs(es[1..]))
  {
    AttrBack(uris, a);
    hide OutputScope, IsDecl, AttrName, GoodName, Covered;
    assert EntryAttrs(es)[1..] == EntryAttrs(es[1..]);
    assert EntryAttrs(es)[0] == Attr(ReadName(AttrEntry(uris, a).key), Escape(a.value));
  }

  lemma EntrySource(uris: seq<string>, attrs: seq<EAttr>, e: Entry) returns (a: EAttr)
    requires e in AttrEntries(uris, attrs)
    ensures a in attrs && e == AttrEntry(uris, a)
  {
    var k :| 0 <= k < |attrs| && AttrEntries(uris, attrs)[k] == e;
    a := attrs[k];
  }

  lemma NothingBack(uris: seq<string>)
    ensures Declared(EntryAttrs([])) == map[] && AttrsOf(OutputScope(uris), EntryAttrs([])) == []
  {
    assert EntryAttrs([]) == [];
  }

  /** Read back entry by entry, the attributes are those written, values escaped. */
  lemma {:induction false} AttrsBack(uris: seq<string>, attrs: seq<EAttr>, es: seq<Entry>)
    requires forall a :: a in attrs ==> GoodName(a.name) && a.name != EName(NoNs, "xmlns") && Covered(uris, a.name.ns)
    requires forall e :: e in es ==> e in AttrEntries(uris, attrs)
    ensures Declared(EntryAttrs(es)) == map[]
    ensures var back := AttrsOf(OutputScope(uris), EntryAttrs(es));
            |back| == |es| && forall i :: 0 <= i < |es| ==> WrittenFrom(uris, attrs, es[i], back[i])
  {
    hide AttrsOf, EntryAttrs, Declared, OutputScope, GoodName, Covered, AttrEntries, AttrEntry, EscapedAttr;
    hide WrittenFrom;
    if es == [] {
      NothingBack(uris);
    } else {
      assert es == [es[0]] + es[1..];
      AttrsBack(uris, attrs, es[1..]);
      var a := EntrySource(uris, attrs, es[0]);
      HeadBack(uris, a, es);
      var back, rest := AttrsOf(OutputScope(uris), EntryAttrs(es)), AttrsOf(OutputScope(uris), EntryAttrs(es[1..]));
      assert WrittenFrom(uris, attrs, es[0], EscapedAttr(a)) by { WasWritten(uris, attrs, a); }
      forall i | 0 <= i < |es|
        ensures WrittenFrom(uris, attrs, es[i], back[i])
      {
        if i > 0 {
          assert es[i] == es[1..][i - 1] && back[i] == rest[i - 1];
        }
      }
    }
  }

  lemma WasWritten(uris: seq<string>, attrs: seq<EAttr>, a: EAttr)
    requires a in attrs
    ensures WrittenFrom(uris, attrs, AttrEntry(uris, a), EscapedAttr(a))
  {
  }

  function EscapedAttrs(attrs: seq<EAttr>): (r: seq<EAttr>)
    ensures |r| == |attrs| && forall i :: 0 <= i < |r| ==> r[i] == EscapedAttr(attrs[i])
  {
    seq(|attrs|, i requires 0 <= i < |attrs| => EscapedAttr(attrs[i]))
  }

  function EscapedToken(t: Token): Token
  {
    if t.Open? then t.(attrs := EscapedAttrs(t.attrs)) else t
  }

  function EscapedTokens(tokens: seq<Token>): (r: seq<Token>)
    ensures |r| == |tokens| && forall i :: 0 <= i < |r| ==> r[i] == EscapedToken(tokens[i])
  {
    seq(|tokens|, i requires 0 <= i < |tokens| => EscapedToken(tokens[i]))
  }

  /** A tag read back holds the same attributes, escaped, and no name twice. */
  lemma TagBack(uris: seq<string>, t: Token, back: seq<EAttr>)
    requires t.Open? && GoodToken(t) && TokenCovered(uris, t)
    requires back == AttrsOf(OutputScope(uris), EntryAttrs(Sorted(AttrEntries(uris, t.attrs))))
    ensures SameToken(t.(attrs := back), EscapedToken(t))
    ensures GoodToken(t.(attrs := back))
  {
    var es := Sorted(AttrEntries(uris, t.attrs));
    forall e
      ensures e in es <==> e in AttrEntries(uris, t.attrs)
    {
      SortedMembers(AttrEntries(uris, t.attrs), e);
    }
    AttrsBack(uris, t.attrs, es);
    TagBackForward(uris, t.attrs, es, back);
    TagBackBackward(uris, t.attrs, es, back);
    AttrEntriesDistinct(uris, t.attrs);
    SortedDistinct(AttrEntries(uris, t.attrs));
    TagBackDistinct(uris, t.attrs, es, back);
  }

  lemma TagBackForward(uris: seq<string>, attrs: seq<EAttr>, es: seq<Entry>, back: seq<EAttr>)
    requires |back| == |es| && (forall i :: 0 <= i < |es| ==> WrittenFrom(uris, attrs, es[i], back[i]))
    ensures forall b :: b in back ==> b in EscapedAttrs(attrs)
    ensures forall b :: b in back ==> exists a :: a in attrs && a.name == b.name
  {
    forall b | b in back
      ensures b in EscapedAttrs(attrs)
      ensures exists a :: a in attrs && a.name == b.name
    {
      var i :| 0 <= i < |back| && back[i] == b;
      assert WrittenFrom(uris, attrs, es[i], back[i]);
      var a :| a in attrs && es[i] == AttrEntry(uris, a) && back[i] == EscapedAttr(a);
      var k :| 0 <= k < |attrs| && attrs[k] == a;
      assert EscapedAttrs(attrs)[k] == b;
    }
  }

  lemma TagBackBackward(uris: seq<string>, attrs: seq<EAttr>, es: seq<Entry>, back: seq<EAttr>)
    requires |back| == |es| && (forall i :: 0 <= i < |es| ==> WrittenFrom(uris, attrs, es[i], back[i]))
    requires forall e :: e in AttrEntries(uris, attrs) ==> e in es
    requires forall a :: a in attrs ==> GoodName(a.name) && Covered(uris, a.name.ns)
    ensures forall b :: b in EscapedAttrs(attrs) ==> b in back
  {
    forall b | b in EscapedAttrs(attrs)
      ensures b in back
    {
      var k :| 0 <= k < |attrs| && EscapedAttrs(attrs)[k] == b;
      assert AttrEntries(uris, attrs)[k] in es;
      var i :| 0 <= i < |es| && es[i] == AttrEntry(uris, attrs[k]);
      assert WrittenFrom(uris, attrs, es[i], back[i]);
      var a :| a in attrs && es[i] == AttrEntry(uris, a) && back[i] == EscapedAttr(a);
      AttrEntryInjective(uris, a, attrs[k]);
    }
  }

  lemma TagBackDistinct(uris: seq<string>, attrs: seq<EAttr>, es: seq<Entry>, back: seq<EAttr>)
    requires |back| == |es| && (forall i :: 0 <= i < |es| ==> WrittenFrom(uris, attrs, es[i], back[i]))
    requires DistinctKeys(es)
    ensures forall i, j :: 0 <= i < j < |back| ==> back[i].name != back[j].name
  {
    forall i, j | 0 <= i < j < |back|
      ensures back[i].name != back[j].name
    {
      assert WrittenFrom(uris, attrs, es[i], back[i]) && WrittenFrom(uris, attrs, es[j], back[j]);
      assert es[i].key != es[j].key;
    }
  }

  // ----- Whole documents

  /** Frames that stand for these names, all in the scope of the output's root. */
  ghost predicate InOutput(uris: seq<string>, names: seq<EName>, open: seq<Frame>)
  {
    |open| == |names| && forall i :: 0 <= i < |open| ==> open[i] == Frame(names[i], OutputScope(uris))
  }

  /** The attributes of a rendered tag as they are read: declarations on the first, then the rest. */
  function TagAttrs(uris: seq<string>, t: Token, first: bool): seq<Attr>
    requires t.Open?
  {
    DeclAttrs(if first then Sorted(DeclEntries(uris)) else []) + EntryAttrs(Sorted(AttrEntries(uris, t.attrs)))
  }

  lemma TagShape(uris: seq<string>, t: Token, first: bool)
    requires t.Open?
    ensures var e, name := AsEvent(RenderToken(uris, first, t)), Name(PrefixFor(uris, t.name.ns), t.name.local);
            e == if t.selfClosing then Empty(name, TagAttrs(uris, t, first)) else Start(name, TagAttrs(uris, t, first))
  {
  }

  lemma TagScope(uris: seq<string>, t: Token, first: bool, names: seq<EName>, open: seq<Frame>)
    requires t.Open? && Declared(EntryAttrs(Sorted(AttrEntries(uris, t.attrs)))) == map[]
    requires InOutput(uris, names, open) && (first <==> open == [])
    ensures Inside(ScopeOf(open), TagAttrs(uris, t, first)) == OutputScope(uris)
  {
    hide AttrEntries, Sorted, DeclEntries;
    var attrs := EntryAttrs(Sorted(AttrEntries(uris, t.attrs)));
    DeclaredAppend(DeclAttrs(if first then Sorted(DeclEntries(uris)) else []), attrs);
    assert DeclAttrs([]) == [];
  }

  /** One tag read back: its name, its attributes, and the scope inside it. */
  lemma TagReread(uris: seq<string>, t: Token, first: bool, names: seq<EName>, open: seq<Frame>)
    requires t.Open? && GoodToken(t) && TokenCovered(uris, t)
    requires InOutput(uris, names, open) && (first <==> open == [])
    ensures var e := AsEvent(RenderToken(uris, first, t));
            && (if t.selfClosing then e.Empty? else e.Start?)
            && Inside(ScopeOf(open), e.attrs) == OutputScope(uris)
            && ElementName(OutputScope(uris), e.name) == Ok(t.name)
            && var back := t.(attrs := AttrsOf(OutputScope(uris), e.attrs));
               SameToken(back, EscapedToken(t)) && GoodToken(back)
  {
    var es := Sorted(AttrEntries(uris, t.attrs));
    var decls := DeclAttrs(if first then Sorted(DeclEntries(uris)) else []);
    forall e | e in es
      ensures e in AttrEntries(uris, t.attrs)
    {
      SortedMembers(AttrEntries(uris, t.attrs), e);
    }
    AttrsBack(uris, t.attrs, es);
    TagShape(uris, t, first);
    ElementNameBack(uris, t.name);
    hide AttrsOf, Sorted, AttrEntries, AsEvent, RenderToken, SameToken, EscapedToken, Inside, OutputScope, Declared;
    hide PrefixFor, ElementName, GoodToken;
    TagScope(uris, t, first, names, open);
    DeclsAreNoAttrs(OutputScope(uris), decls, EntryAttrs(es));
    TagBack(uris, t, AttrsOf(OutputScope(uris), EntryAttrs(es)));
  }

  lemma {:induction false} DeclsAreNoAttrs(scope: Scope, decls: seq<Attr>, attrs: seq<Attr>)
    requires forall i :: 0 <= i < |decls| ==> IsDecl(decls[i].name)
    ensures AttrsOf(scope, decls + attrs) == AttrsOf(scope, attrs)
  {
    if decls == [] {
      assert decls + attrs == attrs;
    } else {
      assert (decls + attrs)[1..] == decls[1..] + attrs;
      DeclsAreNoAttrs(scope, decls[1..], attrs);
    }
  }

  lemma SameMeaningStep(s: Token, t: Token, r: seq<Token>, q: seq<Token>)
    requires SameToken(s, t) && SameMeaning(r, q)
    ensures SameMeaning([s] + r, [t] + q)
  {
    SameMeaningCons([s] + r, [t] + q);
    assert ([s] + r)[1..] == r && ([t] + q)[1..] == q;
  }

  lemma GoodStep(s: Token, r: seq<Token>)
    requires GoodToken(s) && AllGood(r)
    ensures AllGood([s] + r)
  {
  }

  lemma TailFacts(uris: seq<string>, tokens: seq<Token>)
    requires tokens != [] && AllGood(tokens) && AllCovered(uris, tokens)
    ensures GoodToken(tokens[0]) && TokenCovered(uris, tokens[0])
    ensures AllGood(tokens[1..]) && AllCovered(uris, tokens[1..])
    ensures EscapedTokens(tokens) == [EscapedToken(tokens[0])] + EscapedTokens(tokens[1..])
  {
  }

  lemma EventsFirst(uris: seq<string>, tokens: seq<Token>, first: bool)
    requires tokens != []
    ensures AsEvents(Render(uris, tokens, first)) ==
            [AsEvent(RenderToken(uris, first, tokens[0]))]
            + AsEvents(Render(uris, tokens[1..], first && !tokens[0].Open?))
  {
    var out := Render(uris, tokens, first);
    assert out[1..] == Render(uris, tokens[1..], first && !tokens[0].Open?);
  }

  /** The output of a rooted document means what the document means, with every attribute value escaped. */
  lemma {:induction false} RereadMeaning(
      uris: seq<string>, tokens: seq<Token>, names: seq<EName>, open: seq<Frame>, first: bool)
    requires AllGood(tokens) && AllCovered(uris, tokens)
    requires Rooted(tokens, names, !first) && InOutput(uris, names, open) && (first ==> open == [])
    ensures var r := MeaningOf(AsEvents(Render(uris, tokens, first)), open);
            r.Ok? && SameMeaning(r.value, EscapedTokens(tokens)) && AllGood(r.value)
  {
    hide RenderToken, AsEvent, GoodToken, SameToken, AttrsOf, EscapedToken, Inside, ElementName, AllGood, AllCovered;
    hide SameMeaning, Render, AsEvents, Tokens;
    if tokens == [] {
      RereadNothing(uris, first, open);
    } else {
      var t, rest := tokens[0], tokens[1..];
      var more := first && !t.Open?;
      TailFacts(uris, tokens);
      EventsFirst(uris, tokens, first);
      var tail := AsEvents(Render(uris, rest, more));
      match t
      case Open(name, attrs, selfClosing) =>
        TagReread(uris, t, first, names, open);
        var e := AsEvent(RenderToken(uris, first, t));
        var back := t.(attrs := AttrsOf(OutputScope(uris), e.attrs));
        var frames := if selfClosing then open else open + [Frame(name, OutputScope(uris))];
        RereadMeaning(uris, rest, if selfClosing then names else names + [name], frames, false);
        SameMeaningStep(back, EscapedToken(t), MeaningOf(tail, frames).value, EscapedTokens(rest));
        GoodStep(back, MeaningOf(tail, frames).value);
        assert ([e] + tail)[1..] == tail;
      case Close(name) =>
        var shorter := open[..|open| - 1];
        RereadMeaning(uris, rest, names[..|names| - 1], shorter, more);
        ReadOther(uris, first, t);
        SameMeaningStep(t, EscapedToken(t), MeaningOf(tail, shorter).value, EscapedTokens(rest));
        GoodStep(t, MeaningOf(tail, shorter).value);
        assert ([AsEvent(RenderToken(uris, first, t))] + tail)[1..] == tail;
      case _ =>
        RereadMeaning(uris, rest, names, open, more);
        ReadOther(uris, first, t);
        SameMeaningStep(t, EscapedToken(t), MeaningOf(tail, open).value, EscapedTokens(rest));
        GoodStep(t, MeaningOf(tail, open).value);
        assert ([AsEvent(RenderToken(uris, first, t))] + tail)[1..] == tail;
    }
  }

  lemma RereadNothing(uris: seq<string>, first: bool, open: seq<Frame>)
    ensures MeaningOf(AsEvents(Render(uris, [], first)), open) == Ok([])
    ensures SameMeaning([], EscapedTokens([])) && AllGood([])
  {
  }

  lemma ReadOther(uris: seq<string>, first: bool, t: Token)
    requires !t.Open?
    ensures var e := AsEvent(RenderToken(uris, first, t));
            if t.Close? then e.End? else e.Chars? && Tokens(e.piece) == [t]
    ensures SameToken(t, EscapedToken(t))
  {
  }

  // ----- When escaping changes nothing

  predicate Plain(value: string) { '"' !in value && '<' !in value && '&' !in value }

  lemma {:induction false} EscapeGrows(value: string)
    ensures |Escape(value)| >= |value|
    ensures |Escape(value)| == |value| <==> Plain(value)
    ensures Plain(value) ==> Escape(value) == value
  {
    if value != "" {
      EscapeGrows(value[1..]);
      assert value == [value[0]] + value[1..];
    }
  }

  predicate AllPlain(tokens: seq<Token>)
  {
    forall i, a :: 0 <= i < |tokens| && tokens[i].Open? && a in tokens[i].attrs ==> Plain(a.value)
  }

  lemma TokenPlainExactlyWhen(t: Token)
    requires GoodToken(t) && t.Open?
    ensures SameToken(EscapedToken(t), t) <==> forall a :: a in t.attrs ==> Plain(a.value)
  {
    if SameToken(EscapedToken(t), t) {
      forall a | a in t.attrs
        ensures Plain(a.value)
      {
        var k :| 0 <= k < |t.attrs| && t.attrs[k] == a;
        assert EscapedAttrs(t.attrs)[k] == EscapedAttr(a);
        assert EscapedAttr(a) in t.attrs;
        EscapeGrows(a.value);
      }
    }
    if forall a :: a in t.attrs ==> Plain(a.value) {
      forall k | 0 <= k < |t.attrs|
        ensures EscapedAttrs(t.attrs)[k] == t.attrs[k]
      {
        EscapeGrows(t.attrs[k].value);
      }
      assert EscapedAttrs(t.attrs) == t.attrs;
    }
  }

  lemma PlainExactlyWhen(tokens: seq<Token>)
    requires AllGood(tokens)
    ensures SameMeaning(EscapedTokens(tokens), tokens) <==> AllPlain(tokens)
  {
    forall i | 0 <= i < |tokens| && tokens[i].Open?
      ensures SameToken(EscapedToken(tokens[i]), tokens[i]) <==> forall a :: a in tokens[i].attrs ==> Plain(a.value)
    {
      TokenPlainExactlyWhen(tokens[i]);
    }
    if SameMeaning(EscapedTokens(tokens), tokens) {
      forall i, a | 0 <= i < |tokens| && tokens[i].Open? && a in tokens[i].attrs
        ensures Plain(a.value)
      {
        assert SameToken(EscapedTokens(tokens)[i], tokens[i]);
      }
    }
  }

  lemma SameMeaningChain(s: seq<Token>, t: seq<Token>, u: seq<Token>)
    requires SameMeaning(s, t)
    ensures SameMeaning(s, u) <==> SameMeaning(t, u)
  {
    if SameMeaning(s, u) {
      forall i | 0 <= i < |t|
        ensures SameToken(t[i], u[i])
      {
        assert SameToken(s[i], t[i]) && SameToken(s[i], u[i]);
      }
    }
    if SameMeaning(t, u) {
      forall i | 0 <= i < |s|
        ensures SameToken(s[i], u[i])
      {
        assert SameToken(s[i], t[i]) && SameToken(t[i], u[i]);
      }
    }
  }

  // ----- Main results

  /** The events read in the canonical form; runs of characters that a tokenizer joins mean the same apart. */
  ghost function CanonicalEvents(events: seq<Event>): Option<seq<Event>>
    requires CanonicalForm(events).Ok?
  {
    ReadAll(CanonicalForm(events).value)
  }

  lemma EscapedUses(t: Token, uri: string)
    ensures Uses(EscapedToken(t), uri) <==> Uses(t, uri)
  {
    if t.Open? {
      var e := EscapedToken(t);
      forall k | 0 <= k < |t.attrs| ensures e.attrs[k].name == t.attrs[k].name && t.attrs[k] in t.attrs {
      }
      if a :| a in t.attrs && a.name.ns == Uri(uri) {
        var k :| 0 <= k < |t.attrs| && t.attrs[k] == a;
        assert e.attrs[k] in e.attrs;
      }
    }
  }

  lemma EscapedUsed(tokens: seq<Token>)
    ensures Used(EscapedTokens(tokens)) == Used(tokens)
  {
    hide Uses, EscapedToken;
    var escaped := EscapedTokens(tokens);
    forall uri
      ensures uri in Used(escaped) <==> uri in Used(tokens)
    {
      UsedHolds(escaped, uri);
      UsedHolds(tokens, uri);
      if t :| t in tokens && Uses(t, uri) {
        var i :| 0 <= i < |tokens| && tokens[i] == t;
        EscapedUses(t, uri);
        assert escaped[i] in escaped;
      }
      if t :| t in escaped && Uses(t, uri) {
        var i :| 0 <= i < |escaped| && escaped[i] == t;
        EscapedUses(tokens[i], uri);
        assert tokens[i] in tokens;
      }
    }
  }

  /** Read back, the canonical form means what the document means, with every attribute value escaped. */
  lemma CanonicalFormMeans(events: seq<Event>)
    requires NamespaceWellFormed(events) && Rooted(MeaningOf(events, []).value, [], false)
    requires QuoteFreeNamespaces(events)
    ensures var read := CanonicalEvents(events);
      && read.Some? && NamespaceWellFormed(read.value) && QuoteFreeNamespaces(read.value)
      && SameMeaning(MeaningOf(read.value, []).value, EscapedTokens(MeaningOf(events, []).value))
  {
    var tokens := MeaningOf(events, []).value;
    var uris := InOrder(Used(tokens));
    UsedCovers(events, [], uris);
    CanonicalFormReadsBackExactlyWhen(events);
    RereadMeaning(uris, tokens, [], [], true);
    hide MeaningOf, Render, AsEvents, InkAll, ReadAll, SameMeaning, EscapedTokens, Used;
    SameMeaningSameUris(MeaningOf(CanonicalEvents(events).value, []).value, EscapedTokens(tokens));
    EscapedUsed(tokens);
  }

  /**
    Where no namespace in use holds a double quote, the canonical form of a well-formed document is read as a
    well-formed document, which means what the document means exactly when no attribute value holds a double quote, a
    less-than sign or an ampersand.
   */
  lemma CanonicalFormMeansTheSame(events: seq<Event>)
    requires NamespaceWellFormed(events) && Rooted(MeaningOf(events, []).value, [], false)
    requires QuoteFreeNamespaces(events)
    ensures var read := CanonicalEvents(events);
      && read.Some? && NamespaceWellFormed(read.value)
      && (SameMeaning(MeaningOf(read.value, []).value, MeaningOf(events, []).value)
          <==> AllPlain(MeaningOf(events, []).value))
  {
    var tokens := MeaningOf(events, []).value;
    CanonicalFormMeans(events);
    PlainExactlyWhen(tokens);
    hide MeaningOf, CanonicalForm, ReadAll, SameMeaning, AllPlain, Rooted;
    SameMeaningChain(MeaningOf(CanonicalEvents(events).value, []).value, EscapedTokens(tokens), tokens);
  }

  /** Canonicalising twice changes nothing the second time, under exactly the same condition. */
  lemma CanonicalFormIsFixedPoint(events: seq<Event>)
    requires NamespaceWellFormed(events) && Rooted(MeaningOf(events, []).value, [], false)
    requires QuoteFreeNamespaces(events)
    ensures var read := CanonicalEvents(events);
      read.Some? && (CanonicalForm(read.value) == CanonicalForm(events) <==> AllPlain(MeaningOf(events, []).value))
  {
    CanonicalFormMeans(events);
    CanonicalFormMeansTheSame(events);
    hide MeaningOf, CanonicalForm, ReadAll, SameMeaning, AllPlain, Rooted, QuoteFreeNamespaces;
    CanonicalFormIsComplete(CanonicalEvents(events).value, events);
  }

  // ----- Documents are rooted

  lemma StartOpens(name: Name, attrs: seq<Attr>, rest: seq<Event>, open: seq<Frame>)
    requires MeaningOf([Start(name, attrs)] + rest, open).Ok?
    ensures var inner := Inside(ScopeOf(open), attrs); ElementName(inner, name).Ok?
    ensures var inner := Inside(ScopeOf(open), attrs); var en := ElementName(inner, name).value;
      && MeaningOf(rest, open + [Frame(en, inner)]).Ok?
      && MeaningOf([Start(name, attrs)] + rest, open).value
         == [Open(en, AttrsOf(inner, attrs), false)] + MeaningOf(rest, open + [Frame(en, inner)]).value
  {
    var events := [Start(name, attrs)] + rest;
    assert events[1..] == rest;
  }

  lemma EndCloses(name: Name, rest: seq<Event>, open: seq<Frame>, frame: Frame)
    requires MeaningOf([End(name)] + rest, open + [frame]).Ok?
    ensures MeaningOf(rest, open).Ok?
    ensures MeaningOf([End(name)] + rest, open + [frame]).value == [Close(frame.name)] + MeaningOf(rest, open).value
  {
    var events := [End(name)] + rest;
    assert events[1..] == rest && (open + [frame])[..|open|] == open;
  }

  lemma RootedAround(
      en: EName, attrs: seq<EAttr>, inside: seq<Token>, after: seq<Token>, names: seq<EName>, seen: bool)
    requires names != [] || !seen
    ensures Rooted([Open(en, attrs, false)] + inside, names, seen) <==> Rooted(inside, names + [en], true)
    ensures Rooted([Close(en)] + after, names + [en], true) <==> Rooted(after, names, true)
  {
    var whole, rest := [Open(en, attrs, false)] + inside, [Close(en)] + after;
    assert whole[1..] == inside && rest[1..] == after && (names + [en])[..|names|] == names;
  }

  /** A forest inside an element leaves rootedness to what follows it. */
  lemma {:induction false} ForestRooted(f: Forest, rest: seq<Event>, open: seq<Frame>, names: seq<EName>)
    requires |open| == |names| >= 1 && (forall i :: 0 <= i < |open| ==> open[i].name == names[i])
    requires MeaningOf(EventsThen(f, rest), open).Ok?
    ensures MeaningOf(rest, open).Ok?
    ensures Rooted(MeaningOf(rest, open).value, names, true) ==>
              Rooted(MeaningOf(EventsThen(f, rest), open).value, names, true)
  {
    match f
    case Nil =>
    case Elem(name, attrs, kids, next) =>
      var inner := Inside(ScopeOf(open), attrs);
      var after := EventsThen(next, rest);
      var tail := [End(name)] + after;
      var inside := EventsThen(kids, tail);
      assert EventsThen(f, rest) == [Start(name, attrs)] + inside;
      hide MeaningOf, Rooted, Inside, ElementName, AttrsOf, EventsThen, ScopeOf;
      StartOpens(name, attrs, inside, open);
      var en := ElementName(inner, name).value;
      var deeper := open + [Frame(en, inner)];
      ForestRooted(kids, tail, deeper, names + [en]);
      EndCloses(name, after, open, Frame(en, inner));
      ForestRooted(next, rest, open, names);
      RootedAround(en, AttrsOf(inner, attrs), MeaningOf(inside, deeper).value, MeaningOf(after, open).value,
                   names, true);
    case SelfClosed(_, _, next) => ForestRooted(next, rest, open, names);
    case Leaf(piece, next) =>
      ForestRooted(next, rest, open, names);
      PieceRooted(Tokens(piece), MeaningOf(EventsThen(next, rest), open).value, names, true);
  }

  lemma {:induction false} PieceRooted(s: seq<Token>, rest: seq<Token>, names: seq<EName>, seen: bool)
    requires forall t :: t in s ==> !t.Open? && !t.Close?
    ensures Rooted(s + rest, names, seen) <==> Rooted(rest, names, seen)
  {
    if s == [] {
      assert s + rest == rest;
    } else {
      assert (s + rest)[1..] == s[1..] + rest && s[0] in s;
      PieceRooted(s[1..], rest, names, seen);
    }
  }

  predicate OnlyPieces(f: Forest) { f.Nil? || (f.Leaf? && OnlyPieces(f.next)) }

  /** Leading pieces, one element, trailing pieces: the shape of every document. */
  predicate IsDocument(f: Forest)
  {
    || (f.Leaf? && IsDocument(f.next))
    || ((f.Elem? || f.SelfClosed?) && OnlyPieces(f.next))
  }

  lemma {:induction false} PiecesRooted(f: Forest, seen: bool)
    requires OnlyPieces(f)
    ensures MeaningOf(Events(f), []).Ok? && Rooted(MeaningOf(Events(f), []).value, [], seen)
  {
    if f.Leaf? {
      PiecesRooted(f.next, seen);
      PieceRooted(Tokens(f.piece), MeaningOf(Events(f.next), []).value, [], seen);
    }
  }

  lemma RootIsRooted(name: Name, attrs: seq<Attr>, kids: Forest, next: Forest)
    requires OnlyPieces(next) && MeaningOf([Start(name, attrs)] + EventsThen(kids, [End(name)] + Events(next)), []).Ok?
    ensures Rooted(MeaningOf([Start(name, attrs)] + EventsThen(kids, [End(name)] + Events(next)), []).value, [], false)
  {
    assert ScopeOf([]) == OUTERMOST;
    hide MeaningOf, Rooted, Inside, ElementName, AttrsOf, Events, EventsThen, ScopeOf;
    var inner := Inside(OUTERMOST, attrs);
    var tail := [End(name)] + Events(next);
    StartOpens(name, attrs, EventsThen(kids, tail), []);
    var en := ElementName(inner, name).value;
    var frame := Frame(en, inner);
    assert [] + [frame] == [frame] && [] + [en] == [en];
    ForestRooted(kids, tail, [frame], [en]);
    EndCloses(name, Events(next), [], frame);
    PiecesRooted(next, true);
    RootedAround(en, AttrsOf(inner, attrs), MeaningOf(EventsThen(kids, tail), [frame]).value,
                 MeaningOf(Events(next), []).value, [], false);
  }

  lemma {:induction false} DocumentsAreRooted(f: Forest)
    requires IsDocument(f) && MeaningOf(Events(f), []).Ok?
    ensures Rooted(MeaningOf(Events(f), []).value, [], false)
  {
    match f
    case Leaf(piece, next) =>
      DocumentsAreRooted(next);
      PieceRooted(Tokens(piece), MeaningOf(Events(next), []).value, [], false);
    case SelfClosed(_, _, next) => PiecesRooted(next, true);
    case Elem(name, attrs, kids, next) => RootIsRooted(name, attrs, kids, next);
  }
}
