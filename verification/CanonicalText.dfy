/** The canonical form as text: when it reads back as the tags that were meant, and when it tells documents apart. */
module CanonicalText {
  import opened Wrappers
  import opened Xml
  import opened Namespaces
  import opened Ordering
  import opened Tags
  import opened Canonical
  import opened CanonicalComplete

  // ----- The tags that are meant

  function DeclAttrs(decls: seq<Entry>): (r: seq<Attr>)
    ensures |r| == |decls| && forall i :: 0 <= i < |r| ==> r[i] == Attr(Name("xmlns", decls[i].key), decls[i].value)
  {
    seq(|decls|, i requires 0 <= i < |decls| => Attr(Name("xmlns", decls[i].key), decls[i].value))
  }

  function EntryAttrs(entries: seq<Entry>): (r: seq<Attr>)
    ensures |r| == |entries| && forall i :: 0 <= i < |r| ==> r[i] == Attr(ReadName(entries[i].key), entries[i].value)
  {
    seq(|entries|, i requires 0 <= i < |entries| => Attr(ReadName(entries[i].key), entries[i].value))
  }

  function AsEvent(o: Output): Event
  {
    match o
    case OpenTag(prefix, local, decls, attrs, selfClosing) =>
      var all := DeclAttrs(decls) + EntryAttrs(attrs);
      if selfClosing then Empty(Name(prefix, local), all) else Start(Name(prefix, local), all)
    case CloseTag(prefix, local) => End(Name(prefix, local))
    case OutChar(c) => Chars(Text([c]))
    case OutSection(text) => Chars(CData(text))
    case OutEntity(entity) => Chars(GeneralRef(entity))
  }

  /** The events the output is meant to be read as. */
  function AsEvents(out: seq<Output>): seq<Event>
  {
    if out == [] then [] else [AsEvent(out[0])] + AsEvents(out[1..])
  }

  lemma {:induction false} AsEventsAre(out: seq<Output>)
    ensures |AsEvents(out)| == |out| && forall i :: 0 <= i < |out| ==> AsEvents(out)[i] == AsEvent(out[i])
  {
    hide AsEvent;
    if out != [] {
      AsEventsAre(out[1..]);
    }
  }

  // ----- What is written is their text

  lemma {:induction false} DeclsText(decls: seq<Entry>)
    ensures EntriesText("xmlns:", decls) == AttrsText(DeclAttrs(decls))
  {
    hide Quoted;
    if decls != [] {
      DeclsText(decls[1..]);
      assert DeclAttrs(decls)[1..] == DeclAttrs(decls[1..]);
      assert Key(Name("xmlns", decls[0].key)) == "xmlns:" + decls[0].key;
    }
  }

  /** Keys that are split at a colon and put together again as they were. */
  predicate KeysReadBack(entries: seq<Entry>) { forall e :: e in entries ==> Key(ReadName(e.key)) == e.key }

  lemma {:induction false} EntriesTextIs(entries: seq<Entry>)
    requires KeysReadBack(entries)
    ensures EntriesText("", entries) == AttrsText(EntryAttrs(entries))
  {
    hide Quoted, Key, ReadName;
    if entries != [] {
      assert entries[0] in entries && entries == [entries[0]] + entries[1..];
      EntriesTextIs(entries[1..]);
      assert EntryAttrs(entries)[1..] == EntryAttrs(entries[1..]);
      assert "" + entries[0].key == entries[0].key;
    }
  }

  lemma InkIsText(o: Output)
    requires o.OpenTag? ==> KeysReadBack(o.attrs)
    ensures InkOf(o) == Write(AsEvent(o))
  {
    if o.OpenTag? {
      DeclsText(o.decls);
      EntriesTextIs(o.attrs);
      AttrsTextAppend(DeclAttrs(o.decls), EntryAttrs(o.attrs));
      hide AttrsText, EntriesText, TagText, KeysReadBack;
    }
  }

  // ----- Names and quotes in the output

  lemma PrefixChars(uris: seq<string>, ns: Ns)
    requires !ns.Raw?
    ensures NameChars(PrefixFor(uris, ns))
  {
    if ns.Uri? && ns.uri != XML_NS && ns.uri in uris {
      var i := IndexOf(uris, ns.uri);
      DecimalChars(i);
    }
  }

  lemma DecimalChars(i: nat)
    ensures NameChars(PrefixAt(i)) && PrefixAt(i) != "" && ':' !in PrefixAt(i)
  {
    var s := PrefixAt(i);
    forall k | 0 <= k < |s| ensures s[k] !in STOPS && s[k] != ':' {
      if k > 0 {
        assert s[k] == Decimal(i)[k - 1];
        assert s[k] in Decimal(i);
      }
    }
  }

  /** A good name, under the prefix it gets, is one the tokenizer gives. */
  lemma RenderedNameLike(uris: seq<string>, name: EName)
    requires GoodName(name) && Covered(uris, name.ns)
    ensures NameLike(Name(PrefixFor(uris, name.ns), name.local))
  {
    PrefixForInjective(uris, name.ns, name.ns);
    PrefixChars(uris, name.ns);
    hide PrefixFor, NameChars;
    if PrefixFor(uris, name.ns) == "" {
      LocalNameLike(name.local);
    } else {
      PrefixedNameLike(PrefixFor(uris, name.ns), name.local);
    }
  }

  lemma {:induction false} EscapeIsQuoteFree(value: string)
    ensures '"' !in Escape(value)
  {
    if value != "" {
      EscapeIsQuoteFree(value[1..]);
    }
  }

  /** An entry of a rendered tag: its name is one the tokenizer gives, no declaration, and its value quote-free. */
  lemma EntryReads(uris: seq<string>, a: EAttr)
    requires GoodName(a.name) && a.name != EName(NoNs, "xmlns") && Covered(uris, a.name.ns)
    ensures var e := AttrEntry(uris, a);
      && ReadName(e.key) == Name(PrefixFor(uris, a.name.ns), a.name.local)
      && NameLike(ReadName(e.key)) && Key(ReadName(e.key)) == e.key && !IsDecl(ReadName(e.key)) && '"' !in e.value
  {
    PrefixForInjective(uris, a.name.ns, a.name.ns);
    ReadWritten(PrefixFor(uris, a.name.ns), a.name.local);
    RenderedNameLike(uris, a.name);
    EscapeIsQuoteFree(a.value);
    PrefixIsNotXmlns(uris, a.name.ns);
    hide NameLike, NameChars;
  }

  lemma PrefixIsNotXmlns(uris: seq<string>, ns: Ns)
    requires !ns.Raw?
    ensures PrefixFor(uris, ns) != "xmlns"
  {
    if ns.Uri? && ns.uri != XML_NS && ns.uri in uris {
      assert PrefixAt(IndexOf(uris, ns.uri))[0] != "xmlns"[0];
    }
  }

  /** What EntryReads says, for every entry of a tag. */
  predicate EntriesRead(entries: seq<Entry>)
  {
    forall e :: e in entries ==>
      NameLike(ReadName(e.key)) && Key(ReadName(e.key)) == e.key && !IsDecl(ReadName(e.key)) && '"' !in e.value
  }

  lemma TagEntriesRead(uris: seq<string>, attrs: seq<EAttr>)
    requires forall a :: a in attrs ==> GoodName(a.name) && a.name != EName(NoNs, "xmlns") && Covered(uris, a.name.ns)
    ensures EntriesRead(Sorted(AttrEntries(uris, attrs)))
  {
    hide GoodName, Covered, NameLike, AttrEntry;
    forall e | e in Sorted(AttrEntries(uris, attrs))
      ensures NameLike(ReadName(e.key)) && Key(ReadName(e.key)) == e.key && !IsDecl(ReadName(e.key)) && '"' !in e.value
    {
      SortedMembers(AttrEntries(uris, attrs), e);
      var k :| 0 <= k < |attrs| && AttrEntries(uris, attrs)[k] == e;
      EntryReads(uris, attrs[k]);
    }
  }

  lemma EntriesNamed(entries: seq<Entry>)
    requires EntriesRead(entries)
    ensures NamedAttrs(EntryAttrs(entries)) && QuoteFreeAttrs(EntryAttrs(entries)) && KeysReadBack(entries)
    ensures forall a :: a in EntryAttrs(entries) ==> !IsDecl(a.name)
  {
    hide NameLike, IsDecl, ReadName, Key;
    forall a | a in EntryAttrs(entries)
      ensures NameLike(a.name) && '"' !in a.value && !IsDecl(a.name)
    {
      var k :| 0 <= k < |entries| && EntryAttrs(entries)[k] == a;
      assert entries[k] in entries;
    }
  }

  predicate QuoteFreeUris(uris: seq<string>) { forall u :: u in uris ==> '"' !in u }

  lemma DeclsRead(uris: seq<string>)
    ensures NamedAttrs(DeclAttrs(Sorted(DeclEntries(uris))))
    ensures QuoteFreeAttrs(DeclAttrs(Sorted(DeclEntries(uris)))) <==> QuoteFreeUris(uris)
  {
    var entries := Sorted(DeclEntries(uris));
    hide NameLike, PrefixAt;
    forall a | a in DeclAttrs(entries)
      ensures NameLike(a.name) && exists u :: u in uris && a.value == u
    {
      var k :| 0 <= k < |entries| && DeclAttrs(entries)[k] == a;
      SortedMembers(DeclEntries(uris), entries[k]);
      var i :| 0 <= i < |uris| && DeclEntries(uris)[i] == entries[k];
      DeclNamed(i);
      assert uris[i] in uris;
    }
    forall u | u in uris
      ensures exists a :: a in DeclAttrs(entries) && a.value == u
    {
      var i :| 0 <= i < |uris| && uris[i] == u;
      SortedMembers(DeclEntries(uris), DeclEntries(uris)[i]);
      var k :| 0 <= k < |entries| && entries[k] == DeclEntries(uris)[i];
      assert DeclAttrs(entries)[k].value == u;
    }
  }

  lemma DeclNamed(i: nat)
    ensures NameLike(Name("xmlns", PrefixAt(i)))
  {
    DecimalChars(i);
    assert NameChars("xmlns");
    hide NameChars, NameLike, PrefixAt;
    PrefixedNameLike("xmlns", PrefixAt(i));
  }

  // ----- When the output reads back

  /** One piece of output: it is the text of its event, and what its quotes hang on. */
  lemma TokenReads(uris: seq<string>, first: bool, t: Token)
    requires GoodToken(t) && TokenCovered(uris, t)
    ensures var o := RenderToken(uris, first, t);
      && InkOf(o) == Write(AsEvent(o)) && NamedEvent(AsEvent(o))
      && (QuoteFreeEvent(AsEvent(o)) <==> (first && t.Open? ==> QuoteFreeUris(uris)))
  {
    var o := RenderToken(uris, first, t);
    match t
    case Open(name, attrs, _) =>
      var entries, decls := Sorted(AttrEntries(uris, attrs)), if first then Sorted(DeclEntries(uris)) else [];
      RenderedNameLike(uris, name);
      TagEntriesRead(uris, attrs);
      EntriesNamed(entries);
      DeclsRead(uris);
      InkIsText(o);
      hide GoodName, Covered, NameLike, EntriesRead, QuoteFreeUris, KeysReadBack, PrefixFor, Write, InkOf;
      AttrsTogether(DeclAttrs(decls), EntryAttrs(entries));
    case Close(name) =>
      RenderedNameLike(uris, name);
      hide NameLike;
    case _ =>
  }

  lemma AttrsTogether(a: seq<Attr>, b: seq<Attr>)
    ensures NamedAttrs(a + b) <==> NamedAttrs(a) && NamedAttrs(b)
    ensures QuoteFreeAttrs(a + b) <==> QuoteFreeAttrs(a) && QuoteFreeAttrs(b)
  {
    hide NameLike;
    assert forall x :: x in a + b <==> x in a || x in b;
  }

  predicate HasOpen(tokens: seq<Token>) { exists t :: t in tokens && t.Open? }

  lemma {:induction false} OutputReads(uris: seq<string>, tokens: seq<Token>, first: bool)
    requires AllGood(tokens) && AllCovered(uris, tokens)
    ensures var out := Render(uris, tokens, first);
      && InkAll(out) == WriteAll(AsEvents(out)) && AllNamed(AsEvents(out))
      && (AllQuoteFree(AsEvents(out)) <==> (first && HasOpen(tokens) ==> QuoteFreeUris(uris)))
  {
    hide RenderToken, InkOf, AsEvent, Write, NamedEvent, QuoteFreeEvent, GoodToken, TokenCovered, QuoteFreeUris;
    if tokens != [] {
      var t, rest, more := tokens[0], tokens[1..], first && !tokens[0].Open?;
      var out, tail := Render(uris, tokens, first), Render(uris, rest, more);
      assert tokens == [t] + rest;
      assert out == [RenderToken(uris, first, t)] + tail && out[1..] == tail;
      TokenReads(uris, first, t);
      OutputReads(uris, rest, more);
      NamedCons(AsEvent(out[0]), AsEvents(tail));
      WriteFirst(AsEvents(out));
      assert AsEvents(out)[1..] == AsEvents(tail);
      assert InkAll(out) == [InkOf(out[0])] + InkAll(tail);
      assert HasOpen(tokens) <==> t.Open? || HasOpen(rest);
    }
  }

  /** No namespace in use holds a double quote. */
  predicate QuoteFreeNamespaces(events: seq<Event>)
    requires MeaningOf(events, []).Ok?
  {
    forall u :: u in Used(MeaningOf(events, []).value) ==> '"' !in u
  }

  /** The canonical form reads back as the tags that were meant exactly when no namespace in use has a double quote. */
  lemma CanonicalFormReadsBackExactlyWhen(events: seq<Event>)
    requires NamespaceWellFormed(events)
    ensures ReadAll(CanonicalForm(events).value) == Some(AsEvents(CanonicalTags(events).value))
            <==> QuoteFreeNamespaces(events)
  {
    var tokens := MeaningOf(events, []).value;
    var uris := InOrder(Used(tokens));
    UsedCovers(events, [], uris);
    OutputReads(uris, tokens, true);
    ReadsBackExactlyWhen(AsEvents(CanonicalTags(events).value));
    hide Render, MeaningOf, InkAll, AllNamed, AllQuoteFree, AllGood, AllCovered;
    if !HasOpen(tokens) {
      forall u ensures u !in Used(tokens) {
        UsedHolds(tokens, u);
      }
    }
  }

  // ----- The text tells the tags apart

  /** How many attributes at the front are declarations. */
  function LeadingDecls(attrs: seq<Attr>): nat
  {
    if attrs == [] || !IsDecl(attrs[0].name) then 0 else 1 + LeadingDecls(attrs[1..])
  }

  lemma {:induction false} DeclsLead(d: seq<Attr>, a: seq<Attr>)
    requires (forall x :: x in d ==> IsDecl(x.name)) && (forall x :: x in a ==> !IsDecl(x.name))
    ensures LeadingDecls(d + a) == |d|
  {
    if d == [] {
      assert d + a == a;
    } else {
      assert (d + a)[1..] == d[1..] + a && (d + a)[0] == d[0];
      DeclsLead(d[1..], a);
    }
  }

  /** Declarations first, then other attributes: the two lists can be told apart. */
  lemma SplitAtDecls(d: seq<Attr>, a: seq<Attr>, e: seq<Attr>, b: seq<Attr>)
    requires d + a == e + b
    requires (forall x :: x in d || x in e ==> IsDecl(x.name)) && (forall x :: x in a || x in b ==> !IsDecl(x.name))
    ensures d == e && a == b
  {
    DeclsLead(d, a);
    DeclsLead(e, b);
    assert d == (d + a)[..|d|] && e == (e + b)[..|e|];
    assert a == (d + a)[|d|..] && b == (e + b)[|e|..];
  }

  lemma SameDeclAttrs(d: seq<Entry>, e: seq<Entry>)
    requires DeclAttrs(d) == DeclAttrs(e)
    ensures d == e
  {
    forall i | 0 <= i < |d| ensures d[i] == e[i] {
      assert DeclAttrs(d)[i] == DeclAttrs(e)[i];
    }
  }

  lemma SameEntryAttrs(d: seq<Entry>, e: seq<Entry>)
    requires EntryAttrs(d) == EntryAttrs(e) && KeysReadBack(d) && KeysReadBack(e)
    ensures d == e
  {
    hide Key, ReadName;
    assert |d| == |EntryAttrs(d)| == |e|;
    forall i | 0 <= i < |d| ensures d[i] == e[i] {
      assert EntryAttrs(d)[i] == EntryAttrs(e)[i] && d[i] in d && e[i] in e;
    }
  }

  predicate TagRead(o: Output) { o.OpenTag? ==> EntriesRead(o.attrs) }

  lemma RenderedRead(uris: seq<string>, first: bool, t: Token)
    requires GoodToken(t) && TokenCovered(uris, t)
    ensures TagRead(RenderToken(uris, first, t))
  {
    if t.Open? {
      TagEntriesRead(uris, t.attrs);
      hide Sorted, AttrEntries, DeclEntries, EntriesRead;
    }
  }

  lemma SameEventSameOutput(o: Output, p: Output)
    requires TagRead(o) && TagRead(p) && AsEvent(o) == AsEvent(p)
    ensures o == p
  {
    if o.OpenTag? {
      EntriesNamed(o.attrs);
      EntriesNamed(p.attrs);
      hide EntriesRead, KeysReadBack, IsDecl;
      DeclsAreDecls(o.decls);
      DeclsAreDecls(p.decls);
      SplitAtDecls(DeclAttrs(o.decls), EntryAttrs(o.attrs), DeclAttrs(p.decls), EntryAttrs(p.attrs));
      SameDeclAttrs(o.decls, p.decls);
      SameEntryAttrs(o.attrs, p.attrs);
    }
  }

  lemma DeclsAreDecls(decls: seq<Entry>)
    ensures forall x :: x in DeclAttrs(decls) ==> IsDecl(x.name)
  {
  }

  lemma SameEventsSameOutput(u: seq<string>, s: seq<Token>, v: seq<string>, t: seq<Token>, first: bool, more: bool)
    requires AllGood(s) && AllCovered(u, s) && AllGood(t) && AllCovered(v, t)
    requires AsEvents(Render(u, s, first)) == AsEvents(Render(v, t, more))
    ensures Render(u, s, first) == Render(v, t, more)
  {
    hide RenderToken, AsEvent, GoodToken, TokenCovered, TagRead;
    AsEventsAre(Render(u, s, first));
    AsEventsAre(Render(v, t, more));
    if s != [] && t != [] {
      var x, y := Render(u, s, first), Render(v, t, more);
      assert x[1..] == Render(u, s[1..], first && !s[0].Open?) && y[1..] == Render(v, t[1..], more && !t[0].Open?);
      assert AsEvents(x)[0] == AsEvents(y)[0] && AsEvents(x)[1..] == AsEvents(x[1..]);
      assert AsEvents(y)[1..] == AsEvents(y[1..]);
      RenderedRead(u, first, s[0]);
      RenderedRead(v, more, t[0]);
      SameEventSameOutput(x[0], y[0]);
      SameEventsSameOutput(u, s[1..], v, t[1..], first && !s[0].Open?, more && !t[0].Open?);
      assert x == [x[0]] + x[1..] && y == [y[0]] + y[1..];
    }
  }

  /**
    Two namespace-well-formed documents whose namespaces in use hold no double quote have one canonical form exactly
    when they mean the same.
   */
  lemma CanonicalFormIsComplete(d: seq<Event>, e: seq<Event>)
    requires NamespaceWellFormed(d) && NamespaceWellFormed(e)
    requires QuoteFreeNamespaces(d) && QuoteFreeNamespaces(e)
    ensures CanonicalForm(d) == CanonicalForm(e) <==> SameMeaning(MeaningOf(d, []).value, MeaningOf(e, []).value)
  {
    CanonicalTagsAreComplete(d, e);
    if CanonicalForm(d) == CanonicalForm(e) {
      CanonicalFormReadsBackExactlyWhen(d);
      CanonicalFormReadsBackExactlyWhen(e);
      var s, t := MeaningOf(d, []).value, MeaningOf(e, []).value;
      UsedCovers(d, [], InOrder(Used(s)));
      UsedCovers(e, [], InOrder(Used(t)));
      hide MeaningOf, Render, AsEvents, InkAll, SameMeaning, AllGood, AllCovered;
      SameEventsSameOutput(InOrder(Used(s)), s, InOrder(Used(t)), t, true, true);
    }
  }

  // ----- What a double quote does

  /** A document that is one empty tag, with `uri` as its default namespace and these further attributes. */
  function LoneTag(local: string, uri: string, attrs: seq<Attr>): seq<Event>
  {
    [Empty(Name("", local), [Attr(Name("", "xmlns"), uri)] + attrs)]
  }

  function LoneToken(local: string, uri: string, attrs: seq<EAttr>): Token { Open(EName(Uri(uri), local), attrs, true) }

  lemma LoneMeaning(local: string, uri: string, attrs: seq<Attr>)
    requires uri != "" && uri != XML_NS && Declared(attrs) == map[]
    ensures MeaningOf(LoneTag(local, uri, attrs), [])
            == Ok([LoneToken(local, uri, AttrsOf(OUTERMOST + map["" := uri], attrs))])
  {
    var events, all := LoneTag(local, uri, attrs), [Attr(Name("", "xmlns"), uri)] + attrs;
    var scope := OUTERMOST + map["" := uri];
    assert all[1..] == attrs && events[1..] == [];
    assert Declared(all) == map["" := uri];
    assert AttrsOf(scope, all) == [] + AttrsOf(scope, attrs) == AttrsOf(scope, attrs);
    assert ElementName(scope, Name("", local)) == Ok(EName(Uri(uri), local));
    hide AttrsOf, Declared, ElementName;
    assert Inside(ScopeOf([]), all) == scope;
    var t := LoneToken(local, uri, AttrsOf(scope, attrs));
    assert MeaningOf(events[1..], []) == Ok([]);
    assert Then([t], Ok([])) == Ok([t] + []) && [t] + [] == [t];
  }

  lemma LoneUsed(local: string, uri: string, attrs: seq<EAttr>)
    requires uri != XML_NS && AttrUris(attrs) == {}
    ensures var tokens := [LoneToken(local, uri, attrs)]; Used(tokens) == {uri} && InOrder(Used(tokens)) == [uri]
  {
    var tokens := [LoneToken(local, uri, attrs)];
    assert tokens[1..] == [] && Used(tokens) == {uri};
    var least := InOrder({uri})[0];
    assert least in InOrder({uri}) && {uri} - {least} == {} && InOrder({}) == [];
  }

  /** The text of such a document's canonical form: the tag, its one declaration, and at most one attribute. */
  function LoneText(local: string, uri: string, attrs: string): Ink
  {
    Tag(TagText(Written(PrefixAt(0), local), Quoted("xmlns:" + PrefixAt(0), uri) + attrs, true))
  }

  lemma LoneForm(local: string, uri: string, attrs: seq<EAttr>)
    requires uri != XML_NS
    ensures InkAll(Render([uri], [LoneToken(local, uri, attrs)], true))
            == [LoneText(local, uri, EntriesText("", Sorted(AttrEntries([uri], attrs))))]
  {
    var t := LoneToken(local, uri, attrs);
    var decls := DeclEntries([uri]);
    assert [t][1..] == [] && decls == [Entry(PrefixAt(0), uri)];
    SortedSingle(decls[0]);
    EntriesTextSingle("xmlns:", decls[0]);
    assert Render([uri], [t], true) == [RenderToken([uri], true, t)];
    assert IndexOf([uri], uri) == 0;
    hide TagText, Quoted, Sorted, EntriesText, PrefixAt, Written;
  }

  lemma SortedSingle(e: Entry)
    ensures Sorted([e]) == [e]
  {
    assert [e][1..] == [];
  }

  lemma EntriesTextSingle(prefix: string, e: Entry)
    ensures EntriesText(prefix, [e]) == Quoted(prefix + e.key, e.value)
  {
    assert [e][1..] == [];
    hide Quoted;
    assert Quoted(prefix + e.key, e.value) + "" == Quoted(prefix + e.key, e.value);
  }

  lemma LoneGood(local: string, uri: string, attrs: seq<EAttr>)
    requires local != "" && ':' !in local && NameChars(local) && uri != "" && uri != XML_NS
    requires |attrs| <= 1 && forall a :: a in attrs ==> GoodName(a.name) && a.name != EName(NoNs, "xmlns")
    ensures AllGood([LoneToken(local, uri, attrs)])
  {
  }

  /** The canonical form of a lone tag without attributes. */
  lemma BareForm(a: string, uri: string)
    requires a != "" && ':' !in a && NameChars(a) && uri != "" && uri != XML_NS
    ensures var d := LoneTag(a, uri, []);
      && MeaningOf(d, []) == Ok([LoneToken(a, uri, [])]) && NamespaceWellFormed(d)
      && CanonicalForm(d) == Ok([LoneText(a, uri, "")])
  {
    LoneMeaning(a, uri, []);
    LoneUsed(a, uri, []);
    LoneGood(a, uri, []);
    hide LoneTag, MeaningOf, Render, Used, InkAll, LoneText, GoodToken;
    LoneForm(a, uri, []);
    assert AttrEntries([uri], []) == [];
  }

  lemma LoneAttribute(uri: string, b: string, v: string)
    requires b != "" && b != "xmlns" && ':' !in b && NameChars(b) && Escape(v) == v
    ensures var attrs, eattrs := [Attr(Name("", b), v)], [EAttr(EName(NoNs, b), v)];
      && Declared(attrs) == map[] && AttrsOf(OUTERMOST + map["" := uri], attrs) == eattrs && AttrUris(eattrs) == {}
      && (forall a :: a in eattrs ==> GoodName(a.name) && a.name != EName(NoNs, "xmlns"))
  {
    var attrs, eattrs := [Attr(Name("", b), v)], [EAttr(EName(NoNs, b), v)];
    assert attrs[1..] == [] && eattrs[1..] == [];
  }

  lemma LoneEntry(uri: string, b: string, v: string)
    requires Escape(v) == v
    ensures EntriesText("", Sorted(AttrEntries([uri], [EAttr(EName(NoNs, b), v)]))) == Quoted(b, v)
  {
    var eattr := EAttr(EName(NoNs, b), v);
    assert AttrEntry([uri], eattr) == Entry(b, v);
    hide Quoted, Escape;
    assert AttrEntries([uri], [eattr]) == [Entry(b, v)];
    SortedSingle(Entry(b, v));
    EntriesTextSingle("", Entry(b, v));
    assert "" + b == b;
  }

  /** And with one attribute in no namespace, its value free of characters that are escaped. */
  lemma AttributeForm(a: string, uri: string, b: string, v: string)
    requires a != "" && ':' !in a && NameChars(a) && uri != "" && uri != XML_NS
    requires b != "" && b != "xmlns" && ':' !in b && NameChars(b) && Escape(v) == v
    ensures var d := LoneTag(a, uri, [Attr(Name("", b), v)]);
      && MeaningOf(d, []) == Ok([LoneToken(a, uri, [EAttr(EName(NoNs, b), v)])]) && NamespaceWellFormed(d)
      && CanonicalForm(d) == Ok([LoneText(a, uri, Quoted(b, v))])
  {
    var attrs, eattrs := [Attr(Name("", b), v)], [EAttr(EName(NoNs, b), v)];
    LoneAttribute(uri, b, v);
    hide LoneTag, MeaningOf, Render, Used, InkAll, LoneText, GoodToken, AttrUris, Declared, AttrsOf, GoodName, Quoted;
    hide Escape;
    LoneMeaning(a, uri, attrs);
    LoneUsed(a, uri, eattrs);
    LoneGood(a, uri, eattrs);
    LoneForm(a, uri, eattrs);
    LoneEntry(uri, b, v);
  }

  lemma LoneTextCollides(a: string, u: string, b: string, v: string)
    ensures LoneText(a, u, Quoted(b, v)) == LoneText(a, u + "\" " + b + "=\"" + v, "")
  {
    var uri, key := u + "\" " + b + "=\"" + v, "xmlns:" + PrefixAt(0);
    WrittenLikeTwo(key, u, b, v);
    hide Quoted, TagText, PrefixAt, Written;
    assert Quoted(key, uri) + "" == Quoted(key, u) + Quoted(b, v);
  }

  /**
    The condition on namespaces is needed: `<a xmlns="u" b="v"/>` and `<a xmlns='u" b="v'/>` mean different things and
    have one canonical form.
   */
  lemma QuotedNamespaceCollides(a: string, u: string, b: string, v: string)
    requires a != "" && ':' !in a && NameChars(a) && u != "" && u != XML_NS
    requires b != "" && b != "xmlns" && ':' !in b && NameChars(b) && Escape(v) == v
    ensures var d, e := LoneTag(a, u, [Attr(Name("", b), v)]), LoneTag(a, u + "\" " + b + "=\"" + v, []);
      && NamespaceWellFormed(d) && NamespaceWellFormed(e) && CanonicalForm(d) == CanonicalForm(e)
      && !SameMeaning(MeaningOf(d, []).value, MeaningOf(e, []).value)
  {
    var uri := u + "\" " + b + "=\"" + v;
    assert uri != XML_NS by { assert uri[|u|] == '"'; }
    AttributeForm(a, u, b, v);
    BareForm(a, uri);
    LoneTextCollides(a, u, b, v);
    hide MeaningOf, CanonicalForm, NamespaceWellFormed, LoneTag, LoneText, NameChars, Escape;
    assert uri != u by { assert |uri| > |u|; }
    var s, t := LoneToken(a, u, [EAttr(EName(NoNs, b), v)]), LoneToken(a, uri, []);
    assert !SameToken([s][0], [t][0]);
  }
}
