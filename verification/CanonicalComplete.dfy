/** The tags of the canonical form are a complete invariant: equal tags, equal meanings. */
module CanonicalComplete {
  import opened Xml
  import opened Namespaces
  import opened Ordering
  import opened Tags
  import opened Canonical

  // ----- Namespace well-formedness

  /** No colon beyond the one that ended the prefix, no stop character, and a prefix that resolves. */
  predicate GoodName(name: EName)
  {
    && ':' !in name.local && NameChars(name.local)
    && !name.ns.Raw? && (name.ns.Uri? ==> name.ns.uri != "") && (name.ns.NoNs? ==> name.local != "")
  }

  predicate GoodToken(t: Token)
  {
    match t
    case Open(name, attrs, _) =>
      && GoodName(name) && name.ns != Uri(XML_NS)
      && (forall a :: a in attrs ==> GoodName(a.name) && a.name != EName(NoNs, "xmlns"))
      && (forall i, j :: 0 <= i < j < |attrs| ==> attrs[i].name != attrs[j].name)
    case Close(name) => GoodName(name) && name.ns != Uri(XML_NS)
    case _ => true
  }

  predicate AllGood(tokens: seq<Token>) { forall i :: 0 <= i < |tokens| ==> GoodToken(tokens[i]) }

  /** Every prefix resolves, no element is in the xml namespace, no expanded attribute name repeats. */
  predicate NamespaceWellFormed(events: seq<Event>)
  {
    var r := MeaningOf(events, []);
    r.Ok? && AllGood(r.value)
  }

  // ----- Written names can be read back

  predicate Covered(uris: seq<string>, ns: Ns) { ns.Uri? && ns.uri != XML_NS ==> ns.uri in uris }

  predicate TokenCovered(uris: seq<string>, t: Token)
  {
    match t
    case Open(name, attrs, _) => Covered(uris, name.ns) && (forall a :: a in attrs ==> Covered(uris, a.name.ns))
    case Close(name) => Covered(uris, name.ns)
    case _ => true
  }

  predicate AllCovered(uris: seq<string>, tokens: seq<Token>)
  {
    forall i :: 0 <= i < |tokens| ==> TokenCovered(uris, tokens[i])
  }

  lemma PrefixAtInjective(i: nat, j: nat)
    ensures PrefixAt(i) == PrefixAt(j) ==> i == j
    ensures ':' !in PrefixAt(i) && |PrefixAt(i)| >= 2 && PrefixAt(i)[0] == 'n'
  {
    if PrefixAt(i) == PrefixAt(j) {
      assert PrefixAt(i)[1..] == Decimal(i) && PrefixAt(j)[1..] == Decimal(j);
      DecimalInjective(i, j);
    }
  }

  lemma PrefixForInjective(uris: seq<string>, m: Ns, n: Ns)
    requires Covered(uris, m) && Covered(uris, n) && !m.Raw? && !n.Raw?
    ensures PrefixFor(uris, m) == PrefixFor(uris, n) ==> m == n
    ensures ':' !in PrefixFor(uris, m) && (m != NoNs ==> PrefixFor(uris, m) != "")
  {
    if m.Uri? && m.uri in uris {
      var i := IndexOf(uris, m.uri);
      PrefixAtInjective(i, i);
      if n.Uri? && n.uri in uris {
        PrefixAtInjective(i, IndexOf(uris, n.uri));
      }
    }
    if n.Uri? && n.uri in uris {
      PrefixAtInjective(IndexOf(uris, n.uri), 0);
    }
  }

  lemma {:induction false} EscapeInjective(v: string, w: string)
    requires Escape(v) == Escape(w)
    ensures v == w
  {
    if v != "" && w != "" {
      var s, t := Escape(v), Escape(w);
      assert s[0] == if v[0] == '"' || v[0] == '<' then '&' else v[0];
      assert t[0] == if w[0] == '"' || w[0] == '<' then '&' else w[0];
      if s[0] == '&' {
        assert s[1] == if v[0] == '"' then 'q' else if v[0] == '<' then 'l' else 'a';
        assert t[1] == if w[0] == '"' then 'q' else if w[0] == '<' then 'l' else 'a';
      }
      assert v[0] == w[0];
      var n := |s| - |Escape(v[1..])|;
      assert s[n..] == Escape(v[1..]) && t[n..] == Escape(w[1..]);
      EscapeInjective(v[1..], w[1..]);
      assert v == [v[0]] + v[1..] && w == [w[0]] + w[1..];
    }
  }

  lemma AttrEntryInjective(uris: seq<string>, a: EAttr, b: EAttr)
    requires GoodName(a.name) && GoodName(b.name) && Covered(uris, a.name.ns) && Covered(uris, b.name.ns)
    ensures AttrEntry(uris, a).key == AttrEntry(uris, b).key ==> a.name == b.name
    ensures AttrEntry(uris, a) == AttrEntry(uris, b) ==> a == b
  {
    PrefixForInjective(uris, a.name.ns, b.name.ns);
    PrefixForInjective(uris, b.name.ns, a.name.ns);
    if AttrEntry(uris, a).key == AttrEntry(uris, b).key {
      ReadWritten(PrefixFor(uris, a.name.ns), a.name.local);
      ReadWritten(PrefixFor(uris, b.name.ns), b.name.local);
    }
    if AttrEntry(uris, a) == AttrEntry(uris, b) {
      EscapeInjective(a.value, b.value);
    }
  }

  lemma AttrEntriesDistinct(uris: seq<string>, attrs: seq<EAttr>)
    requires forall a :: a in attrs ==> GoodName(a.name) && Covered(uris, a.name.ns)
    requires forall i, j :: 0 <= i < j < |attrs| ==> attrs[i].name != attrs[j].name
    ensures DistinctKeys(AttrEntries(uris, attrs))
  {
    forall i, j | 0 <= i < j < |attrs|
      ensures AttrEntries(uris, attrs)[i].key != AttrEntries(uris, attrs)[j].key
    {
      AttrEntryInjective(uris, attrs[i], attrs[j]);
    }
  }

  lemma AttrEntriesMembers(uris: seq<string>, attrs: seq<EAttr>, a: EAttr)
    requires forall b :: b in attrs ==> GoodName(b.name) && Covered(uris, b.name.ns)
    requires GoodName(a.name) && Covered(uris, a.name.ns)
    ensures AttrEntry(uris, a) in AttrEntries(uris, attrs) <==> a in attrs
  {
    var entries := AttrEntries(uris, attrs);
    if a in attrs {
      var i :| 0 <= i < |attrs| && attrs[i] == a;
      assert entries[i] == AttrEntry(uris, a);
    }
    if AttrEntry(uris, a) in entries {
      var i :| 0 <= i < |entries| && entries[i] == AttrEntry(uris, a);
      AttrEntryInjective(uris, attrs[i], a);
    }
  }

  predicate GoodAttrs(uris: seq<string>, attrs: seq<EAttr>)
  {
    && (forall a :: a in attrs ==> GoodName(a.name) && Covered(uris, a.name.ns))
    && (forall i, j :: 0 <= i < j < |attrs| ==> attrs[i].name != attrs[j].name)
  }

  lemma SameEntriesSameAttrs(uris: seq<string>, s: seq<EAttr>, t: seq<EAttr>)
    requires GoodAttrs(uris, s) && GoodAttrs(uris, t)
    requires forall x :: x in AttrEntries(uris, s) ==> x in AttrEntries(uris, t)
    ensures forall a :: a in s ==> a in t
  {
    forall a | a in s
      ensures a in t
    {
      AttrEntriesMembers(uris, s, a);
      AttrEntriesMembers(uris, t, a);
    }
  }

  lemma SameAttrsSameEntries(uris: seq<string>, s: seq<EAttr>, t: seq<EAttr>)
    requires forall a :: a in s ==> a in t
    ensures forall x :: x in AttrEntries(uris, s) ==> x in AttrEntries(uris, t)
  {
    forall x | x in AttrEntries(uris, s)
      ensures x in AttrEntries(uris, t)
    {
      var i :| 0 <= i < |s| && AttrEntries(uris, s)[i] == x;
      assert s[i] in s;
      var j :| 0 <= j < |t| && t[j] == s[i];
      assert AttrEntries(uris, t)[j] == x;
    }
  }

  /** Sorted, escaped and rewritten, two attribute lists come out the same exactly when they hold the same. */
  lemma SameAttrsExactlyWhen(uris: seq<string>, s: seq<EAttr>, t: seq<EAttr>)
    requires GoodAttrs(uris, s) && GoodAttrs(uris, t)
    ensures Sorted(AttrEntries(uris, s)) == Sorted(AttrEntries(uris, t)) <==>
            (forall a :: a in s ==> a in t) && (forall a :: a in t ==> a in s)
  {
    AttrEntriesDistinct(uris, s);
    AttrEntriesDistinct(uris, t);
    SortedEqualExactlyWhen(AttrEntries(uris, s), AttrEntries(uris, t));
    if Sorted(AttrEntries(uris, s)) == Sorted(AttrEntries(uris, t)) {
      SameEntriesSameAttrs(uris, s, t);
      SameEntriesSameAttrs(uris, t, s);
    }
    if (forall a :: a in s ==> a in t) && (forall a :: a in t ==> a in s) {
      SameAttrsSameEntries(uris, s, t);
      SameAttrsSameEntries(uris, t, s);
    }
  }

  /** One token is rendered the same as another exactly when they mean the same. */
  lemma SameTokenExactlyWhen(uris: seq<string>, first: bool, s: Token, t: Token)
    requires GoodToken(s) && GoodToken(t) && TokenCovered(uris, s) && TokenCovered(uris, t)
    ensures RenderToken(uris, first, s) == RenderToken(uris, first, t) <==> SameToken(s, t)
  {
    if s.Open? && t.Open? {
      PrefixForInjective(uris, s.name.ns, t.name.ns);
      SameAttrsExactlyWhen(uris, s.attrs, t.attrs);
      hide AttrEntries, Sorted, DeclEntries, PrefixFor, GoodName, Covered;
    } else if s.Close? && t.Close? {
      PrefixForInjective(uris, s.name.ns, t.name.ns);
    }
  }

  lemma {:induction false} SameRenderExactlyWhen(uris: seq<string>, s: seq<Token>, t: seq<Token>, first: bool)
    requires AllGood(s) && AllGood(t) && AllCovered(uris, s) && AllCovered(uris, t)
    ensures Render(uris, s, first) == Render(uris, t, first) <==> SameMeaning(s, t)
  {
    if s != [] && t != [] {
      SameTokenExactlyWhen(uris, first, s[0], t[0]);
      var more := first && !s[0].Open?;
      SameRenderExactlyWhen(uris, s[1..], t[1..], more);
      var rs, rt := Render(uris, s, first), Render(uris, t, first);
      assert rs[1..] == Render(uris, s[1..], more);
      if rs == rt {
        assert rs[0] == rt[0];
        assert rt[1..] == Render(uris, t[1..], more);
        SameMeaningCons(s, t);
      }
      if SameMeaning(s, t) {
        SameMeaningCons(s, t);
      }
    }
  }

  lemma SameMeaningCons(s: seq<Token>, t: seq<Token>)
    requires s != [] && t != []
    ensures SameMeaning(s, t) <==> SameToken(s[0], t[0]) && SameMeaning(s[1..], t[1..])
  {
    if SameToken(s[0], t[0]) && SameMeaning(s[1..], t[1..]) {
      forall i | 0 <= i < |s|
        ensures SameToken(s[i], t[i])
      {
        if i > 0 {
          assert s[i] == s[1..][i - 1] && t[i] == t[1..][i - 1];
        }
      }
    }
    if SameMeaning(s, t) {
      forall i | 0 <= i < |s[1..]|
        ensures SameToken(s[1..][i], t[1..][i])
      {
        assert s[1..][i] == s[i + 1] && t[1..][i] == t[i + 1];
      }
    }
  }

  // ----- The namespaces in use

  lemma {:induction false} AttrUrisHold(attrs: seq<EAttr>, uri: string)
    ensures uri in AttrUris(attrs) <==> uri != XML_NS && exists a :: a in attrs && a.name.ns == Uri(uri)
  {
    if attrs != [] {
      AttrUrisHold(attrs[1..], uri);
      assert attrs == [attrs[0]] + attrs[1..];
      assert attrs[0] in attrs;
    }
  }

  predicate Uses(t: Token, uri: string)
  {
    t.Open? && uri != XML_NS && (t.name.ns == Uri(uri) || exists a :: a in t.attrs && a.name.ns == Uri(uri))
  }

  lemma {:induction false} UsedHolds(tokens: seq<Token>, uri: string)
    ensures uri in Used(tokens) <==> exists t :: t in tokens && Uses(t, uri)
  {
    if tokens != [] {
      UsedHolds(tokens[1..], uri);
      assert tokens == [tokens[0]] + tokens[1..];
      assert tokens[0] in tokens;
      if tokens[0].Open? {
        AttrUrisHold(tokens[0].attrs, uri);
      }
    }
  }

  lemma SameMeaningSameUris(s: seq<Token>, t: seq<Token>)
    requires SameMeaning(s, t)
    ensures Used(s) == Used(t)
  {
    forall uri
      ensures uri in Used(s) <==> uri in Used(t)
    {
      UsedHolds(s, uri);
      UsedHolds(t, uri);
      if x :| x in s && Uses(x, uri) {
        var i :| 0 <= i < |s| && s[i] == x;
        assert SameToken(s[i], t[i]) && Uses(t[i], uri);
      }
      if x :| x in t && Uses(x, uri) {
        var i :| 0 <= i < |t| && t[i] == x;
        assert SameToken(s[i], t[i]) && Uses(s[i], uri);
      }
    }
  }

  /** The names of elements that are open, or close later, were seen when they opened. */
  lemma {:induction false} UsedCovers(events: seq<Event>, open: seq<Frame>, uris: seq<string>)
    requires MeaningOf(events, open).Ok?
    requires forall u :: u in Used(MeaningOf(events, open).value) ==> u in uris
    requires forall i :: 0 <= i < |open| ==> Covered(uris, open[i].name.ns)
    ensures AllCovered(uris, MeaningOf(events, open).value)
  {
    if events != [] {
      var tokens := MeaningOf(events, open).value;
      match events[0]
      case Start(name, attrs) =>
        var inner := Inside(ScopeOf(open), attrs);
        var en := ElementName(inner, name).value;
        var rest := MeaningOf(events[1..], open + [Frame(en, inner)]).value;
        assert tokens == [Open(en, AttrsOf(inner, attrs), false)] + rest && tokens[1..] == rest;
        OpenCovered(tokens, uris);
        UsedCovers(events[1..], open + [Frame(en, inner)], uris);
        CoveredAppend(uris, tokens[..1], rest);
      case Empty(name, attrs) =>
        var inner := Inside(ScopeOf(open), attrs);
        var rest := MeaningOf(events[1..], open).value;
        assert tokens[1..] == rest;
        OpenCovered(tokens, uris);
        UsedCovers(events[1..], open, uris);
        CoveredAppend(uris, tokens[..1], rest);
      case End(_) =>
        var rest := MeaningOf(events[1..], open[..|open| - 1]).value;
        assert tokens[1..] == rest;
        UsedCovers(events[1..], open[..|open| - 1], uris);
        CoveredAppend(uris, tokens[..1], rest);
      case Chars(piece) =>
        var rest := MeaningOf(events[1..], open).value;
        UsedAppend(Tokens(piece), rest);
        UsedCovers(events[1..], open, uris);
        CoveredAppend(uris, Tokens(piece), rest);
    }
  }

  lemma OpenCovered(tokens: seq<Token>, uris: seq<string>)
    requires tokens != [] && tokens[0].Open? && (forall u :: u in Used(tokens) ==> u in uris)
    ensures TokenCovered(uris, tokens[0])
    ensures forall u :: u in Used(tokens[1..]) ==> u in uris
  {
    var t := tokens[0];
    forall a | a in t.attrs
      ensures Covered(uris, a.name.ns)
    {
      if a.name.ns.Uri? {
        AttrUrisHold(t.attrs, a.name.ns.uri);
      }
    }
  }

  lemma CoveredAppend(uris: seq<string>, s: seq<Token>, t: seq<Token>)
    requires AllCovered(uris, s) && AllCovered(uris, t)
    ensures AllCovered(uris, s + t)
  {
  }

  lemma {:induction false} UsedAppend(s: seq<Token>, t: seq<Token>)
    ensures Used(s + t) == Used(s) + Used(t)
  {
    if s == [] {
      assert s + t == t;
    } else {
      assert (s + t)[1..] == s[1..] + t;
      UsedAppend(s[1..], t);
    }
  }

  // ----- The declarations give the namespaces away

  lemma DeclEntriesDistinct(uris: seq<string>)
    ensures DistinctKeys(DeclEntries(uris))
  {
    forall i, j | 0 <= i < j < |uris|
      ensures DeclEntries(uris)[i].key != DeclEntries(uris)[j].key
    {
      PrefixAtInjective(i, j);
    }
  }

  lemma SameDeclsSameUris(u: seq<string>, v: seq<string>)
    requires Sorted(DeclEntries(u)) == Sorted(DeclEntries(v))
    ensures u == v
  {
    var du, dv := DeclEntries(u), DeclEntries(v);
    SortedIsSorted(du);
    SortedIsSorted(dv);
    assert |u| == |v|;
    forall i | 0 <= i < |u|
      ensures u[i] == v[i]
    {
      SortedMembers(du, du[i]);
      SortedMembers(dv, du[i]);
      var j :| 0 <= j < |dv| && dv[j] == du[i];
      PrefixAtInjective(i, j);
    }
  }

  lemma OpenShowsDecls(u: seq<string>, s: Token, v: seq<string>, t: Token)
    requires RenderToken(u, true, s) == RenderToken(v, true, t)
    ensures s.Open? <==> t.Open?
    ensures s.Open? ==> Sorted(DeclEntries(u)) == Sorted(DeclEntries(v))
  {
    hide Sorted, DeclEntries;
  }

  lemma {:induction false} SameOutputSameUris(u: seq<string>, s: seq<Token>, v: seq<string>, t: seq<Token>)
    requires Render(u, s, true) == Render(v, t, true)
    ensures u == v || (Used(s) == {} && Used(t) == {})
  {
    hide RenderToken, DeclEntries, Sorted, NsUris, AttrUris;
    assert |s| == |t|;
    if s != [] {
      var rs, rt := Render(u, s, true), Render(v, t, true);
      assert rs[0] == rt[0];
      OpenShowsDecls(u, s[0], v, t[0]);
      if s[0].Open? {
        SameDeclsSameUris(u, v);
      } else {
        assert rs[1..] == Render(u, s[1..], true) && rt[1..] == Render(v, t[1..], true);
        SameOutputSameUris(u, s[1..], v, t[1..]);
      }
    }
  }

  // ----- Completeness

  /** Two namespace-well-formed documents have the same canonical tags exactly when they mean the same. */
  lemma CanonicalTagsAreComplete(d: seq<Event>, e: seq<Event>)
    requires NamespaceWellFormed(d) && NamespaceWellFormed(e)
    ensures CanonicalTags(d) == CanonicalTags(e) <==> SameMeaning(MeaningOf(d, []).value, MeaningOf(e, []).value)
  {
    var s, t := MeaningOf(d, []).value, MeaningOf(e, []).value;
    var u, v := InOrder(Used(s)), InOrder(Used(t));
    UsedCovers(d, [], u);
    UsedCovers(e, [], v);
    if SameMeaning(s, t) {
      SameMeaningSameUris(s, t);
      SameRenderExactlyWhen(u, s, t, true);
    }
    if Render(u, s, true) == Render(v, t, true) {
      SameOutputSameUris(u, s, v, t);
      SameRenderExactlyWhen(u, s, t, true);
    }
  }
}
