/** What the canonical form holds: the document's values once entities are resolved, its tree, its URIs in order. */
module CanonicalContent {
  import opened Wrappers
  import opened Xml
  import opened Namespaces
  import opened Ordering
  import opened Tags
  import opened Canonical
  import opened CanonicalComplete
  import opened CanonicalText
  import opened CanonicalReread

  // ----- Attribute values

  predicate StartsWith(s: string, p: string) { |p| <= |s| && s[..|p|] == p }

  /** A value with its references to the predefined entities replaced (XML 1.0, section 4.6). */
  function Resolved(s: string): string
  {
    if s == "" then ""
    else if StartsWith(s, "&lt;") then "<" + Resolved(s[4..])
    else if StartsWith(s, "&gt;") then ">" + Resolved(s[4..])
    else if StartsWith(s, "&amp;") then "&" + Resolved(s[5..])
    else if StartsWith(s, "&apos;") then "'" + Resolved(s[6..])
    else if StartsWith(s, "&quot;") then "\"" + Resolved(s[6..])
    else [s[0]] + Resolved(s[1..])
  }

  lemma StartsOnce(p: string, rest: string)
    ensures StartsWith(p + rest, p) && (p + rest)[|p|..] == rest
  {
  }

  lemma OtherCharacter(c: char, rest: string)
    requires c != '&'
    ensures Resolved([c] + rest) == [c] + Resolved(rest)
  {
    var s := [c] + rest;
    assert s[1..] == rest;
    forall p: string | |p| > 0 && p[0] == '&' ensures !StartsWith(s, p) {
      if |p| <= |s| { assert s[..|p|][0] == c; }
    }
  }

  /** The second character tells the entities apart that `Escape` writes. */
  lemma EntityResolved(rest: string)
    ensures Resolved("&lt;" + rest) == "<" + Resolved(rest)
    ensures Resolved("&amp;" + rest) == "&" + Resolved(rest)
    ensures Resolved("&quot;" + rest) == "\"" + Resolved(rest)
  {
    StartsOnce("&lt;", rest);
    StartsOnce("&amp;", rest);
    StartsOnce("&quot;", rest);
    NotStarting("&amp;" + rest, "&lt;");
    NotStarting("&amp;" + rest, "&gt;");
    NotStarting("&quot;" + rest, "&lt;");
    NotStarting("&quot;" + rest, "&gt;");
    NotStarting("&quot;" + rest, "&amp;");
    NotStarting("&quot;" + rest, "&apos;");
    hide StartsWith;
  }

  lemma NotStarting(s: string, p: string)
    requires |s| > 1 && |p| > 1 && s[1] != p[1]
    ensures !StartsWith(s, p)
  {
    if StartsWith(s, p) {
      SecondCharacter(s, p);
    }
  }

  lemma SecondCharacter(s: string, p: string)
    requires |s| > 1 && |p| > 1 && StartsWith(s, p)
    ensures s[1] == p[1]
  {
    assert s[..|p|][1] == s[1];
  }

  /** Escaping is undone by resolving entities, and leaves no quote and no less-than sign. */
  lemma {:induction false} ResolvedEscape(value: string)
    ensures Resolved(Escape(value)) == value && '<' !in Escape(value) && '"' !in Escape(value)
  {
    hide Resolved, StartsWith;
    if value == "" {
      NothingResolved();
    } else {
      var rest := Escape(value[1..]);
      ResolvedEscape(value[1..]);
      EntityResolved(rest);
      if value[0] != '&' {
        OtherCharacter(value[0], rest);
      }
      assert value == [value[0]] + value[1..];
    }
  }

  lemma NothingResolved()
    ensures Resolved("") == ""
  {
  }

  function ResolvedAttrs(attrs: seq<EAttr>): (r: seq<EAttr>)
    ensures |r| == |attrs| && forall i :: 0 <= i < |r| ==> r[i] == EAttr(attrs[i].name, Resolved(attrs[i].value))
  {
    seq(|attrs|, i requires 0 <= i < |attrs| => EAttr(attrs[i].name, Resolved(attrs[i].value)))
  }

  function ResolvedToken(t: Token): Token { if t.Open? then t.(attrs := ResolvedAttrs(t.attrs)) else t }

  /** A document's meaning with the entities in its attribute values resolved. */
  function ResolvedTokens(tokens: seq<Token>): (r: seq<Token>)
    ensures |r| == |tokens| && forall i :: 0 <= i < |r| ==> r[i] == ResolvedToken(tokens[i])
  {
    seq(|tokens|, i requires 0 <= i < |tokens| => ResolvedToken(tokens[i]))
  }

  lemma SameHeld(s: seq<EAttr>, t: seq<EAttr>)
    requires forall a :: a in s ==> a in t
    ensures forall a :: a in ResolvedAttrs(s) ==> a in ResolvedAttrs(t)
  {
    hide Resolved;
    forall a | a in ResolvedAttrs(s) ensures a in ResolvedAttrs(t) {
      var i :| 0 <= i < |s| && ResolvedAttrs(s)[i] == a;
      assert s[i] in s;
      var j :| 0 <= j < |t| && t[j] == s[i];
      assert ResolvedAttrs(t)[j] == a;
    }
  }

  lemma SameResolved(s: Token, t: Token)
    requires SameToken(s, t)
    ensures SameToken(ResolvedToken(s), ResolvedToken(t))
  {
    if s.Open? && t.Open? {
      SameHeld(s.attrs, t.attrs);
      SameHeld(t.attrs, s.attrs);
    }
  }

  lemma ResolvedEscapedToken(t: Token)
    ensures ResolvedToken(EscapedToken(t)) == t
  {
    if t.Open? {
      forall i | 0 <= i < |t.attrs|
        ensures ResolvedAttrs(EscapedAttrs(t.attrs))[i] == t.attrs[i]
      {
        ResolvedEscape(t.attrs[i].value);
      }
      assert ResolvedAttrs(EscapedAttrs(t.attrs)) == t.attrs;
    }
  }

  /**
    Read back, and with the entities in attribute values resolved, the canonical form of a well-formed document means
    what the document means: the same elements and text, and of each attribute the value as the document has it, raw.
   */
  lemma CanonicalFormKeepsValues(events: seq<Event>)
    requires NamespaceWellFormed(events) && Rooted(MeaningOf(events, []).value, [], false)
    requires QuoteFreeNamespaces(events)
    ensures var read := CanonicalEvents(events);
      && read.Some? && MeaningOf(read.value, []).Ok?
      && SameMeaning(ResolvedTokens(MeaningOf(read.value, []).value), MeaningOf(events, []).value)
  {
    CanonicalFormMeans(events);
    hide MeaningOf, CanonicalForm, ReadAll, EscapedToken, ResolvedToken, SameToken, Rooted;
    hide QuoteFreeNamespaces, AllGood;
    var back, tokens := MeaningOf(CanonicalEvents(events).value, []).value, MeaningOf(events, []).value;
    forall i | 0 <= i < |tokens|
      ensures SameToken(ResolvedTokens(back)[i], tokens[i])
    {
      assert SameToken(back[i], EscapedTokens(tokens)[i]);
      SameResolved(back[i], EscapedToken(tokens[i]));
      ResolvedEscapedToken(tokens[i]);
    }
  }

  // ----- The meaning of a document is that of its tree

  function NsOf(ns: Namespace): Ns
  {
    match ns
    case Bound(uri) => Uri(uri)
    case Unbound => NoNs
    case Unknown(prefix) => Raw(prefix)
  }

  function NameOf(name: ExpandedName): EName { EName(NsOf(name.ns), name.local) }

  function AttrsAs(attrs: seq<ExpandedAttr>): (r: seq<EAttr>)
    ensures |r| == |attrs| && forall i :: 0 <= i < |r| ==> r[i] == EAttr(NameOf(attrs[i].name), attrs[i].value)
  {
    seq(|attrs|, i requires 0 <= i < |attrs| => EAttr(NameOf(attrs[i].name), attrs[i].value))
  }

  /** A tree's tokens: tags, characters one by one, CDATA sections and entity references, in document order. */
  function TokensOf(e: Expanded): seq<Token>
  {
    match e
    case ENil => []
    case EElem(name, attrs, kids, next) =>
      [Open(NameOf(name), AttrsAs(attrs), false)] + TokensOf(kids) + [Close(NameOf(name))] + TokensOf(next)
    case ESelfClosed(name, attrs, next) => [Open(NameOf(name), AttrsAs(attrs), true)] + TokensOf(next)
    case ELeaf(piece, next) =>
      (match piece
       case Text(text) => seq(|text|, i requires 0 <= i < |text| => Char(text[i]))
       case CData(text) => [Section(text)]
       case GeneralRef(entity) => [Entity(entity)]
       case Misc(_) => [])
      + TokensOf(next)
  }

  /** The prefix `xml`, and no other, stands for its own namespace (Namespaces in XML 1.0, section 3). */
  predicate Reserved(scope: Scope) { "xml" in scope && forall p :: p in scope ==> (p == "xml" <==> scope[p] == XML_NS) }

  predicate ReservedTree(f: Forest)
  {
    match f
    case Nil => true
    case Elem(_, attrs, kids, next) => ReservedAttrs(attrs) && ReservedTree(kids) && ReservedTree(next)
    case SelfClosed(_, attrs, next) => ReservedAttrs(attrs) && ReservedTree(next)
    case Leaf(_, next) => ReservedTree(next)
  }

  predicate ReservedAttrs(attrs: seq<Attr>)
  {
    forall p :: p in Declared(attrs) ==> (p == "xml" <==> Declared(attrs)[p] == XML_NS)
  }

  lemma ReservedInside(scope: Scope, attrs: seq<Attr>)
    requires Reserved(scope) && ReservedAttrs(attrs)
    ensures Reserved(Inside(scope, attrs))
  {
    hide Declared;
  }

  lemma AttrNameIs(scope: Scope, name: Name)
    requires Reserved(scope)
    ensures AttrName(scope, name) == EName(NsOf(AttributeNs(scope, name.prefix)), name.local)
  {
  }

  lemma {:induction false} AttrsOfIs(scope: Scope, attrs: seq<Attr>)
    requires Reserved(scope)
    ensures AttrsOf(scope, attrs) == AttrsAs(ExpandAttrs(scope, attrs))
  {
    if attrs != [] {
      var rest := ExpandAttrs(scope, attrs[1..]);
      AttrsOfIs(scope, attrs[1..]);
      AttrNameIs(scope, attrs[0].name);
      hide AttrName, AttributeNs, NsOf, Reserved;
      if IsDecl(attrs[0].name) {
        assert AttrsOf(scope, attrs) == AttrsOf(scope, attrs[1..]) && ExpandAttrs(scope, attrs) == rest;
      } else {
        assert ExpandAttrs(scope, attrs)[1..] == rest;
        assert AttrsAs(ExpandAttrs(scope, attrs))[1..] == AttrsAs(rest);
        assert AttrsOf(scope, attrs)[1..] == AttrsOf(scope, attrs[1..]);
      }
    }
  }

  lemma ElementNameIs(scope: Scope, name: Name)
    requires ElementName(scope, name).Ok?
    ensures ElementName(scope, name).value == EName(NsOf(ElementNs(scope, name.prefix)), name.local)
  {
  }

  /** What a tag's tokens are, given its tree's expanded names. */
  lemma TagIs(scope: Scope, name: Name, attrs: seq<Attr>)
    requires Reserved(scope) && ElementName(scope, name).Ok?
    ensures ElementName(scope, name).value == NameOf(ExpandedName(ElementNs(scope, name.prefix), name.local))
    ensures AttrsOf(scope, attrs) == AttrsAs(ExpandAttrs(scope, attrs))
  {
    ElementNameIs(scope, name);
    AttrsOfIs(scope, attrs);
  }

  lemma ElemIs(scope: Scope, name: Name, attrs: seq<Attr>, kids: Forest, next: Forest)
    ensures var inner := Inside(scope, attrs);
      var en := NameOf(ExpandedName(ElementNs(inner, name.prefix), name.local));
      TokensOf(Meaning(scope, Elem(name, attrs, kids, next)))
      == [Open(en, AttrsAs(ExpandAttrs(inner, attrs)), false)] + TokensOf(Meaning(inner, kids)) + [Close(en)]
         + TokensOf(Meaning(scope, next))
  {
    hide Inside, NameOf, AttrsAs, ExpandAttrs, ElementNs;
  }

  lemma PieceIs(piece: Piece, next: Expanded)
    ensures TokensOf(ELeaf(piece, next)) == Tokens(piece) + TokensOf(next)
  {
  }

  /** On well-formed events the meaning is the tree's, names resolved by its scopes. */
  lemma {:induction false} ForestMeans(f: Forest, rest: seq<Event>, open: seq<Frame>)
    requires Reserved(ScopeOf(open)) && ReservedTree(f) && MeaningOf(EventsThen(f, rest), open).Ok?
    ensures MeaningOf(rest, open).Ok?
    ensures MeaningOf(EventsThen(f, rest), open).value
            == TokensOf(Meaning(ScopeOf(open), f)) + MeaningOf(rest, open).value
  {
    match f
    case Nil => assert [] + MeaningOf(rest, open).value == MeaningOf(rest, open).value;
    case Elem(name, attrs, kids, next) =>
      var inner := Inside(ScopeOf(open), attrs);
      var after := EventsThen(next, rest);
      var tail := [End(name)] + after;
      assert EventsThen(f, rest) == [Start(name, attrs)] + EventsThen(kids, tail);
      StartOpens(name, attrs, EventsThen(kids, tail), open);
      ReservedInside(ScopeOf(open), attrs);
      TagIs(inner, name, attrs);
      ElemIs(ScopeOf(open), name, attrs, kids, next);
      hide MeaningOf, Inside, ElementName, AttrsOf, EventsThen, ScopeOf, Reserved, ReservedAttrs, AttrsAs, ExpandAttrs;
      hide NameOf, ElementNs, TokensOf, Meaning, ReservedTree;
      assert ReservedTree(kids) && ReservedTree(next) by { BelowReserved(f); }
      var frame := Frame(ElementName(inner, name).value, inner);
      assert ScopeOf(open + [frame]) == inner by { ScopeOfPushed(open, frame); }
      ForestMeans(kids, tail, open + [frame]);
      EndCloses(name, after, open, frame);
      ForestMeans(next, rest, open);
      TreesJoin(MeaningOf(EventsThen(f, rest), open).value, [Open(frame.name, AttrsOf(inner, attrs), false)],
                MeaningOf(EventsThen(kids, tail), open + [frame]).value, TokensOf(Meaning(inner, kids)),
                MeaningOf(tail, open + [frame]).value, [Close(frame.name)], MeaningOf(after, open).value,
                TokensOf(Meaning(ScopeOf(open), next)), MeaningOf(rest, open).value);
    case SelfClosed(name, attrs, next) =>
      var inner := Inside(ScopeOf(open), attrs);
      ReservedInside(ScopeOf(open), attrs);
      EmptyMeans(name, attrs, EventsThen(next, rest), open);
      TagIs(inner, name, attrs);
      hide MeaningOf, Inside, ElementName, AttrsOf, ScopeOf, Reserved, ReservedAttrs, AttrsAs, ExpandAttrs, NameOf;
      hide ElementNs;
      ForestMeans(next, rest, open);
    case Leaf(piece, next) =>
      CharsMean(piece, EventsThen(next, rest), open);
      PieceIs(piece, Meaning(ScopeOf(open), next));
      hide MeaningOf, ScopeOf, Reserved, Tokens, TokensOf;
      ForestMeans(next, rest, open);
  }

  lemma BelowReserved(f: Forest)
    requires f.Elem? && ReservedTree(f)
    ensures ReservedTree(f.kids) && ReservedTree(f.next)
  {
  }

  lemma ScopeOfPushed(open: seq<Frame>, frame: Frame)
    ensures ScopeOf(open + [frame]) == frame.scope
  {
  }

  lemma TreesJoin(
      all: seq<Token>, start: seq<Token>, below: seq<Token>, kids: seq<Token>, after: seq<Token>, end: seq<Token>,
      beside: seq<Token>, next: seq<Token>, rest: seq<Token>)
    requires all == start + below && below == kids + after && after == end + beside && beside == next + rest
    ensures all == (start + kids + end + next) + rest
  {
  }

  lemma EmptyMeans(name: Name, attrs: seq<Attr>, rest: seq<Event>, open: seq<Frame>)
    requires MeaningOf([Empty(name, attrs)] + rest, open).Ok?
    ensures var inner := Inside(ScopeOf(open), attrs);
      && ElementName(inner, name).Ok? && MeaningOf(rest, open).Ok?
      && MeaningOf([Empty(name, attrs)] + rest, open).value
         == [Open(ElementName(inner, name).value, AttrsOf(inner, attrs), true)] + MeaningOf(rest, open).value
  {
    var events := [Empty(name, attrs)] + rest;
    assert events[1..] == rest;
  }

  lemma CharsMean(piece: Piece, rest: seq<Event>, open: seq<Frame>)
    requires MeaningOf([Chars(piece)] + rest, open).Ok?
    ensures MeaningOf(rest, open).Ok?
    ensures MeaningOf([Chars(piece)] + rest, open).value == Tokens(piece) + MeaningOf(rest, open).value
  {
    var events := [Chars(piece)] + rest;
    assert events[1..] == rest;
  }

  /** The meaning the canonical form renders is the document's own: its tree, names resolved, in document order. */
  lemma DocumentMeans(f: Forest)
    requires ReservedTree(f) && MeaningOf(Events(f), []).Ok?
    ensures MeaningOf(Events(f), []) == Ok(TokensOf(Meaning(OUTERMOST, f)))
  {
    ForestMeans(f, [], []);
    assert TokensOf(Meaning(OUTERMOST, f)) + [] == TokensOf(Meaning(OUTERMOST, f));
  }

  // ----- The order of URIs and attributes

  /** The strings agree up to position k; there the first ends, or has the smaller character. */
  predicate DifferAt(a: string, b: string, k: nat)
  {
    k <= |a| && k < |b| && a[..k] == b[..k] && (k == |a| || a[k] < b[k])
  }

  /** The first place where two strings differ decides; a string goes before what it is a prefix of. */
  ghost predicate Before(a: string, b: string) { exists k: nat :: DifferAt(a, b, k) }

  lemma DifferCons(a: string, b: string, k: nat)
    requires a != [] && b != []
    ensures DifferAt(a, b, k + 1) <==> a[0] == b[0] && DifferAt(a[1..], b[1..], k)
    ensures DifferAt(a, b, 0) <==> a[0] < b[0]
  {
    if k < |a| && k < |b| {
      assert a[..k + 1] == [a[0]] + a[1..][..k] && b[..k + 1] == [b[0]] + b[1..][..k];
    }
  }

  lemma BeforeCons(a: string, b: string)
    requires a != [] && b != []
    ensures Before(a, b) <==> a[0] < b[0] || (a[0] == b[0] && Before(a[1..], b[1..]))
  {
    DifferCons(a, b, 0);
    hide DifferAt;
    if k: nat :| DifferAt(a, b, k) {
      if k > 0 { DifferCons(a, b, k - 1); }
    }
    if k: nat :| DifferAt(a[1..], b[1..], k) {
      DifferCons(a, b, k);
    }
  }

  lemma EmptyBefore(b: string)
    ensures Before("", b) <==> b != ""
    ensures !Before(b, "")
  {
    if b != "" {
      assert DifferAt("", b, 0);
    }
  }

  lemma {:induction false} LeqIsBefore(a: string, b: string)
    ensures Leq(a, b) <==> a == b || Before(a, b)
  {
    if a == "" {
      EmptyBefore(b);
    } else if b == "" {
      EmptyBefore(a);
    } else {
      LeqIsBefore(a[1..], b[1..]);
      BeforeCons(a, b);
      hide Before;
      assert a == [a[0]] + a[1..] && b == [b[0]] + b[1..];
    }
  }

  lemma {:induction false} InOrderAscends(s: set<string>)
    ensures forall i, j :: 0 <= i < j < |InOrder(s)| ==> Before(InOrder(s)[i], InOrder(s)[j])
    decreases |s|
  {
    if s != {} {
      var least := InOrder(s)[0];
      assert InOrder(s)[1..] == InOrder(s - {least});
      InOrderAscends(s - {least});
      forall j | 0 < j < |InOrder(s)| ensures Before(InOrder(s)[0], InOrder(s)[j]) {
        assert InOrder(s)[j] in InOrder(s);
        LeqIsBefore(least, InOrder(s)[j]);
      }
      forall i, j | 0 <= i < j < |InOrder(s)| ensures Before(InOrder(s)[i], InOrder(s)[j]) {
        if i > 0 {
          assert InOrder(s)[i] == InOrder(s)[1..][i - 1] && InOrder(s)[j] == InOrder(s)[1..][j - 1];
        }
      }
    }
  }

  /** The number a decimal numeral stands for. */
  function NumberOf(s: string): int
  {
    if s == "" then 0 else 10 * NumberOf(s[..|s| - 1]) + (s[|s| - 1] as int - '0' as int)
  }

  lemma {:induction false} DecimalStandsFor(n: nat)
    ensures NumberOf(Decimal(n)) == n && (n > 0 ==> Decimal(n)[0] != '0')
  {
    var s := Decimal(n);
    assert s[|s| - 1] as int - '0' as int == n % 10;
    if n >= 10 {
      DecimalStandsFor(n / 10);
      assert s[..|s| - 1] == Decimal(n / 10);
      assert s[0] == Decimal(n / 10)[0];
    } else {
      assert s[..|s| - 1] == "";
    }
  }

  /** The prefix n and a decimal numeral. */
  predicate IsPrefix(prefix: string, i: nat)
  {
    prefix != "" && prefix[0] == 'n' && NumberOf(prefix[1..]) == i && (i > 0 ==> prefix[1..] != "" && prefix[1] != '0')
  }

  lemma PrefixAtIs(i: nat)
    ensures IsPrefix(PrefixAt(i), i)
  {
    DecimalStandsFor(i);
    assert PrefixAt(i)[1..] == Decimal(i);
  }

  /**
    The first tag of the canonical form declares the URIs in use, in ascending order under n0, n1 and so on, and no
    others; declarations and attributes are sorted by their written names.
   */
  lemma RootDeclaresUrisInOrder(events: seq<Event>, k: nat)
    requires MeaningOf(events, []).Ok?
    requires var tokens := MeaningOf(events, []).value;
      k < |tokens| && tokens[k].Open? && forall j :: 0 <= j < k ==> !tokens[j].Open?
    ensures var uris := InOrder(Used(MeaningOf(events, []).value));
      && (forall i, j :: 0 <= i < j < |uris| ==> Before(uris[i], uris[j]))
      && DeclaresInOrder(CanonicalTags(events).value[k], uris)
  {
    var tokens := MeaningOf(events, []).value;
    var uris := InOrder(Used(tokens));
    assert CanonicalTags(events).value == Render(uris, tokens, true);
    hide *;
    InOrderAscends(Used(tokens));
    RenderAt(uris, tokens, true, k);
    TagDeclares(uris, tokens[k]);
  }

  /** The i-th URI is declared under the i-th prefix. */
  ghost predicate DeclaredAt(decls: seq<Entry>, uri: string, i: nat)
  {
    exists e :: e in decls && IsPrefix(e.key, i) && e.value == uri
  }

  ghost predicate DeclaresInOrder(tag: Output, uris: seq<string>)
  {
    && tag.OpenTag? && |tag.decls| == |uris| && IsSorted(tag.decls) && IsSorted(tag.attrs)
    && forall i :: 0 <= i < |uris| ==> DeclaredAt(tag.decls, uris[i], i)
  }

  lemma TagDeclares(uris: seq<string>, t: Token)
    requires t.Open?
    ensures DeclaresInOrder(RenderToken(uris, true, t), uris)
  {
    SortedIsSorted(DeclEntries(uris));
    SortedIsSorted(AttrEntries(uris, t.attrs));
    hide Sorted, IsPrefix, IsSorted, AttrEntries, PrefixAt;
    forall i | 0 <= i < |uris|
      ensures DeclaredAt(Sorted(DeclEntries(uris)), uris[i], i)
    {
      PrefixAtIs(i);
      SortedMembers(DeclEntries(uris), DeclEntries(uris)[i]);
    }
  }

  lemma {:induction false} RenderAt(uris: seq<string>, tokens: seq<Token>, first: bool, k: nat)
    requires k < |tokens| && forall j :: 0 <= j < k ==> !tokens[j].Open?
    ensures Render(uris, tokens, first)[k] == RenderToken(uris, first, tokens[k])
  {
    hide RenderToken;
    if k > 0 {
      RenderAt(uris, tokens[1..], first, k - 1);
    }
  }
}
