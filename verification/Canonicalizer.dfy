/** The two event loops of canonicalize_prefixes (crossref/src/normalize.rs), proved to compute the canonical form. */
module Canonicalizer {
  import opened Wrappers
  import opened Xml
  import opened Namespaces
  import opened Ordering
  import opened Tags
  import opened Canonical

  // ----- First pass

  function ElementUris(scope: Scope, name: Name): set<string>
  {
    var ns := ElementNs(scope, name.prefix);
    if ns.Bound? && ns.uri != XML_NS then {ns.uri} else {}
  }

  function AttributeUris(scope: Scope, attrs: seq<Attr>): set<string>
  {
    if attrs == [] then {} else
      (if IsDecl(attrs[0].name) || attrs[0].name.prefix == "xml" then {}
       else
         var ns := AttributeNs(scope, attrs[0].name.prefix);
         if ns.Bound? && ns.uri != XML_NS then {ns.uri} else {})
      + AttributeUris(scope, attrs[1..])
  }

  /** What the first pass gathers from a tag; below an unknown prefix it does not look at the attributes. */
  function TagUris(scope: Scope, name: Name, attrs: seq<Attr>): set<string>
  {
    if ElementNs(scope, name.prefix).Unknown? then {} else ElementUris(scope, name) + AttributeUris(scope, attrs)
  }

  function Top(scopes: seq<Scope>): Scope
  {
    if scopes == [] then OUTERMOST else scopes[|scopes| - 1]
  }

  /** The URIs the first pass gathers from the events that remain. */
  function UrisFrom(events: seq<Event>, scopes: seq<Scope>): Result<set<string>, Fault>
  {
    if events == [] then Ok({}) else
      match events[0]
      case Start(name, attrs) =>
        var inner := Inside(Top(scopes), attrs);
        AlsoUris(TagUris(inner, name, attrs), UrisFrom(events[1..], scopes + [inner]))
      case Empty(name, attrs) =>
        var inner := Inside(Top(scopes), attrs);
        AlsoUris(TagUris(inner, name, attrs), UrisFrom(events[1..], scopes))
      case End(_) =>
        if scopes == [] then Err(EndWithoutStart) else UrisFrom(events[1..], scopes[..|scopes| - 1])
      case Chars(_) => UrisFrom(events[1..], scopes)
  }

  function AlsoUris(uris: set<string>, r: Result<set<string>, Fault>): Result<set<string>, Fault>
  {
    if r.Ok? then Ok(uris + r.value) else r
  }

  lemma AlsoTwice(a: set<string>, b: set<string>, r: Result<set<string>, Fault>)
    ensures AlsoUris(a, AlsoUris(b, r)) == AlsoUris(a + b, r) && AlsoUris({}, r) == r
  {
    if r.Ok? {
      assert a + (b + r.value) == (a + b) + r.value && {} + r.value == r.value;
    }
  }

  method CollectAttrUris(scope: Scope, attrs: seq<Attr>) returns (uris: set<string>)
    ensures uris == AttributeUris(scope, attrs)
  {
    uris := {};
    for i := 0 to |attrs|
      invariant uris + AttributeUris(scope, attrs[i..]) == AttributeUris(scope, attrs)
    {
      assert attrs[i..][1..] == attrs[i + 1..];
      if !IsDecl(attrs[i].name) && attrs[i].name.prefix != "xml" {
        var ns := AttributeNs(scope, attrs[i].name.prefix);
        if ns.Bound? && ns.uri != XML_NS {
          uris := uris + {ns.uri};
        }
      }
    }
  }

  method CollectUsedUris(events: seq<Event>) returns (r: Result<set<string>, Fault>)
    ensures r == UrisFrom(events, [])
  {
    var uris: set<string>, scopes: seq<Scope> := {}, [];
    assert events[0..] == events;
    AlsoTwice({}, {}, UrisFrom(events, []));
    for i := 0 to |events|
      invariant AlsoUris(uris, UrisFrom(events[i..], scopes)) == UrisFrom(events, [])
    {
      assert events[i..][1..] == events[i + 1..];
      match events[i] {
        case Start(name, attrs) =>
          var inner := Inside(Top(scopes), attrs);
          var found := CollectTagUris(inner, name, attrs);
          AlsoTwice(uris, found, UrisFrom(events[i + 1..], scopes + [inner]));
          uris, scopes := uris + found, scopes + [inner];
        case Empty(name, attrs) =>
          var found := CollectTagUris(Inside(Top(scopes), attrs), name, attrs);
          AlsoTwice(uris, found, UrisFrom(events[i + 1..], scopes));
          uris := uris + found;
        case End(_) =>
          if scopes == [] {
            return Err(EndWithoutStart);
          }
          scopes := scopes[..|scopes| - 1];
        case Chars(_) =>
      }
    }
    assert events[|events|..] == [];
    return Ok(uris);
  }

  method CollectTagUris(scope: Scope, name: Name, attrs: seq<Attr>) returns (uris: set<string>)
    ensures uris == TagUris(scope, name, attrs)
  {
    match ElementNs(scope, name.prefix) {
      case Bound(uri) =>
        var more := CollectAttrUris(scope, attrs);
        uris := (if uri != XML_NS then {uri} else {}) + more;
      case Unbound =>
        uris := CollectAttrUris(scope, attrs);
      case Unknown(_) =>
        uris := {};
    }
  }

  function ScopesOf(open: seq<Frame>): (s: seq<Scope>)
    ensures |s| == |open| && Top(s) == ScopeOf(open)
  {
    if open == [] then [] else ScopesOf(open[..|open| - 1]) + [open[|open| - 1].scope]
  }

  lemma {:induction false} AttributeUrisAre(scope: Scope, attrs: seq<Attr>)
    ensures AttributeUris(scope, attrs) == AttrUris(AttrsOf(scope, attrs))
  {
    if attrs != [] {
      AttributeUrisAre(scope, attrs[1..]);
      if !IsDecl(attrs[0].name) {
        assert AttrsOf(scope, attrs)[1..] == AttrsOf(scope, attrs[1..]);
      } else {
        assert AttrsOf(scope, attrs) == AttrsOf(scope, attrs[1..]);
      }
    }
  }

  lemma TagUrisAre(scope: Scope, name: Name, attrs: seq<Attr>, selfClosing: bool, rest: seq<Token>)
    requires ElementName(scope, name).Ok?
    ensures Used([Open(ElementName(scope, name).value, AttrsOf(scope, attrs), selfClosing)] + rest)
            == TagUris(scope, name, attrs) + Used(rest)
  {
    AttributeUrisAre(scope, attrs);
    var t := Open(ElementName(scope, name).value, AttrsOf(scope, attrs), selfClosing);
    assert ([t] + rest)[1..] == rest;
  }

  lemma CloseUsesNothing(name: EName, rest: seq<Token>)
    ensures Used([Close(name)] + rest) == Used(rest)
  {
    assert ([Close(name)] + rest)[1..] == rest;
  }

  lemma PopScopes(open: seq<Frame>, frame: Frame)
    ensures ScopesOf(open + [frame]) == ScopesOf(open) + [frame.scope]
  {
    assert (open + [frame])[..|open|] == open;
  }

  /** On a document that has a canonical form, the first pass gathers exactly the namespaces in use. */
  lemma {:induction false} FirstPassFindsUsed(events: seq<Event>, open: seq<Frame>)
    requires MeaningOf(events, open).Ok?
    ensures UrisFrom(events, ScopesOf(open)) == Ok(Used(MeaningOf(events, open).value))
  {
    hide Used, TagUris, ElementName, AttrsOf, Tokens, Inside;
    if events == [] {
      NothingUsed();
    } else {
      match events[0]
      case Start(name, attrs) =>
        var inner := Inside(ScopeOf(open), attrs);
        var frame := Frame(ElementName(inner, name).value, inner);
        PopScopes(open, frame);
        FirstPassFindsUsed(events[1..], open + [frame]);
        TagUrisAre(inner, name, attrs, false, MeaningOf(events[1..], open + [frame]).value);
      case Empty(name, attrs) =>
        FirstPassFindsUsed(events[1..], open);
        TagUrisAre(Inside(ScopeOf(open), attrs), name, attrs, true, MeaningOf(events[1..], open).value);
      case End(_) =>
        var shorter := open[..|open| - 1];
        assert open == shorter + [open[|open| - 1]];
        PopScopes(shorter, open[|open| - 1]);
        assert ScopesOf(open)[..|open| - 1] == ScopesOf(shorter);
        FirstPassFindsUsed(events[1..], shorter);
        CloseUsesNothing(open[|open| - 1].name, MeaningOf(events[1..], shorter).value);
      case Chars(piece) =>
        PieceUsesNothing(piece, MeaningOf(events[1..], open).value);
        FirstPassFindsUsed(events[1..], open);
    }
  }

  lemma NothingUsed()
    ensures Used([]) == {}
  {
  }

  lemma PieceUsesNothing(piece: Piece, rest: seq<Token>)
    ensures Used(Tokens(piece) + rest) == Used(rest)
  {
    NoTagsNoUse(Tokens(piece), rest);
  }

  lemma {:induction false} NoTagsNoUse(s: seq<Token>, rest: seq<Token>)
    requires forall t :: t in s ==> !t.Open?
    ensures Used(s + rest) == Used(rest)
  {
    if s == [] {
      assert s + rest == rest;
    } else {
      assert (s + rest)[1..] == s[1..] + rest;
      NoTagsNoUse(s[1..], rest);
    }
  }

  // ----- Prefixes

  /** Numbering a sorted set: repeatedly take the least member left. */
  method SortUris(used: set<string>) returns (uris: seq<string>)
    ensures uris == InOrder(used)
  {
    hide Leq, InOrder;
    uris := [];
    var rest := used;
    NoneInOrder();
    while rest != {}
      invariant uris + InOrder(rest) == InOrder(used)
      decreases rest
    {
      var next := Least(rest);
      LeastFirst(rest, next);
      assert (uris + [next]) + InOrder(rest - {next}) == uris + ([next] + InOrder(rest - {next}));
      uris, rest := uris + [next], rest - {next};
    }
  }

  method Least(s: set<string>) returns (least: string)
    requires s != {}
    ensures IsLeast(least, s)
  {
    ghost var some := LeastExists(s);
    hide Leq;
    least :| least in s && forall y :: y in s ==> Leq(least, y);
  }

  lemma NoneInOrder()
    ensures InOrder({}) == []
  {
  }

  lemma LeastFirst(s: set<string>, x: string)
    requires IsLeast(x, s)
    ensures InOrder(s) == [x] + InOrder(s - {x})
  {
    assert InOrder(s) != [];
    var least := InOrder(s)[0];
    assert least in InOrder(s);
    forall y | IsLeast(y, s)
      ensures y == x
    {
      LeastUnique(x, y, s);
    }
  }

  // ----- Second pass

  /** The prefix a resolved element name is written with. */
  function ResolvedCanonicalPrefix(ns: Namespace, uris: seq<string>): Result<string, Fault>
  {
    match ns
    case Bound(uri) => if uri in uris then Ok(PrefixAt(IndexOf(uris, uri))) else Err(UnmappedUri(uri))
    case Unbound => Ok("")
    case Unknown(prefix) => Err(UnknownPrefix(prefix))
  }

  lemma PrefixAgrees(scope: Scope, name: Name, uris: seq<string>)
    requires XML_NS !in uris && (forall u :: u in ElementUris(scope, name) ==> u in uris)
    ensures var en := ElementName(scope, name);
            ResolvedCanonicalPrefix(ElementNs(scope, name.prefix), uris) ==
              if en.Ok? then Ok(PrefixFor(uris, en.value.ns)) else Err(en.error)
  {
  }

  /** One attribute as written back: declarations go, xml: stays, other prefixes are replaced if they resolve. */
  function RewrittenAttr(scope: Scope, uris: seq<string>, a: Attr): seq<Entry>
  {
    if IsDecl(a.name) then []
    else if a.name.prefix == "xml" then [Entry(Written("xml", a.name.local), Escape(a.value))]
    else
      var ns := AttributeNs(scope, a.name.prefix);
      if a.name.prefix != "" && ns.Bound? && ns.uri in uris
      then [Entry(Written(PrefixAt(IndexOf(uris, ns.uri)), a.name.local), Escape(a.value))]
      else [Entry(Written(a.name.prefix, a.name.local), Escape(a.value))]
  }

  /** The first attribute, as it comes out: nothing, or one entry. */
  lemma OneRewritten(scope: Scope, uris: seq<string>, attrs: seq<Attr>)
    requires attrs != [] && XML_NS !in uris && (forall u :: u in AttributeUris(scope, attrs) ==> u in uris)
    requires !IsDecl(attrs[0].name)
    ensures RewrittenAttr(scope, uris, attrs[0])
            == [AttrEntry(uris, EAttr(AttrName(scope, attrs[0].name), attrs[0].value))]
  {
    hide Written, Escape, PrefixAt;
  }

  lemma RewrittenAgrees(scope: Scope, uris: seq<string>, attrs: seq<Attr>)
    requires attrs != [] && XML_NS !in uris && (forall u :: u in AttributeUris(scope, attrs) ==> u in uris)
    ensures AttrEntries(uris, AttrsOf(scope, attrs))
            == RewrittenAttr(scope, uris, attrs[0]) + AttrEntries(uris, AttrsOf(scope, attrs[1..]))
  {
    if IsDecl(attrs[0].name) {
      hide AttrEntries, AttributeUris;
      assert AttrsOf(scope, attrs) == AttrsOf(scope, attrs[1..]);
    } else {
      OneRewritten(scope, uris, attrs);
      hide RewrittenAttr, AttrEntry, AttrName, AttributeUris, IsDecl, AttrEntries;
      EntriesCons(uris, EAttr(AttrName(scope, attrs[0].name), attrs[0].value), AttrsOf(scope, attrs[1..]));
    }
  }

  lemma EntriesCons(uris: seq<string>, first: EAttr, rest: seq<EAttr>)
    ensures AttrEntries(uris, [first] + rest) == [AttrEntry(uris, first)] + AttrEntries(uris, rest)
  {
    hide AttrEntry;
  }

  method EmitAttrs(scope: Scope, attrs: seq<Attr>, uris: seq<string>) returns (entries: seq<Entry>)
    requires XML_NS !in uris && (forall u :: u in AttributeUris(scope, attrs) ==> u in uris)
    ensures entries == Sorted(AttrEntries(uris, AttrsOf(scope, attrs)))
  {
    hide AttrEntries, RewrittenAttr, AttrsOf, Sorted;
    entries := [];
    assert attrs[0..] == attrs;
    for i := 0 to |attrs|
      invariant entries + AttrEntries(uris, AttrsOf(scope, attrs[i..])) == AttrEntries(uris, AttrsOf(scope, attrs))
      invariant forall u :: u in AttributeUris(scope, attrs[i..]) ==> u in uris
    {
      assert attrs[i..][1..] == attrs[i + 1..];
      RewrittenAgrees(scope, uris, attrs[i..]);
      entries := entries + RewrittenAttr(scope, uris, attrs[i]);
    }
    assert attrs[|attrs|..] == [];
    NoEntries(scope, uris);
    assert entries + [] == entries;
    entries := Sorted(entries);
  }

  lemma NoEntries(scope: Scope, uris: seq<string>)
    ensures AttrEntries(uris, AttrsOf(scope, [])) == []
  {
  }

  function OutPiece(piece: Piece): seq<Output>
  {
    match piece
    case Text(text) => seq(|text|, i requires 0 <= i < |text| => OutChar(text[i]))
    case CData(text) => [OutSection(text)]
    case GeneralRef(entity) => [OutEntity(entity)]
    case Misc(_) => []
  }

  lemma {:induction false} RenderWithoutTags(uris: seq<string>, s: seq<Token>, rest: seq<Token>, first: bool)
    requires forall t :: t in s ==> !t.Open?
    ensures Render(uris, s + rest, first) == Render(uris, s, first) + Render(uris, rest, first)
    ensures forall i :: 0 <= i < |s| ==> Render(uris, s, first)[i] == RenderToken(uris, first, s[i])
  {
    if s == [] {
      assert s + rest == rest;
    } else {
      assert (s + rest)[1..] == s[1..] + rest;
      assert s[0] in s;
      RenderWithoutTags(uris, s[1..], rest, first);
    }
  }

  lemma RenderPiece(uris: seq<string>, piece: Piece, rest: seq<Token>, first: bool)
    ensures Render(uris, Tokens(piece) + rest, first) == OutPiece(piece) + Render(uris, rest, first)
  {
    RenderWithoutTags(uris, Tokens(piece), rest, first);
    assert Render(uris, Tokens(piece), first) == OutPiece(piece);
  }

  lemma RenderOne(uris: seq<string>, t: Token, rest: seq<Token>, first: bool)
    ensures Render(uris, [t] + rest, first)
            == [RenderToken(uris, first, t)] + Render(uris, rest, first && !t.Open?)
  {
    assert ([t] + rest)[1..] == rest;
  }

  /** The output so far, completed with what remains, is the rendering of the whole. */
  ghost predicate OnTrack(
      whole: Result<seq<Token>, Fault>, uris: seq<string>, out: seq<Output>, first: bool,
      rest: Result<seq<Token>, Fault>)
  {
    if rest.Ok? then whole.Ok? && out + Render(uris, rest.value, first) == Render(uris, whole.value, true)
    else whole.Err?
  }

  lemma TrackOne(
      whole: Result<seq<Token>, Fault>, uris: seq<string>, out: seq<Output>, first: bool,
      t: Token, rest: Result<seq<Token>, Fault>)
    requires OnTrack(whole, uris, out, first, Then([t], rest))
    ensures OnTrack(whole, uris, out + [RenderToken(uris, first, t)], first && !t.Open?, rest)
  {
    hide Render, RenderToken;
    if rest.Ok? {
      RenderOne(uris, t, rest.value, first);
    }
  }

  lemma TrackPiece(
      whole: Result<seq<Token>, Fault>, uris: seq<string>, out: seq<Output>, first: bool,
      piece: Piece, rest: Result<seq<Token>, Fault>)
    requires OnTrack(whole, uris, out, first, Then(Tokens(piece), rest))
    ensures OnTrack(whole, uris, out + OutPiece(piece), first, rest)
  {
    hide Render, OutPiece, Tokens;
    if rest.Ok? {
      RenderPiece(uris, piece, rest.value, first);
      assert out + (OutPiece(piece) + Render(uris, rest.value, first))
          == (out + OutPiece(piece)) + Render(uris, rest.value, first);
    }
  }

  /** One start or self-closing tag. */
  method EmitTag(scope: Scope, name: Name, attrs: seq<Attr>, uris: seq<string>, first: bool, selfClosing: bool)
    returns (r: Result<Output, Fault>)
    requires XML_NS !in uris && (forall u :: u in TagUris(scope, name, attrs) ==> u in uris)
    ensures var en := ElementName(scope, name);
            && (r.Ok? <==> en.Ok?)
            && (en.Ok? ==> r.value == RenderToken(uris, first, Open(en.value, AttrsOf(scope, attrs), selfClosing)))
  {
    var ns := ElementNs(scope, name.prefix);
    if ns.Unknown? {
      return Err(UnknownPrefix(ns.prefix));
    }
    PrefixAgrees(scope, name, uris);
    var prefix := ResolvedCanonicalPrefix(ns, uris);
    if prefix.Err? {
      return Err(prefix.error);
    }
    var entries := EmitAttrs(scope, attrs, uris);
    return Ok(OpenTag(prefix.value, name.local, if first then Sorted(DeclEntries(uris)) else [], entries, selfClosing));
  }

  /** What the element stack holds for the open elements. */
  function StackOf(uris: seq<string>, open: seq<Frame>): (s: seq<(string, string)>)
    ensures |s| == |open|
    ensures forall i :: 0 <= i < |s| ==> s[i] == (open[i].name.local, PrefixFor(uris, open[i].name.ns))
  {
    seq(|open|, i requires 0 <= i < |open| => (open[i].name.local, PrefixFor(uris, open[i].name.ns)))
  }

  lemma StartOnTrack(whole: Result<seq<Token>, Fault>, uris: seq<string>)
    ensures OnTrack(whole, uris, [], true, whole)
    ensures StackOf(uris, []) == []
  {
  }

  lemma PushStack(uris: seq<string>, open: seq<Frame>, inner: Scope, name: Name, attrs: seq<Attr>)
    requires XML_NS !in uris && (forall u :: u in TagUris(inner, name, attrs) ==> u in uris)
    requires ElementName(inner, name).Ok?
    ensures var prefix := ResolvedCanonicalPrefix(ElementNs(inner, name.prefix), uris);
            && prefix.Ok?
            && StackOf(uris, open + [Frame(ElementName(inner, name).value, inner)])
               == StackOf(uris, open) + [(name.local, prefix.value)]
  {
    PrefixAgrees(inner, name, uris);
  }

  lemma PopStack(uris: seq<string>, open: seq<Frame>)
    requires open != []
    ensures var n := |open| - 1;
            && |StackOf(uris, open)| == n + 1
            && StackOf(uris, open[..n]) == StackOf(uris, open)[..n]
            && ScopesOf(open[..n]) == ScopesOf(open)[..n]
            && RenderToken(uris, false, Close(open[n].name)) == RenderToken(uris, true, Close(open[n].name))
               == CloseTag(StackOf(uris, open)[n].1, StackOf(uris, open)[n].0)
  {
    assert open == open[..|open| - 1] + [open[|open| - 1]];
    PopScopes(open[..|open| - 1], open[|open| - 1]);
  }

  lemma {:induction false} XmlIsNotGathered(events: seq<Event>, scopes: seq<Scope>)
    requires UrisFrom(events, scopes).Ok?
    ensures XML_NS !in UrisFrom(events, scopes).value
  {
    if events != [] {
      match events[0]
      case Start(name, attrs) =>
        var inner := Inside(Top(scopes), attrs);
        XmlIsNotInAttrs(inner, attrs);
        XmlIsNotGathered(events[1..], scopes + [inner]);
      case Empty(name, attrs) =>
        XmlIsNotInAttrs(Inside(Top(scopes), attrs), attrs);
        XmlIsNotGathered(events[1..], scopes);
      case End(_) => XmlIsNotGathered(events[1..], scopes[..|scopes| - 1]);
      case Chars(_) => XmlIsNotGathered(events[1..], scopes);
    }
  }

  lemma {:induction false} XmlIsNotInAttrs(scope: Scope, attrs: seq<Attr>)
    ensures XML_NS !in AttributeUris(scope, attrs)
  {
    if attrs != [] {
      XmlIsNotInAttrs(scope, attrs[1..]);
    }
  }

  /** The URIs gathered from the events that remain all have prefixes. */
  ghost predicate StillMapped(events: seq<Event>, scopes: seq<Scope>, uris: seq<string>)
  {
    var r := UrisFrom(events, scopes);
    r.Ok? && forall u :: u in r.value ==> u in uris
  }

  /** canonicalize_prefixes: fails exactly when there is no canonical form, and otherwise returns it. */
  method CanonicalizePrefixes(events: seq<Event>) returns (r: Result<seq<Ink>, Fault>)
    ensures r.Ok? <==> CanonicalForm(events).Ok?
    ensures r.Ok? ==> r == CanonicalForm(events)
  {
    ghost var whole := MeaningOf(events, []);
    if whole.Ok? {
      FirstPassFindsUsed(events, []);
    }
    var used := CollectUsedUris(events);
    if used.Err? {
      return Err(used.error);
    }
    var uris := SortUris(used.value);
    XmlIsNotGathered(events, []);
    var out := SecondPass(events, uris);
    if out.Err? {
      return Err(out.error);
    }
    return Ok(InkAll(out.value));
  }

  /** What the second pass keeps, with these events to come. */
  ghost predicate Passing(
      whole: Result<seq<Token>, Fault>, uris: seq<string>, events: seq<Event>, out: seq<Output>, scopes: seq<Scope>,
      stack: seq<(string, string)>, first: bool, open: seq<Frame>)
  {
    && scopes == ScopesOf(open) && stack == StackOf(uris, open) && XML_NS !in uris
    && StillMapped(events, scopes, uris) && OnTrack(whole, uris, out, first, MeaningOf(events, open))
  }

  /** A tag's namespaces all have prefixes, and the scope the code holds is that of the open elements. */
  lemma TagIsMapped(
      whole: Result<seq<Token>, Fault>, uris: seq<string>, events: seq<Event>, out: seq<Output>, scopes: seq<Scope>,
      stack: seq<(string, string)>, first: bool, open: seq<Frame>, name: Name, attrs: seq<Attr>)
    requires Passing(whole, uris, events, out, scopes, stack, first, open)
    requires events != [] && (events[0] == Start(name, attrs) || events[0] == Empty(name, attrs))
    ensures Top(scopes) == ScopeOf(open)
    ensures forall u :: u in TagUris(Inside(Top(scopes), attrs), name, attrs) ==> u in uris
    ensures ElementName(Inside(Top(scopes), attrs), name).Err? ==> whole.Err?
  {
    hide TagUris, Inside, ElementName, Render;
  }

  lemma StartPasses(
      whole: Result<seq<Token>, Fault>, uris: seq<string>, events: seq<Event>, out: seq<Output>, scopes: seq<Scope>,
      stack: seq<(string, string)>, first: bool, open: seq<Frame>, name: Name, attrs: seq<Attr>, prefix: string)
    requires Passing(whole, uris, events, out, scopes, stack, first, open)
    requires events != [] && events[0] == Start(name, attrs)
    requires var inner := Inside(Top(scopes), attrs);
      && ElementName(inner, name).Ok?
      && ResolvedCanonicalPrefix(ElementNs(inner, name.prefix), uris) == Ok(prefix)
    ensures var inner := Inside(Top(scopes), attrs); var en := ElementName(inner, name).value;
      Passing(whole, uris, events[1..], out + [RenderToken(uris, first, Open(en, AttrsOf(inner, attrs), false))],
              scopes + [inner], stack + [(name.local, prefix)], false, open + [Frame(en, inner)])
  {
    TagIsMapped(whole, uris, events, out, scopes, stack, first, open, name, attrs);
    var inner := Inside(Top(scopes), attrs);
    var en := ElementName(inner, name).value;
    hide TagUris, Inside, ElementName, ResolvedCanonicalPrefix, ElementNs, AttrsOf, Render, RenderToken, StackOf;
    PushStack(uris, open, inner, name, attrs);
    PopScopes(open, Frame(en, inner));
    TrackOne(whole, uris, out, first, Open(en, AttrsOf(inner, attrs), false),
             MeaningOf(events[1..], open + [Frame(en, inner)]));
    hide OnTrack, ScopesOf;
  }

  lemma EmptyPasses(
      whole: Result<seq<Token>, Fault>, uris: seq<string>, events: seq<Event>, out: seq<Output>, scopes: seq<Scope>,
      stack: seq<(string, string)>, first: bool, open: seq<Frame>, name: Name, attrs: seq<Attr>)
    requires Passing(whole, uris, events, out, scopes, stack, first, open)
    requires events != [] && events[0] == Empty(name, attrs)
    requires ElementName(Inside(Top(scopes), attrs), name).Ok?
    ensures var inner := Inside(Top(scopes), attrs); var en := ElementName(inner, name).value;
      Passing(whole, uris, events[1..], out + [RenderToken(uris, first, Open(en, AttrsOf(inner, attrs), true))],
              scopes, stack, false, open)
  {
    TagIsMapped(whole, uris, events, out, scopes, stack, first, open, name, attrs);
    var inner := Inside(Top(scopes), attrs);
    var en := ElementName(inner, name).value;
    hide TagUris, Inside, ElementName, AttrsOf, Render, RenderToken, StackOf;
    TrackOne(whole, uris, out, first, Open(en, AttrsOf(inner, attrs), true), MeaningOf(events[1..], open));
    hide OnTrack, ScopesOf;
  }

  lemma EndPasses(
      whole: Result<seq<Token>, Fault>, uris: seq<string>, events: seq<Event>, out: seq<Output>, scopes: seq<Scope>,
      stack: seq<(string, string)>, first: bool, open: seq<Frame>)
    requires Passing(whole, uris, events, out, scopes, stack, first, open) && events != [] && events[0].End?
    ensures |stack| == |scopes| == |open| && (stack == [] ==> whole.Err?)
    ensures stack != [] ==> var n := |stack| - 1;
      Passing(whole, uris, events[1..], out + [CloseTag(stack[n].1, stack[n].0)],
              scopes[..n], stack[..n], first, open[..n])
  {
    hide Render, RenderToken;
    if stack != [] {
      PopStack(uris, open);
      hide StackOf, ScopesOf;
      TrackOne(whole, uris, out, first, Close(open[|open| - 1].name), MeaningOf(events[1..], open[..|open| - 1]));
      hide OnTrack;
    }
  }

  lemma CharsPass(
      whole: Result<seq<Token>, Fault>, uris: seq<string>, events: seq<Event>, out: seq<Output>, scopes: seq<Scope>,
      stack: seq<(string, string)>, first: bool, open: seq<Frame>)
    requires Passing(whole, uris, events, out, scopes, stack, first, open) && events != [] && events[0].Chars?
    ensures Passing(whole, uris, events[1..], out + OutPiece(events[0].piece), scopes, stack, first, open)
  {
    hide Render, StackOf, ScopesOf, Tokens, OutPiece;
    TrackPiece(whole, uris, out, first, events[0].piece, MeaningOf(events[1..], open));
    hide OnTrack;
  }

  lemma Passed(
      whole: Result<seq<Token>, Fault>, uris: seq<string>, out: seq<Output>, scopes: seq<Scope>,
      stack: seq<(string, string)>, first: bool, open: seq<Frame>)
    requires Passing(whole, uris, [], out, scopes, stack, first, open)
    ensures whole.Ok? && out == Render(uris, whole.value, true)
  {
    assert out + [] == out;
  }

  method SecondPass(events: seq<Event>, uris: seq<string>) returns (r: Result<seq<Output>, Fault>)
    requires XML_NS !in uris && StillMapped(events, [], uris)
    ensures r.Ok? <==> MeaningOf(events, []).Ok?
    ensures r.Ok? ==> r.value == Render(uris, MeaningOf(events, []).value, true)
  {
    ghost var whole, open: seq<Frame> := MeaningOf(events, []), [];
    var out: seq<Output>, scopes: seq<Scope>, stack: seq<(string, string)>, first := [], [], [], true;
    StartOnTrack(whole, uris);
    assert events[0..] == events && events[|events|..] == [];
    assert Passing(whole, uris, events, out, scopes, stack, first, open);
    hide Passing, RenderToken, Render, TagUris, AttrsOf, ElementName, Inside, StackOf, PrefixFor, MeaningOf,
        StillMapped;
    for i := 0 to |events|
      invariant Passing(whole, uris, events[i..], out, scopes, stack, first, open)
    {
      assert events[i..][0] == events[i] && events[i..][1..] == events[i + 1..];
      match events[i] {
        case Start(name, attrs) =>
          TagIsMapped(whole, uris, events[i..], out, scopes, stack, first, open, name, attrs);
          var inner := Inside(Top(scopes), attrs);
          var tag := EmitTag(inner, name, attrs, uris, first, false);
          if tag.Err? {
            return Err(tag.error);
          }
          PushedPrefix(uris, inner, name, attrs);
          var prefix := ResolvedCanonicalPrefix(ElementNs(inner, name.prefix), uris).value;
          StartPasses(whole, uris, events[i..], out, scopes, stack, first, open, name, attrs, prefix);
          open := open + [Frame(ElementName(inner, name).value, inner)];
          out, scopes, stack, first := out + [tag.value], scopes + [inner], stack + [(name.local, prefix)], false;
        case Empty(name, attrs) =>
          TagIsMapped(whole, uris, events[i..], out, scopes, stack, first, open, name, attrs);
          var tag := EmitTag(Inside(Top(scopes), attrs), name, attrs, uris, first, true);
          if tag.Err? {
            return Err(tag.error);
          }
          EmptyPasses(whole, uris, events[i..], out, scopes, stack, first, open, name, attrs);
          out, first := out + [tag.value], false;
        case End(_) =>
          EndPasses(whole, uris, events[i..], out, scopes, stack, first, open);
          if stack == [] {
            return Err(EndWithoutStart);
          }
          var (local, prefix) := stack[|stack| - 1];
          out, stack := out + [CloseTag(prefix, local)], stack[..|stack| - 1];
          scopes, open := scopes[..|scopes| - 1], open[..|open| - 1];
        case Chars(piece) =>
          CharsPass(whole, uris, events[i..], out, scopes, stack, first, open);
          out := out + OutPiece(piece);
      }
    }
    Passed(whole, uris, out, scopes, stack, first, open);
    return Ok(out);
  }

  lemma PushedPrefix(uris: seq<string>, inner: Scope, name: Name, attrs: seq<Attr>)
    requires XML_NS !in uris && (forall u :: u in TagUris(inner, name, attrs) ==> u in uris)
    requires ElementName(inner, name).Ok?
    ensures ResolvedCanonicalPrefix(ElementNs(inner, name.prefix), uris).Ok?
  {
    PushStack(uris, [], inner, name, attrs);
  }
}
