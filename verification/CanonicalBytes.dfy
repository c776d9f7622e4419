/** The canonical form as the bytes that are compared: nothing is lost by writing its tags and characters in a row. */
module CanonicalBytes {
  import opened Wrappers
  import opened Xml
  import opened Ordering
  import opened Tags
  import opened Canonical
  import opened CanonicalComplete
  import opened CanonicalText

  const CDATA_START := "<![CDATA["
  const CDATA_END := "]]>"

  function BytesOf(ink: Ink): string
  {
    match ink
    case Tag(text) => text
    case Data(Text(text)) => text
    case Data(CData(text)) => CDATA_START + text + CDATA_END
    case Data(GeneralRef(entity)) => "&" + entity + ";"
    case Data(Misc(text)) => text
  }

  function Bytes(inks: seq<Ink>): string
  {
    if inks == [] then "" else BytesOf(inks[0]) + Bytes(inks[1..])
  }

  /** Sections and references are written with their delimiters, all else as it is. */
  lemma BytesAre(tag: string, text: string, section: string, entity: string)
    ensures Bytes([Tag(tag), Data(Text(text)), Data(CData(section)), Data(GeneralRef(entity))])
            == tag + (text + (("<![CDATA[" + section + "]]>") + ("&" + entity + ";")))
  {
    var last, later := [Data(GeneralRef(entity))], [Data(CData(section)), Data(GeneralRef(entity))];
    var three := [Data(Text(text)), Data(CData(section)), Data(GeneralRef(entity))];
    BytesCons(Data(GeneralRef(entity)), []);
    BytesCons(Data(CData(section)), last);
    BytesCons(Data(Text(text)), later);
    BytesCons(Tag(tag), three);
    assert last == [Data(GeneralRef(entity))] + [] && later == [Data(CData(section))] + last;
    assert three == [Data(Text(text))] + later;
    assert [Tag(tag), Data(Text(text)), Data(CData(section)), Data(GeneralRef(entity))] == [Tag(tag)] + three;
    assert ("&" + entity + ";") + "" == "&" + entity + ";";
  }

  lemma BytesCons(first: Ink, rest: seq<Ink>)
    ensures Bytes([first] + rest) == BytesOf(first) + Bytes(rest)
  {
    assert ([first] + rest)[1..] == rest;
  }

  // ----- Reading the front of the bytes

  /** Where the first CDATA end lies. */
  function FindEnd(s: string): Option<nat>
  {
    if |s| < 3 then None
    else if s[..3] == CDATA_END then Some(0)
    else
      match FindEnd(s[1..])
      case None => None
      case Some(i) => Some(i + 1)
  }

  predicate StartsSection(s: string) { |s| >= 9 && s[..9] == CDATA_START }

  function ReadSection(s: string): Option<(Event, string)>
  {
    match FindEnd(s)
    case Some(i) => if i + 3 <= |s| then Some((Chars(CData(s[..i])), s[i + 3..])) else None
    case None => None
  }

  function ReadEntity(s: string): Option<(Event, string)>
  {
    match Find(s, ';')
    case Some(i) => Some((Chars(GeneralRef(s[..i])), s[i + 1..]))
    case None => None
  }

  function ReadFront(s: string): Option<(Event, string)>
  {
    if s == "" then None
    else if StartsSection(s) then ReadSection(s[9..])
    else if s[0] == '<' then ReadTag(s)
    else if s[0] == '&' then ReadEntity(s[1..])
    else Some((Chars(Text([s[0]])), s[1..]))
  }

  /** Characters as the tokenizer gives them: text one by one, and nothing that would end what it stands in. */
  predicate LexedPiece(piece: Piece)
  {
    match piece
    case Text(text) => |text| == 1 && text[0] != '<' && text[0] != '&'
    case CData(text) => FindEnd(text) == None
    case GeneralRef(entity) => ';' !in entity
    case Misc(_) => false
  }

  predicate Legible(e: Event)
  {
    NamedEvent(e) && QuoteFreeEvent(e) && (e.Chars? ==> LexedPiece(e.piece))
  }

  lemma {:induction false} EndFound(text: string, rest: string)
    requires FindEnd(text) == None
    ensures FindEnd(text + CDATA_END + rest) == Some(|text|)
  {
    var s := text + CDATA_END + rest;
    if text == "" {
      assert s[..3] == CDATA_END;
    } else {
      assert s[1..] == text[1..] + CDATA_END + rest;
      if |text| >= 3 {
        assert s[..3] == text[..3];
      } else {
        assert s[2] == (text + CDATA_END)[2] != '>';
      }
      EndFound(text[1..], rest);
    }
  }

  lemma SectionRead(text: string, rest: string)
    requires FindEnd(text) == None
    ensures ReadFront(BytesOf(Data(CData(text))) + rest) == Some((Chars(CData(text)), rest))
  {
    var s, after := BytesOf(Data(CData(text))) + rest, text + CDATA_END + rest;
    EndFound(text, rest);
    SectionStarts(text, rest);
    hide FindEnd, StartsSection;
    assert after[..|text|] == text && after[|text| + 3..] == rest;
  }

  lemma SectionStarts(text: string, rest: string)
    ensures var s := BytesOf(Data(CData(text))) + rest;
            s != "" && StartsSection(s) && |s| >= 9 && s[9..] == text + CDATA_END + rest
  {
    var s, after := BytesOf(Data(CData(text))) + rest, text + CDATA_END + rest;
    assert s == CDATA_START + after;
    hide BytesOf;
    assert (CDATA_START + after)[..9] == CDATA_START && (CDATA_START + after)[9..] == after;
  }

  lemma EntityRead(entity: string, rest: string)
    requires ';' !in entity
    ensures ReadFront(BytesOf(Data(GeneralRef(entity))) + rest) == Some((Chars(GeneralRef(entity)), rest))
  {
    var s, after := BytesOf(Data(GeneralRef(entity))) + rest, entity + [';'] + rest;
    FindFirst(entity, rest, ';');
    hide Find;
    assert s[0] == '&' && s[1..] == after;
    NoSection(s);
    hide StartsSection;
    assert after[..|entity|] == entity && after[|entity| + 1..] == rest;
  }

  lemma SectionShape(s: string)
    requires StartsSection(s)
    ensures s[0] == '<' && s[1] == '!'
  {
    assert s[..9][0] == CDATA_START[0] && s[..9][1] == CDATA_START[1];
  }

  lemma NoSection(s: string)
    requires s != "" && (s[0] != '<' || (|s| > 1 && s[1] != '!'))
    ensures !StartsSection(s)
  {
    if StartsSection(s) {
      SectionShape(s);
    }
  }

  lemma TagStarts(e: Event, rest: string)
    requires NamedEvent(e) && !e.Chars? && Key(e.name)[0] != '!'
    ensures var s := Write(e).text + rest; |s| >= 2 && s[0] == '<' && s[1] != '!'
  {
  }

  lemma TagFront(e: Event, rest: string)
    requires NamedEvent(e) && QuoteFreeEvent(e) && !e.Chars? && Key(e.name)[0] != '!'
    ensures ReadFront(BytesOf(Write(e)) + rest) == Some((e, rest))
  {
    TagReadsBackExactlyWhen(e, rest);
    TagStarts(e, rest);
    hide ReadTag, NamedEvent, QuoteFreeEvent, StartsSection, Key, TagText, AttrsText, EndText;
    NoSection(Write(e).text + rest);
  }

  /** The front of the bytes reads back, whatever follows. */
  lemma FrontReadsBack(e: Event, rest: string)
    requires Legible(e) && (!e.Chars? ==> Key(e.name)[0] != '!')
    ensures ReadFront(BytesOf(Write(e)) + rest) == Some((e, rest)) && BytesOf(Write(e)) != ""
  {
    hide ReadFront, FindEnd, NamedEvent, QuoteFreeEvent, Key;
    if !e.Chars? {
      TagFront(e, rest);
      assert Write(e).text != "" by { hide Key, AttrsText, Closing; }
    } else {
      match e.piece
      case Text(text) => CharRead(text, rest);
      case CData(text) => SectionRead(text, rest);
      case GeneralRef(entity) => EntityRead(entity, rest);
    }
  }

  lemma CharRead(text: string, rest: string)
    requires |text| == 1 && text[0] != '<' && text[0] != '&'
    ensures ReadFront(BytesOf(Data(Text(text))) + rest) == Some((Chars(Text(text)), rest))
  {
    var s := text + rest;
    assert s[0] == text[0] && s[1..] == rest && [s[0]] == text;
    NoSection(s);
  }

  // ----- Equal bytes, equal events

  predicate AllLegible(events: seq<Event>)
  {
    forall i :: 0 <= i < |events| ==> Legible(events[i]) && (!events[i].Chars? ==> Key(events[i].name)[0] != '!')
  }

  lemma FirstBytes(x: seq<Event>)
    requires AllLegible(x)
    ensures x == [] <==> Bytes(WriteAll(x)) == ""
    ensures x != [] ==> ReadFront(Bytes(WriteAll(x))) == Some((x[0], Bytes(WriteAll(x[1..]))))
  {
    hide Legible, ReadFront, BytesOf, Write, Key;
    if x != [] {
      WriteFirst(x);
      FrontReadsBack(x[0], Bytes(WriteAll(x[1..])));
    }
  }

  lemma {:induction false} SameBytesSameEvents(x: seq<Event>, y: seq<Event>)
    requires AllLegible(x) && AllLegible(y) && Bytes(WriteAll(x)) == Bytes(WriteAll(y))
    ensures x == y
  {
    hide Legible, ReadFront, BytesOf, Write, Key, WriteAll, Bytes;
    FirstBytes(x);
    FirstBytes(y);
    if x != [] && y != [] {
      SameBytesSameEvents(x[1..], y[1..]);
      assert x == [x[0]] + x[1..] && y == [y[0]] + y[1..];
    }
  }

  // ----- The canonical form

  /** Tokens that come from a tokenizer: no character, section, entity or name holds what would end it. */
  predicate LexedToken(t: Token)
  {
    match t
    case Char(c) => c != '<' && c != '&'
    case Section(text) => FindEnd(text) == None
    case Entity(entity) => ';' !in entity
    case Open(name, _, _) => '!' !in name.local
    case Close(name) => '!' !in name.local
  }

  predicate Lexed(tokens: seq<Token>) { forall i :: 0 <= i < |tokens| ==> LexedToken(tokens[i]) }

  lemma RenderedLegible(uris: seq<string>, first: bool, t: Token)
    requires GoodToken(t) && TokenCovered(uris, t) && LexedToken(t) && (first && t.Open? ==> QuoteFreeUris(uris))
    ensures var e := AsEvent(RenderToken(uris, first, t)); Legible(e) && (!e.Chars? ==> Key(e.name)[0] != '!')
  {
    TokenReads(uris, first, t);
    if t.Open? || t.Close? {
      PrefixIsPlain(uris, t.name.ns);
      RenderedNameLike(uris, t.name);
      hide NamedEvent, QuoteFreeEvent, PrefixFor, Sorted, AttrEntries, DeclEntries, GoodName, NameLike;
    }
  }

  lemma PrefixIsPlain(uris: seq<string>, ns: Ns)
    ensures !ns.Raw? && PrefixFor(uris, ns) != "" ==> PrefixFor(uris, ns)[0] != '!'
  {
  }

  lemma {:induction false} OutputLegible(uris: seq<string>, tokens: seq<Token>, first: bool)
    requires AllGood(tokens) && AllCovered(uris, tokens) && Lexed(tokens)
    requires first && HasOpen(tokens) ==> QuoteFreeUris(uris)
    ensures AllLegible(AsEvents(Render(uris, tokens, first)))
  {
    hide RenderToken, AsEvent, GoodToken, TokenCovered, LexedToken, QuoteFreeUris, Legible, Key;
    if tokens != [] {
      var t, rest, more := tokens[0], tokens[1..], first && !tokens[0].Open?;
      var out, tail := Render(uris, tokens, first), Render(uris, rest, more);
      assert tokens == [t] + rest && t in tokens;
      assert out == [RenderToken(uris, first, t)] + tail && out[1..] == tail;
      RenderedLegible(uris, first, t);
      OutputLegible(uris, rest, more);
      assert AsEvents(out) == [AsEvent(out[0])] + AsEvents(tail);
    }
  }

  lemma FormLegible(events: seq<Event>)
    requires NamespaceWellFormed(events) && QuoteFreeNamespaces(events)
    requires Lexed(MeaningOf(events, []).value)
    ensures var tags := AsEvents(CanonicalTags(events).value);
            AllLegible(tags) && CanonicalForm(events).value == WriteAll(tags)
  {
    var tokens := MeaningOf(events, []).value;
    var uris := InOrder(Used(tokens));
    UsedCovers(events, [], uris);
    hide MeaningOf, Render, AsEvents, InkAll, Used;
    OutputReads(uris, tokens, true);
    OutputLegible(uris, tokens, true);
  }

  /**
    Two documents as a tokenizer gives them, namespace-well-formed and without double quotes in the namespaces they use,
    are canonicalised to the same bytes exactly when they mean the same.
   */
  lemma CanonicalBytesAreComplete(d: seq<Event>, e: seq<Event>)
    requires NamespaceWellFormed(d) && QuoteFreeNamespaces(d) && Lexed(MeaningOf(d, []).value)
    requires NamespaceWellFormed(e) && QuoteFreeNamespaces(e) && Lexed(MeaningOf(e, []).value)
    ensures Bytes(CanonicalForm(d).value) == Bytes(CanonicalForm(e).value)
            <==> SameMeaning(MeaningOf(d, []).value, MeaningOf(e, []).value)
  {
    CanonicalFormIsComplete(d, e);
    FormLegible(d);
    FormLegible(e);
    hide CanonicalForm, CanonicalTags, AsEvents, AllLegible, Bytes, SameMeaning, QuoteFreeNamespaces, Lexed;
    if Bytes(CanonicalForm(d).value) == Bytes(CanonicalForm(e).value) {
      SameBytesSameEvents(AsEvents(CanonicalTags(d).value), AsEvents(CanonicalTags(e).value));
      assert CanonicalForm(d) == CanonicalForm(e);
    }
  }
}
