/** Tags as text: how the code writes them by hand, and what a tokenizer reads in what was written. */
module Tags {
  import opened Wrappers
  import opened Xml

  // ----- Names

  /** A qualified name as written. */
  function Written(prefix: string, local: string): string
  {
    if prefix == "" then local else prefix + ":" + local
  }

  function Key(name: Name): string { Written(name.prefix, name.local) }

  function FirstColon(s: string): (i: nat)
    requires ':' in s
    ensures i < |s| && s[i] == ':'
  {
    if s[0] == ':' then 0 else 1 + FirstColon(s[1..])
  }

  /** A written name, split at its first colon. */
  function ReadName(s: string): Name
  {
    if ':' in s then Name(s[..FirstColon(s)], s[FirstColon(s) + 1..]) else Name("", s)
  }

  /** The characters at which a name in a tag ends. */
  const STOPS := " \t\r\n=\"'<>/"

  predicate NameChars(s: string) { forall i :: 0 <= i < |s| ==> s[i] !in STOPS }

  /** A name as the tokenizer gives it: not empty, without stop characters, split at its first colon. */
  predicate NameLike(name: Name)
  {
    Key(name) != "" && NameChars(Key(name)) && ReadName(Key(name)) == name
  }

  lemma {:induction false} FirstColonAfter(p: string, l: string)
    requires ':' !in p
    ensures ':' in p + ":" + l && FirstColon(p + ":" + l) == |p|
  {
    var s := p + ":" + l;
    assert s[|p|] == ':';
    if p != "" {
      FirstColonAfter(p[1..], l);
      assert s[1..] == p[1..] + ":" + l;
    }
  }

  lemma ReadWritten(p: string, l: string)
    requires ':' !in p && ':' !in l
    ensures ReadName(Written(p, l)) == Name(p, l)
  {
    if p != "" {
      var s := p + ":" + l;
      FirstColonAfter(p, l);
      assert s[..|p|] == p && s[|p| + 1..] == l;
    }
  }

  lemma PrefixedNameLike(p: string, l: string)
    requires p != "" && ':' !in p && ':' !in l && NameChars(p) && NameChars(l)
    ensures NameLike(Name(p, l))
  {
    ReadWritten(p, l);
    var s := p + ":" + l;
    forall i | 0 <= i < |s| ensures s[i] !in STOPS {
      assert i < |p| ==> s[i] == p[i];
      assert i > |p| ==> s[i] == l[i - |p| - 1];
    }
  }

  lemma LocalNameLike(l: string)
    requires l != "" && ':' !in l && NameChars(l)
    ensures NameLike(Name("", l))
  {
  }

  // ----- Writing

  /** One attribute; whatever quotes it had, its value comes out between double quotes, as it is. */
  function Quoted(key: string, value: string): string { " " + key + "=\"" + value + "\"" }

  function AttrsText(attrs: seq<Attr>): string
  {
    if attrs == [] then "" else Quoted(Key(attrs[0].name), attrs[0].value) + AttrsText(attrs[1..])
  }

  function Closing(selfClosing: bool): string { if selfClosing then "/>" else ">" }

  function TagText(key: string, attrs: string, selfClosing: bool): string
  {
    "<" + key + attrs + Closing(selfClosing)
  }

  function EndText(key: string): string { "</" + key + ">" }

  /** What is written: tags as text, everything else as it was read. */
  datatype Ink = Tag(text: string) | Data(piece: Piece)

  function Write(e: Event): Ink
  {
    match e
    case Start(name, attrs) => Tag(TagText(Key(name), AttrsText(attrs), false))
    case Empty(name, attrs) => Tag(TagText(Key(name), AttrsText(attrs), true))
    case End(name) => Tag(EndText(Key(name)))
    case Chars(piece) => Data(piece)
  }

  function WriteAll(events: seq<Event>): (inks: seq<Ink>)
    ensures |inks| == |events| && forall i :: 0 <= i < |inks| ==> inks[i] == Write(events[i])
  {
    seq(|events|, i requires 0 <= i < |events| => Write(events[i]))
  }

  /** Tags as they are written: one space before an attribute, and its value as it is between double quotes. */
  lemma WrittenAs(p: string, q: string, a: string, v: string)
    requires p != ""
    ensures Write(Start(Name(p, q), [Attr(Name("", a), v)]))
            == Tag("<" + (p + ":" + q) + (" " + a + "=\"" + v + "\"") + ">")
    ensures Write(Empty(Name("", q), [Attr(Name(p, a), v)]))
            == Tag("<" + q + (" " + (p + ":" + a) + "=\"" + v + "\"") + "/>")
    ensures Write(End(Name(p, q))) == Tag("</" + (p + ":" + q) + ">")
  {
    OneAttr(Attr(Name("", a), v));
    OneAttr(Attr(Name(p, a), v));
  }

  lemma OneAttr(a: Attr)
    ensures AttrsText([a]) == Quoted(Key(a.name), a.value)
  {
    assert [a][1..] == [] && AttrsText([]) == "" && Quoted(Key(a.name), a.value) + "" == Quoted(Key(a.name), a.value);
  }

  // ----- Reading

  predicate IsSpace(c: char) { c in " \t\r\n" }

  function SkipSpace(s: string): (r: string)
    ensures |r| <= |s|
  {
    if s != "" && IsSpace(s[0]) then SkipSpace(s[1..]) else s
  }

  function NameLength(s: string): (n: nat)
    ensures n <= |s|
  {
    if s == "" || s[0] in STOPS then 0 else 1 + NameLength(s[1..])
  }

  function Find(s: string, c: char): (i: Option<nat>)
    ensures i.Some? ==> i.value < |s| && s[i.value] == c && c !in s[..i.value]
    ensures i.None? ==> c !in s
  {
    if s == "" then None
    else if s[0] == c then Some(0)
    else
      var i := Find(s[1..], c);
      assert s == [s[0]] + s[1..];
      if i.None? then None
      else
        assert s[..i.value + 1] == [s[0]] + s[1..][..i.value];
        Some(i.value + 1)
  }

  /** An equals sign, and a value that ends at the next quote of its kind. */
  function ReadValue(s: string): (r: Option<(string, string)>)
    ensures r.Some? ==> |r.value.1| < |s|
  {
    var eq := SkipSpace(s);
    if eq == "" || eq[0] != '=' then None
    else
      var v := SkipSpace(eq[1..]);
      if v == "" || (v[0] != '"' && v[0] != '\'') then None
      else
        var i := Find(v[1..], v[0]);
        if i.None? then None else Some((v[1..][..i.value], v[1..][i.value + 1..]))
  }

  /** An attribute at the start of `s`. */
  function ReadAttr(s: string): (r: Option<(Attr, string)>)
    ensures r.Some? ==> |r.value.1| < |s|
  {
    var n := NameLength(s);
    if n == 0 then None
    else
      match ReadValue(s[n..])
      case None => None
      case Some((value, rest)) => Some((Attr(ReadName(s[..n]), value), rest))
  }

  datatype Inner = Inner(attrs: seq<Attr>, selfClosing: bool, rest: string)

  /** The attributes up to the end of a tag, each after white space, and what follows the tag. */
  function ReadAttrs(s: string): Option<Inner>
    decreases |s|
  {
    var t := SkipSpace(s);
    if t == "" then None
    else if t[0] == '>' then Some(Inner([], false, t[1..]))
    else if t[0] == '/' then (if |t| > 1 && t[1] == '>' then Some(Inner([], true, t[2..])) else None)
    else if |t| == |s| then None
    else
      match ReadAttr(t)
      case None => None
      case Some((a, rest)) =>
        match ReadAttrs(rest)
        case None => None
        case Some(inner) => Some(inner.(attrs := [a] + inner.attrs))
  }

  function ReadOpenTag(s: string): Option<(Event, string)>
  {
    var n := NameLength(s);
    if n == 0 then None
    else
      match ReadAttrs(s[n..])
      case None => None
      case Some(inner) =>
        var name := ReadName(s[..n]);
        Some((if inner.selfClosing then Empty(name, inner.attrs) else Start(name, inner.attrs), inner.rest))
  }

  function ReadEndTag(s: string): Option<(Event, string)>
  {
    var n := NameLength(s);
    var rest := SkipSpace(s[n..]);
    if n == 0 || rest == "" || rest[0] != '>' then None else Some((End(ReadName(s[..n])), rest[1..]))
  }

  /** The tag at the start of `s`, and what follows it; nothing if there is no tag. */
  function ReadTag(s: string): Option<(Event, string)>
  {
    if |s| < 2 || s[0] != '<' then None
    else if s[1] == '/' then ReadEndTag(s[2..])
    else ReadOpenTag(s[1..])
  }

  function ReadInk(ink: Ink): Option<Event>
  {
    match ink
    case Data(piece) => Some(Chars(piece))
    case Tag(text) =>
      match ReadTag(text)
      case None => None
      case Some((e, rest)) => if rest == "" then Some(e) else None
  }

  /** The events a tokenizer finds; nothing if some text is not exactly one tag. */
  function ReadAll(inks: seq<Ink>): Option<seq<Event>>
  {
    if inks == [] then Some([]) else
      match (ReadInk(inks[0]), ReadAll(inks[1..]))
      case (Some(e), Some(rest)) => Some([e] + rest)
      case _ => None
  }

  // ----- Names as the tokenizer gives them, and values without double quotes

  predicate NamedAttrs(attrs: seq<Attr>) { forall a :: a in attrs ==> NameLike(a.name) }

  predicate QuoteFreeAttrs(attrs: seq<Attr>) { forall a :: a in attrs ==> '"' !in a.value }

  predicate NamedEvent(e: Event)
  {
    match e
    case Start(name, attrs) => NameLike(name) && NamedAttrs(attrs)
    case Empty(name, attrs) => NameLike(name) && NamedAttrs(attrs)
    case End(name) => NameLike(name)
    case Chars(_) => true
  }

  predicate QuoteFreeEvent(e: Event)
  {
    match e
    case Start(_, attrs) => QuoteFreeAttrs(attrs)
    case Empty(_, attrs) => QuoteFreeAttrs(attrs)
    case _ => true
  }

  predicate AllNamed(events: seq<Event>) { forall i :: 0 <= i < |events| ==> NamedEvent(events[i]) }

  predicate AllQuoteFree(events: seq<Event>) { forall i :: 0 <= i < |events| ==> QuoteFreeEvent(events[i]) }

  // ----- Reading back what was written

  lemma {:induction false} NameEndsAtStop(key: string, rest: string)
    requires NameChars(key) && rest != "" && rest[0] in STOPS
    ensures NameLength(key + rest) == |key|
  {
    if key == "" {
      assert key + rest == rest;
    } else {
      assert (key + rest)[0] == key[0] && (key + rest)[1..] == key[1..] + rest;
      NameEndsAtStop(key[1..], rest);
    }
  }

  lemma {:induction false} FindFirst(value: string, rest: string, c: char)
    ensures c !in value ==> Find(value + [c] + rest, c) == Some(|value|)
    ensures Find(value + [c] + rest, c).Some?
  {
    var s := value + [c] + rest;
    assert s[|value|] == c;
  }

  lemma NothingSkipped(s: string)
    requires s != "" && !IsSpace(s[0])
    ensures SkipSpace(s) == s
  {
  }

  lemma ValueReadsBack(value: string, rest: string)
    ensures var r := ReadValue("=\"" + value + "\"" + rest);
            && r.Some?
            && ('"' !in value ==> r.value == (value, rest))
            && ('"' in value ==> r.value.0 != value)
  {
    var after := value + ['"'] + rest;
    var v := "\"" + after;
    FindFirst(value, rest, '"');
    hide Find, SkipSpace;
    assert "=\"" + value + "\"" + rest == "=" + v && ("=" + v)[1..] == v && v[1..] == after;
    NothingSkipped("=" + v);
    NothingSkipped(v);
    assert after[..|value|] == value && after[|value| + 1..] == rest;
  }

  /** A written attribute reads back exactly when its value holds no double quote. */
  lemma AttrReadsBack(key: string, value: string, rest: string)
    requires key != "" && NameChars(key)
    ensures var r := ReadAttr(Quoted(key, value)[1..] + rest);
            && r.Some?
            && ('"' !in value ==> r.value == (Attr(ReadName(key), value), rest))
            && ('"' in value ==> r.value.0.value != value)
  {
    var after := "=\"" + value + "\"" + rest;
    NameEndsAtStop(key, after);
    ValueReadsBack(value, rest);
    QuotedTail(key, value, rest);
    CutAfter(key, after);
    hide NameLength, NameChars, ReadName, ReadValue, Quoted;
  }

  lemma QuotedTail(key: string, value: string, rest: string)
    ensures Quoted(key, value)[1..] + rest == key + ("=\"" + value + "\"" + rest)
  {
  }

  lemma CutAfter(a: string, b: string)
    ensures (a + b)[|a|..] == b && (a + b)[..|a|] == a
  {
  }

  lemma ClosingRead(selfClosing: bool, rest: string)
    ensures ReadAttrs(Closing(selfClosing) + rest) == Some(Inner([], selfClosing, rest))
  {
    var s := Closing(selfClosing) + rest;
    assert SkipSpace(s) == s;
    assert s[|Closing(selfClosing)|..] == rest;
  }

  lemma AttrsStep(key: string, value: string, rest: string)
    requires key != "" && NameChars(key)
    ensures var r, first := ReadAttrs(Quoted(key, value) + rest), ReadAttr(Quoted(key, value)[1..] + rest);
            r == if first.None? || ReadAttrs(first.value.1).None? then None
                 else var inner := ReadAttrs(first.value.1).value; Some(inner.(attrs := [first.value.0] + inner.attrs))
  {
    var s := Quoted(key, value) + rest;
    var t := Quoted(key, value)[1..] + rest;
    assert s[0] == ' ' && s[1..] == t && t[0] == key[0];
    assert SkipSpace(s) == SkipSpace(t) == t;
    assert t[0] != '>' && t[0] != '/';
  }

  /** So do written attributes, up to the end of the tag. */
  lemma {:induction false} AttrsReadBack(attrs: seq<Attr>, selfClosing: bool, rest: string)
    requires NamedAttrs(attrs)
    ensures var r := ReadAttrs(AttrsText(attrs) + Closing(selfClosing) + rest);
            && (QuoteFreeAttrs(attrs) ==> r == Some(Inner(attrs, selfClosing, rest)))
            && (!QuoteFreeAttrs(attrs) ==> r.None? || r.value.attrs != attrs)
  {
    if attrs == [] {
      assert AttrsText(attrs) + Closing(selfClosing) + rest == Closing(selfClosing) + rest;
      ClosingRead(selfClosing, rest);
    } else {
      var a, tail := attrs[0], AttrsText(attrs[1..]) + Closing(selfClosing) + rest;
      assert attrs == [a] + attrs[1..] && a in attrs;
      assert AttrsText(attrs) + Closing(selfClosing) + rest == Quoted(Key(a.name), a.value) + tail;
      AttrsStep(Key(a.name), a.value, tail);
      AttrReadsBack(Key(a.name), a.value, tail);
      AttrsReadBack(attrs[1..], selfClosing, rest);
    }
  }

  lemma OpenTagReads(key: string, after: string)
    requires key != "" && NameChars(key) && after != "" && after[0] in STOPS
    ensures var inner := ReadAttrs(after);
            ReadOpenTag(key + after) ==
              if inner.None? then None
              else Some((if inner.value.selfClosing then Empty(ReadName(key), inner.value.attrs)
                         else Start(ReadName(key), inner.value.attrs), inner.value.rest))
  {
    var s := key + after;
    NameEndsAtStop(key, after);
    hide NameLength, NameChars, ReadName, ReadAttrs;
    assert s[..|key|] == key && s[|key|..] == after;
  }

  lemma EndTagReads(key: string, rest: string)
    requires key != "" && NameChars(key)
    ensures ReadTag(EndText(key) + rest) == Some((End(ReadName(key)), rest))
  {
    var s, after := EndText(key) + rest, ">" + rest;
    NameEndsAtStop(key, after);
    NothingSkipped(after);
    hide NameLength, NameChars, ReadName, SkipSpace;
    assert s[2..] == key + after;
    assert s[2..][..|key|] == key && s[2..][|key|..] == after && after[1..] == rest;
  }

  lemma OpenTagFound(key: string, attrs: string, selfClosing: bool, rest: string)
    requires key != "" && key[0] != '/'
    ensures ReadTag(TagText(key, attrs, selfClosing) + rest)
            == ReadOpenTag(key + (attrs + Closing(selfClosing) + rest))
  {
    hide ReadOpenTag, ReadEndTag, Closing;
    var s, t := TagText(key, attrs, selfClosing) + rest, key + (attrs + Closing(selfClosing) + rest);
    assert s == "<" + t && t[0] == key[0];
    assert s[1..] == t;
  }

  lemma AfterNameStops(attrs: seq<Attr>, selfClosing: bool, rest: string)
    ensures var s := AttrsText(attrs) + Closing(selfClosing) + rest; s != "" && s[0] in STOPS
  {
  }

  /** A written tag, whatever follows it, reads back exactly when no value in it holds a double quote. */
  lemma TagReadsBackExactlyWhen(e: Event, rest: string)
    requires NamedEvent(e) && !e.Chars?
    ensures ReadTag(Write(e).text + rest) == Some((e, rest)) <==> QuoteFreeEvent(e)
  {
    if e.End? {
      EndTagReads(Key(e.name), rest);
    } else {
      var key := Key(e.name);
      assert key[0] !in STOPS;
      AfterNameStops(e.attrs, e.Empty?, rest);
      hide ReadOpenTag, ReadAttrs, AttrsText, NameChars, QuoteFreeAttrs, Key, Closing, ReadTag, TagText, NamedAttrs;
      OpenTagFound(key, AttrsText(e.attrs), e.Empty?, rest);
      OpenTagReads(key, AttrsText(e.attrs) + Closing(e.Empty?) + rest);
      AttrsReadBack(e.attrs, e.Empty?, rest);
    }
  }

  lemma InkReadsBackExactlyWhen(e: Event)
    requires NamedEvent(e)
    ensures ReadInk(Write(e)) == Some(e) <==> QuoteFreeEvent(e)
  {
    if !e.Chars? {
      TagReadsBackExactlyWhen(e, "");
      assert Write(e).text + "" == Write(e).text;
    }
  }

  lemma WriteFirst(events: seq<Event>)
    requires events != []
    ensures WriteAll(events) == [Write(events[0])] + WriteAll(events[1..])
    ensures WriteAll(events)[1..] == WriteAll(events[1..])
  {
  }

  lemma WriteAppend(a: seq<Event>, b: seq<Event>)
    ensures WriteAll(a + b) == WriteAll(a) + WriteAll(b)
  {
  }

  lemma NamedCons(e: Event, rest: seq<Event>)
    ensures AllNamed([e] + rest) <==> NamedEvent(e) && AllNamed(rest)
    ensures AllQuoteFree([e] + rest) <==> QuoteFreeEvent(e) && AllQuoteFree(rest)
  {
    hide NamedEvent, QuoteFreeEvent;
    var all := [e] + rest;
    assert all[0] == e && forall i :: 0 <= i < |rest| ==> rest[i] == all[i + 1];
  }

  /** What was written reads back as it was meant exactly when no attribute value holds a double quote. */
  lemma {:induction false} ReadsBackExactlyWhen(events: seq<Event>)
    requires AllNamed(events)
    ensures ReadAll(WriteAll(events)) == Some(events) <==> AllQuoteFree(events)
  {
    hide ReadInk, Write, NamedEvent, QuoteFreeEvent, WriteAll, ReadAll;
    if events == [] {
      NothingReadsBack();
    } else {
      var e, rest := events[0], events[1..];
      assert events == [e] + rest;
      NamedCons(e, rest);
      hide AllNamed, AllQuoteFree;
      WriteFirst(events);
      InkReadsBackExactlyWhen(e);
      ReadsBackExactlyWhen(rest);
      ReadFirst(WriteAll(events), e, rest);
    }
  }

  lemma NothingReadsBack()
    ensures ReadAll(WriteAll([])) == Some([]) && AllQuoteFree([])
  {
  }

  lemma ReadFirst(inks: seq<Ink>, e: Event, rest: seq<Event>)
    requires inks != []
    ensures ReadAll(inks) == Some([e] + rest) <==> ReadInk(inks[0]) == Some(e) && ReadAll(inks[1..]) == Some(rest)
  {
    hide ReadInk;
    if ReadAll(inks) == Some([e] + rest) {
      var back := [ReadInk(inks[0]).value] + ReadAll(inks[1..]).value;
      assert back[0] == e && back[1..] == rest;
    }
  }

  lemma {:induction false} AttrsTextAppend(a: seq<Attr>, b: seq<Attr>)
    ensures AttrsText(a + b) == AttrsText(a) + AttrsText(b)
  {
    if a == [] {
      assert a + b == b;
    } else {
      assert (a + b)[1..] == a[1..] + b;
      AttrsTextAppend(a[1..], b);
    }
  }

  // ----- What a double quote does

  /** An attribute whose value holds a quote and something like an attribute is written like two attributes. */
  lemma WrittenLikeTwo(name: string, value: string, other: string, more: string)
    ensures Quoted(name, value + "\" " + other + "=\"" + more) == Quoted(name, value) + Quoted(other, more)
  {
  }

  /** An attribute whose value holds a double quote and then what looks like another attribute. */
  function Doubled(first: Attr, second: Attr): Attr
  {
    Attr(first.name, first.value + "\" " + Key(second.name) + "=\"" + second.value)
  }

  lemma DoubledText(first: Attr, second: Attr)
    ensures AttrsText([Doubled(first, second)]) == AttrsText([first, second])
  {
    WrittenLikeTwo(Key(first.name), first.value, Key(second.name), second.value);
    assert [Doubled(first, second)][1..] == [] && [first, second][1..] == [second] && [second][1..] == [];
    hide Quoted;
    assert AttrsText([second]) == Quoted(Key(second.name), second.value);
    assert AttrsText([Doubled(first, second)]) == Quoted(Key(first.name), Doubled(first, second).value);
  }

  // ----- The same for trees

  predicate NamedTree(f: Forest)
  {
    match f
    case Nil => true
    case Elem(name, attrs, kids, next) => NameLike(name) && NamedAttrs(attrs) && NamedTree(kids) && NamedTree(next)
    case SelfClosed(name, attrs, next) => NameLike(name) && NamedAttrs(attrs) && NamedTree(next)
    case Leaf(_, next) => NamedTree(next)
  }

  predicate QuoteFreeTree(f: Forest)
  {
    match f
    case Nil => true
    case Elem(_, attrs, kids, next) => QuoteFreeAttrs(attrs) && QuoteFreeTree(kids) && QuoteFreeTree(next)
    case SelfClosed(_, attrs, next) => QuoteFreeAttrs(attrs) && QuoteFreeTree(next)
    case Leaf(_, next) => QuoteFreeTree(next)
  }

  lemma {:induction false} EventsNamed(f: Forest, rest: seq<Event>)
    ensures AllNamed(EventsThen(f, rest)) <==> NamedTree(f) && AllNamed(rest)
    ensures AllQuoteFree(EventsThen(f, rest)) <==> QuoteFreeTree(f) && AllQuoteFree(rest)
  {
    hide AllNamed, AllQuoteFree, NameLike, NamedAttrs, QuoteFreeAttrs;
    match f
    case Nil =>
    case Elem(name, attrs, kids, next) =>
      var after := EventsThen(next, rest);
      NamedCons(Start(name, attrs), EventsThen(kids, [End(name)] + after));
      EventsNamed(kids, [End(name)] + after);
      NamedCons(End(name), after);
      EventsNamed(next, rest);
    case SelfClosed(name, attrs, next) =>
      NamedCons(Empty(name, attrs), EventsThen(next, rest));
      EventsNamed(next, rest);
    case Leaf(piece, next) =>
      NamedCons(Chars(piece), EventsThen(next, rest));
      EventsNamed(next, rest);
  }

  /** A tree written out reads back as it is exactly when no attribute value in it holds a double quote. */
  lemma TreeReadsBackExactlyWhen(f: Forest)
    requires NamedTree(f)
    ensures ReadAll(WriteAll(Events(f))) == Some(Events(f)) <==> QuoteFreeTree(f)
  {
    EventsNamed(f, []);
    ReadsBackExactlyWhen(Events(f));
  }
}
