/** Masking text and attributes at given paths (apply_masks in crossref/src/normalize.rs). */
module Masks {
  import opened Wrappers
  import opened Xml
  import opened Ordering
  import opened Tags
  import opened Filters

  const SENTINEL := "__MASKED__"

  /** Drops one attribute, by its written name, from the elements at one path. */
  datatype AttrRule = AttrRule(path: Path, attr: string)

  datatype Rules = Rules(text: seq<Path>, attrs: seq<AttrRule>)

  predicate Dropped(rules: Rules, path: Path, name: Name) { AttrRule(path, Key(name)) in rules.attrs }

  /** The attributes an element keeps, keyed by their written names. */
  function KeptAttrs(rules: Rules, path: Path, attrs: seq<Attr>): seq<Entry>
  {
    if attrs == [] then [] else
      (if Dropped(rules, path, attrs[0].name) then [] else [Entry(Key(attrs[0].name), attrs[0].value)])
      + KeptAttrs(rules, path, attrs[1..])
  }

  function ToAttrs(entries: seq<Entry>): seq<Attr>
  {
    seq(|entries|, i requires 0 <= i < |entries| => Attr(ReadName(entries[i].key), entries[i].value))
  }

  /** The attributes as written out: those kept, in key order. */
  function MaskedAttrs(rules: Rules, path: Path, attrs: seq<Attr>): seq<Attr>
  {
    ToAttrs(Sorted(KeptAttrs(rules, path, attrs)))
  }

  lemma KeptHead(rules: Rules, path: Path, attrs: seq<Attr>, i: nat)
    requires i < |attrs|
    ensures KeptAttrs(rules, path, attrs[i..]) ==
            (if Dropped(rules, path, attrs[i].name) then [] else [Entry(Key(attrs[i].name), attrs[i].value)])
            + KeptAttrs(rules, path, attrs[i + 1..])
    ensures KeptAttrs(rules, path, []) == []
  {
    assert attrs[i..][1..] == attrs[i + 1..];
  }

  method WriteMaskedAttrs(rules: Rules, path: Path, attrs: seq<Attr>) returns (masked: seq<Attr>)
    ensures masked == MaskedAttrs(rules, path, attrs)
  {
    var kept: seq<Entry> := [];
    assert attrs[0..] == attrs && attrs[|attrs|..] == [];
    assert KeptAttrs(rules, path, []) == [];
    hide KeptAttrs, Dropped, Key, Sorted, ToAttrs;
    for i := 0 to |attrs|
      invariant kept + KeptAttrs(rules, path, attrs[i..]) == KeptAttrs(rules, path, attrs)
    {
      KeptHead(rules, path, attrs, i);
      if !Dropped(rules, path, attrs[i].name) {
        kept := kept + [Entry(Key(attrs[i].name), attrs[i].value)];
      }
    }
    assert kept + [] == kept;
    masked := ToAttrs(Sorted(kept));
  }

  // ----- The loop

  datatype Masking = Masking(stack: Path, sentinelWritten: bool)

  predicate IsText(piece: Piece) { piece.Text? || piece.CData? }

  function MaskState(rules: Rules, s: Masking, e: Event): Masking
  {
    match e
    case Start(name, _) => Masking(s.stack + [name.local], false)
    case Empty(_, _) => Masking(s.stack, false)
    case End(_) => Masking(Pop(s.stack), false)
    case Chars(piece) => if IsText(piece) && Matches(rules.text, s.stack) then Masking(s.stack, true) else s
  }

  function MaskWrites(rules: Rules, s: Masking, e: Event): seq<Event>
  {
    match e
    case Start(name, attrs) => [Start(name, MaskedAttrs(rules, s.stack + [name.local], attrs))]
    case Empty(name, attrs) => [Empty(name, MaskedAttrs(rules, s.stack + [name.local], attrs))]
    case End(_) => [e]
    case Chars(piece) =>
      if piece.Misc? || !Matches(rules.text, s.stack) then [e]
      else if IsText(piece) && !s.sentinelWritten then [Chars(Text(SENTINEL))]
      else []
  }

  function MaskFrom(rules: Rules, events: seq<Event>, s: Masking): seq<Event>
  {
    if events == [] then [] else
      MaskWrites(rules, s, events[0]) + MaskFrom(rules, events[1..], MaskState(rules, s, events[0]))
  }

  lemma MaskHead(rules: Rules, events: seq<Event>, i: nat, s: Masking)
    requires i < |events|
    ensures MaskFrom(rules, events[i..], s)
            == MaskWrites(rules, s, events[i]) + MaskFrom(rules, events[i + 1..], MaskState(rules, s, events[i]))
    ensures MaskFrom(rules, [], s) == []
  {
    assert events[i..][1..] == events[i + 1..];
  }

  lemma MaskStep(rules: Rules, events: seq<Event>, i: nat, s: Masking, wrote: seq<Event>)
    requires i < |events|
    ensures wrote + MaskWrites(rules, s, events[i]) + MaskFrom(rules, events[i + 1..], MaskState(rules, s, events[i]))
            == wrote + MaskFrom(rules, events[i..], s)
  {
    hide MaskWrites, MaskState;
    MaskHead(rules, events, i, s);
  }

  /** What is written; attribute values as they are, between double quotes. */
  function MaskedText(rules: Rules, events: seq<Event>): seq<Ink>
  {
    WriteAll(MaskFrom(rules, events, Masking([], false)))
  }

  method ApplyMasks(events: seq<Event>, rules: Rules) returns (text: seq<Ink>)
    ensures text == MaskedText(rules, events)
  {
    hide MaskFrom, MaskedAttrs, Matches;
    var out: seq<Event> := [];
    var stack: Path, sentinelWritten := [], false;
    assert events[0..] == events;
    for i := 0 to |events|
      invariant out + MaskFrom(rules, events[i..], Masking(stack, sentinelWritten))
             == MaskFrom(rules, events, Masking([], false))
    {
      ghost var before, wrote := Masking(stack, sentinelWritten), out;
      match events[i] {
        case Start(name, attrs) =>
          stack := stack + [name.local];
          var masked := WriteMaskedAttrs(rules, stack, attrs);
          out := out + [Start(name, masked)];
          sentinelWritten := false;
        case Empty(name, attrs) =>
          stack := stack + [name.local];
          var masked := WriteMaskedAttrs(rules, stack, attrs);
          out := out + [Empty(name, masked)];
          assert stack[..|stack| - 1] == before.stack;
          stack := stack[..|stack| - 1];
          sentinelWritten := false;
        case End(_) =>
          out := out + [events[i]];
          stack := Pop(stack);
          sentinelWritten := false;
        case Chars(piece) =>
          match piece {
            case Misc(_) =>
              out := out + [events[i]];
            case GeneralRef(_) =>
              if !Matches(rules.text, stack) {
                out := out + [events[i]];
              }
            case _ =>
              if Matches(rules.text, stack) {
                if !sentinelWritten {
                  out := out + [Chars(Text(SENTINEL))];
                  sentinelWritten := true;
                }
              } else {
                out := out + [events[i]];
              }
          }
      }
      assert out == wrote + MaskWrites(rules, before, events[i]);
      assert Masking(stack, sentinelWritten) == MaskState(rules, before, events[i]);
      MaskStep(rules, events, i, before, wrote);
    }
    assert events[|events|..] == [];
    NothingMasked(rules, Masking(stack, sentinelWritten));
    assert out + [] == out;
    text := WriteAll(out);
  }

  lemma NothingMasked(rules: Rules, s: Masking)
    ensures MaskFrom(rules, [], s) == []
  {
  }

  // ----- On trees

  /** A tree with masked runs replaced by one sentinel, and masked attributes gone. */
  function MaskTree(rules: Rules, f: Forest, path: Path, written: bool): Forest
  {
    match f
    case Nil => Nil
    case Elem(name, attrs, kids, next) =>
      var inner := path + [name.local];
      Elem(name, MaskedAttrs(rules, inner, attrs), MaskTree(rules, kids, inner, false),
           MaskTree(rules, next, path, false))
    case SelfClosed(name, attrs, next) =>
      SelfClosed(name, MaskedAttrs(rules, path + [name.local], attrs), MaskTree(rules, next, path, false))
    case Leaf(piece, next) =>
      if piece.Misc? || !Matches(rules.text, path) then Leaf(piece, MaskTree(rules, next, path, written))
      else if !IsText(piece) then MaskTree(rules, next, path, written)
      else if written then MaskTree(rules, next, path, true)
      else Leaf(Text(SENTINEL), MaskTree(rules, next, path, true))
  }

  /** The flag after the last event of a forest. */
  function FlagAfter(rules: Rules, f: Forest, path: Path, written: bool): bool
  {
    match f
    case Nil => written
    case Elem(_, _, _, next) => FlagAfter(rules, next, path, false)
    case SelfClosed(_, _, next) => FlagAfter(rules, next, path, false)
    case Leaf(piece, next) => FlagAfter(rules, next, path, written || (IsText(piece) && Matches(rules.text, path)))
  }

  /** On any well-formed stream the loop masks the tree. */
  lemma {:induction false} MaskIsTree(rules: Rules, f: Forest, rest: seq<Event>, path: Path, written: bool)
    ensures MaskFrom(rules, EventsThen(f, rest), Masking(path, written))
            == EventsThen(MaskTree(rules, f, path, written),
                          MaskFrom(rules, rest, Masking(path, FlagAfter(rules, f, path, written))))
  {
    hide MaskedAttrs, Matches;
    match f
    case Nil =>
    case Elem(name, _, kids, next) =>
      var inner, tail := path + [name.local], [End(name)] + EventsThen(next, rest);
      assert tail[1..] == EventsThen(next, rest) && Pop(inner) == path;
      MaskIsTree(rules, kids, tail, inner, false);
      MaskIsTree(rules, next, rest, path, false);
    case SelfClosed(_, _, next) => MaskIsTree(rules, next, rest, path, false);
    case Leaf(piece, next) =>
      MaskIsTree(rules, next, rest, path, MaskState(rules, Masking(path, written), Chars(piece)).sentinelWritten);
  }

  // ----- What the output cannot hold

  /** Some rule names the attribute, as it is written, at this path. */
  predicate Names(rules: Rules, path: Path, name: Name)
  {
    exists r :: r in rules.attrs && r.path == path
                && r.attr == if name.prefix == "" then name.local else name.prefix + ":" + name.local
  }

  lemma DroppedIsNamed(rules: Rules, path: Path, name: Name)
    ensures Dropped(rules, path, name) <==> Names(rules, path, name)
  {
  }

  /** No two attributes an element keeps are written alike, and all are named as the tokenizer names them. */
  ghost predicate Readable(rules: Rules, path: Path, attrs: seq<Attr>)
  {
    DistinctKeys(KeptAttrs(rules, path, attrs)) && NamedAttrs(attrs)
  }

  ghost predicate AllReadable(rules: Rules, f: Forest, path: Path)
  {
    match f
    case Nil => true
    case Elem(name, attrs, kids, next) =>
      var inner := path + [name.local];
      && NameLike(name) && Readable(rules, inner, attrs)
      && AllReadable(rules, kids, inner) && AllReadable(rules, next, path)
    case SelfClosed(name, attrs, next) =>
      NameLike(name) && Readable(rules, path + [name.local], attrs) && AllReadable(rules, next, path)
    case Leaf(_, next) => AllReadable(rules, next, path)
  }

  predicate KeptQuoteFree(rules: Rules, path: Path, attrs: seq<Attr>)
  {
    forall a :: a in attrs && !Names(rules, path, a.name) ==> '"' !in a.value
  }

  /** No attribute value that is kept holds a double quote. */
  predicate AllKeptQuoteFree(rules: Rules, f: Forest, path: Path)
  {
    match f
    case Nil => true
    case Elem(name, attrs, kids, next) =>
      var inner := path + [name.local];
      && KeptQuoteFree(rules, inner, attrs)
      && AllKeptQuoteFree(rules, kids, inner) && AllKeptQuoteFree(rules, next, path)
    case SelfClosed(name, attrs, next) =>
      KeptQuoteFree(rules, path + [name.local], attrs) && AllKeptQuoteFree(rules, next, path)
    case Leaf(_, next) => AllKeptQuoteFree(rules, next, path)
  }

  /** Each entry kept was written from an attribute that no rule drops. */
  lemma {:induction false} KeptSource(rules: Rules, path: Path, attrs: seq<Attr>, e: Entry) returns (a: Attr)
    requires e in KeptAttrs(rules, path, attrs)
    ensures a in attrs && !Dropped(rules, path, a.name) && e == Entry(Key(a.name), a.value)
  {
    a := attrs[0];
    if Dropped(rules, path, a.name) || e != Entry(Key(a.name), a.value) {
      a := KeptSource(rules, path, attrs[1..], e);
    }
  }

  lemma {:induction false} KeptHas(rules: Rules, path: Path, attrs: seq<Attr>, a: Attr)
    requires a in attrs && !Dropped(rules, path, a.name)
    ensures Entry(Key(a.name), a.value) in KeptAttrs(rules, path, attrs)
  {
    if a != attrs[0] {
      KeptHas(rules, path, attrs[1..], a);
    }
  }

  lemma NameLikeBack(name: Name)
    requires NameLike(name)
    ensures ReadName(Key(name)) == name
  {
  }

  /** The attributes as written are those kept. */
  lemma MaskedAre(rules: Rules, path: Path, attrs: seq<Attr>, b: Attr)
    requires NamedAttrs(attrs)
    ensures b in MaskedAttrs(rules, path, attrs) <==> b in attrs && !Names(rules, path, b.name)
  {
    DroppedIsNamed(rules, path, b.name);
    hide NameLike, Key, ReadName, Dropped, Names;
    var kept := KeptAttrs(rules, path, attrs);
    var sorted := Sorted(kept);
    if b in MaskedAttrs(rules, path, attrs) {
      var i :| 0 <= i < |sorted| && b == Attr(ReadName(sorted[i].key), sorted[i].value);
      SortedMembers(kept, sorted[i]);
      var a := KeptSource(rules, path, attrs, sorted[i]);
      NameLikeBack(a.name);
    }
    if b in attrs && !Dropped(rules, path, b.name) {
      KeptHas(rules, path, attrs, b);
      SortedMembers(kept, Entry(Key(b.name), b.value));
      var i :| 0 <= i < |sorted| && sorted[i] == Entry(Key(b.name), b.value);
      NameLikeBack(b.name);
      assert MaskedAttrs(rules, path, attrs)[i] == b;
    }
  }

  lemma TagMasked(rules: Rules, path: Path, attrs: seq<Attr>)
    requires NamedAttrs(attrs)
    ensures NamedAttrs(MaskedAttrs(rules, path, attrs))
    ensures QuoteFreeAttrs(MaskedAttrs(rules, path, attrs)) <==> KeptQuoteFree(rules, path, attrs)
    ensures forall b :: b in MaskedAttrs(rules, path, attrs) ==> !Names(rules, path, b.name)
  {
    hide NameLike, MaskedAttrs, Names;
    forall b
      ensures b in MaskedAttrs(rules, path, attrs) <==> b in attrs && !Names(rules, path, b.name)
    {
      MaskedAre(rules, path, attrs, b);
    }
  }

  lemma {:induction false} MaskedTreeReads(rules: Rules, f: Forest, path: Path, written: bool)
    requires AllReadable(rules, f, path)
    ensures NamedTree(MaskTree(rules, f, path, written))
    ensures QuoteFreeTree(MaskTree(rules, f, path, written)) <==> AllKeptQuoteFree(rules, f, path)
  {
    hide MaskedAttrs, NameLike, NamedAttrs, QuoteFreeAttrs, KeptQuoteFree, Matches;
    match f
    case Nil =>
    case Elem(name, attrs, kids, next) =>
      var inner := path + [name.local];
      TagMasked(rules, inner, attrs);
      MaskedTreeReads(rules, kids, inner, false);
      MaskedTreeReads(rules, next, path, false);
    case SelfClosed(name, attrs, next) =>
      TagMasked(rules, path + [name.local], attrs);
      MaskedTreeReads(rules, next, path, false);
    case Leaf(_, next) =>
      MaskedTreeReads(rules, next, path, written);
      MaskedTreeReads(rules, next, path, true);
  }

  /** The output reads back as the masked tree exactly when no attribute value that is kept holds a double quote. */
  lemma MaskedOutputReadsBackExactlyWhen(rules: Rules, f: Forest)
    requires AllReadable(rules, f, [])
    ensures ReadAll(MaskedText(rules, Events(f))) == Some(Events(MaskTree(rules, f, [], false)))
            <==> AllKeptQuoteFree(rules, f, [])
  {
    MaskIsTree(rules, f, [], [], false);
    MaskedTreeReads(rules, f, [], false);
    hide MaskTree, AllReadable, AllKeptQuoteFree, NamedTree, QuoteFreeTree, ReadAll;
    TreeReadsBackExactlyWhen(MaskTree(rules, f, [], false));
  }

  /** No dropped attribute is left, and nothing but the sentinel of the character data at masked paths. */
  predicate NothingLeaks(rules: Rules, f: Forest, path: Path)
  {
    match f
    case Nil => true
    case Elem(name, attrs, kids, next) =>
      var inner := path + [name.local];
      && (forall a :: a in attrs ==> !Names(rules, inner, a.name))
      && NothingLeaks(rules, kids, inner) && NothingLeaks(rules, next, path)
    case SelfClosed(name, attrs, next) =>
      && (forall a :: a in attrs ==> !Names(rules, path + [name.local], a.name))
      && NothingLeaks(rules, next, path)
    case Leaf(piece, next) =>
      && (path in rules.text ==> piece == Text("__MASKED__") || piece.Misc?)
      && NothingLeaks(rules, next, path)
  }

  lemma {:induction false} MaskedTreeNeverLeaks(rules: Rules, f: Forest, path: Path, written: bool)
    requires AllReadable(rules, f, path)
    ensures NothingLeaks(rules, MaskTree(rules, f, path, written), path)
  {
    hide MaskedAttrs, Names, DistinctKeys, NameLike, NamedAttrs;
    match f
    case Nil =>
    case Elem(name, attrs, kids, next) =>
      var inner := path + [name.local];
      TagMasked(rules, inner, attrs);
      MaskedTreeNeverLeaks(rules, kids, inner, false);
      MaskedTreeNeverLeaks(rules, next, path, false);
    case SelfClosed(name, attrs, next) =>
      var inner := path + [name.local];
      TagMasked(rules, inner, attrs);
      MaskedTreeNeverLeaks(rules, next, path, false);
    case Leaf(_, next) =>
      MaskedTreeNeverLeaks(rules, next, path, written);
      MaskedTreeNeverLeaks(rules, next, path, true);
  }

  /** Where no kept attribute value holds a double quote, the output is that of a tree in which nothing leaks. */
  lemma MaskedOutputNeverLeaks(rules: Rules, f: Forest) returns (g: Forest)
    requires AllReadable(rules, f, []) && AllKeptQuoteFree(rules, f, [])
    ensures ReadAll(MaskedText(rules, Events(f))) == Some(Events(g)) && NothingLeaks(rules, g, [])
  {
    g := MaskTree(rules, f, [], false);
    MaskedOutputReadsBackExactlyWhen(rules, f);
    MaskedTreeNeverLeaks(rules, f, [], false);
  }

  // ----- Documents that differ only where they are masked

  function Size(f: Forest): nat
  {
    match f
    case Nil => 0
    case Elem(_, _, kids, next) => 1 + Size(kids) + Size(next)
    case SelfClosed(_, _, next) => 1 + Size(next)
    case Leaf(_, next) => 1 + Size(next)
  }

  /** What follows the character data at the front of a forest. */
  function AfterRun(f: Forest): (r: Forest)
    ensures Size(r) <= Size(f) && !r.Leaf?
  {
    if f.Leaf? then AfterRun(f.next) else f
  }

  /**
    What masking leaves of the run at the front of a forest: its comments and PIs, and the sentinel where text or
    CDATA first appears.
   */
  function RunLeft(f: Forest, written: bool): seq<Piece>
  {
    if !f.Leaf? then []
    else if f.piece.Misc? then [f.piece] + RunLeft(f.next, written)
    else if (f.piece.Text? || f.piece.CData?) && !written then [Text("__MASKED__")] + RunLeft(f.next, true)
    else RunLeft(f.next, written)
  }

  predicate Keeps(rules: Rules, path: Path, attrs: seq<Attr>, x: Attr) { x in attrs && !Names(rules, path, x.name) }

  /** Two tags that keep the same attributes, in whatever order they were written. */
  ghost predicate SameKept(rules: Rules, path: Path, a: seq<Attr>, b: seq<Attr>)
  {
    forall x :: Keeps(rules, path, a, x) <==> Keeps(rules, path, b, x)
  }

  /**
    Equal but for dropped attributes, attribute order, and the runs of character data at masked paths; of those, only
    the comments and PIs count, and where among them text or CDATA first appears, if any does.
   */
  ghost predicate DifferOnlyInMasks(rules: Rules, f: Forest, g: Forest, path: Path)
    decreases Size(f), 1
  {
    if path in rules.text then
      RunLeft(f, false) == RunLeft(g, false) && SameTags(rules, AfterRun(f), AfterRun(g), path)
    else if f.Leaf? then
      g.Leaf? && f.piece == g.piece && DifferOnlyInMasks(rules, f.next, g.next, path)
    else SameTags(rules, f, g, path)
  }

  /** The same for forests that start with a tag, or are empty. */
  ghost predicate SameTags(rules: Rules, f: Forest, g: Forest, path: Path)
    requires !f.Leaf?
    decreases Size(f), 0
  {
    match f
    case Nil => g.Nil?
    case Leaf(_, _) => false
    case Elem(name, attrs, kids, next) =>
      var inner := path + [name.local];
      && g.Elem? && g.name == name && SameKept(rules, inner, attrs, g.attrs)
      && DifferOnlyInMasks(rules, kids, g.kids, inner) && DifferOnlyInMasks(rules, next, g.next, path)
    case SelfClosed(name, attrs, next) =>
      && g.SelfClosed? && g.name == name && SameKept(rules, path + [name.local], attrs, g.attrs)
      && DifferOnlyInMasks(rules, next, g.next, path)
  }



  lemma KeptAmong(rules: Rules, path: Path, a: seq<Attr>, b: seq<Attr>)
    requires SameKept(rules, path, a, b)
    ensures forall e :: e in KeptAttrs(rules, path, a) ==> e in KeptAttrs(rules, path, b)
  {
    hide KeptAttrs, Dropped, Names;
    forall e | e in KeptAttrs(rules, path, a) ensures e in KeptAttrs(rules, path, b) {
      var x := KeptSource(rules, path, a, e);
      DroppedIsNamed(rules, path, x.name);
      assert Keeps(rules, path, a, x);
      KeptHas(rules, path, b, x);
    }
  }

  lemma SameKeptExactlyWhen(rules: Rules, path: Path, a: seq<Attr>, b: seq<Attr>)
    requires Readable(rules, path, a) && Readable(rules, path, b)
    ensures MaskedAttrs(rules, path, a) == MaskedAttrs(rules, path, b) <==> SameKept(rules, path, a, b)
  {
    if SameKept(rules, path, a, b) {
      SameKeptSameMasked(rules, path, a, b);
    }
    hide KeptAttrs, Names, MaskedAttrs, DistinctKeys, NameLike, Keeps;
    if MaskedAttrs(rules, path, a) == MaskedAttrs(rules, path, b) {
      forall x ensures Keeps(rules, path, a, x) <==> Keeps(rules, path, b, x) {
        MaskedAre(rules, path, a, x);
        MaskedAre(rules, path, b, x);
        KeepsIs(rules, path, a, x);
        KeepsIs(rules, path, b, x);
      }
    }
  }

  lemma KeepsIs(rules: Rules, path: Path, attrs: seq<Attr>, x: Attr)
    ensures Keeps(rules, path, attrs, x) <==> x in attrs && !Names(rules, path, x.name)
  {
  }

  lemma SameKeptSameMasked(rules: Rules, path: Path, a: seq<Attr>, b: seq<Attr>)
    requires Readable(rules, path, a) && Readable(rules, path, b) && SameKept(rules, path, a, b)
    ensures MaskedAttrs(rules, path, a) == MaskedAttrs(rules, path, b)
  {
    SortedEqualExactlyWhen(KeptAttrs(rules, path, a), KeptAttrs(rules, path, b));
    hide KeptAttrs, Names, Keeps;
    KeptAmong(rules, path, a, b);
    KeptAmong(rules, path, b, a);
    hide ToAttrs, Sorted;
  }

  function Prepend(pieces: seq<Piece>, f: Forest): Forest
  {
    if pieces == [] then f else Leaf(pieces[0], Prepend(pieces[1..], f))
  }

  lemma PrependOne(piece: Piece, pieces: seq<Piece>, f: Forest)
    ensures Prepend([piece] + pieces, f) == Leaf(piece, Prepend(pieces, f))
  {
    assert ([piece] + pieces)[1..] == pieces;
  }

  lemma {:induction false} MaskedRun(rules: Rules, f: Forest, path: Path, written: bool)
    requires Matches(rules.text, path)
    ensures MaskTree(rules, f, path, written)
            == Prepend(RunLeft(f, written), MaskTree(rules, AfterRun(f), path, false))
  {
    hide Matches, MaskedAttrs;
    var rest := MaskTree(rules, AfterRun(f), path, false);
    if !f.Leaf? {
    } else if f.piece.Misc? {
      MaskedRun(rules, f.next, path, written);
      PrependOne(f.piece, RunLeft(f.next, written), rest);
    } else if IsText(f.piece) && !written {
      MaskedRun(rules, f.next, path, true);
      PrependOne(Text(SENTINEL), RunLeft(f.next, true), rest);
    } else {
      MaskedRun(rules, f.next, path, written);
    }
  }

  lemma {:induction false} PrependExactlyWhen(p: seq<Piece>, q: seq<Piece>, f: Forest, g: Forest)
    requires !f.Leaf? && !g.Leaf?
    ensures Prepend(p, f) == Prepend(q, g) <==> p == q && f == g
  {
    if p != [] && q != [] {
      PrependExactlyWhen(p[1..], q[1..], f, g);
      assert p == [p[0]] + p[1..] && q == [q[0]] + q[1..];
    }
  }

  lemma {:induction false} UnmaskedFlag(rules: Rules, f: Forest, path: Path, w: bool)
    requires !Matches(rules.text, path)
    ensures MaskTree(rules, f, path, w) == MaskTree(rules, f, path, false)
  {
    if f.Leaf? {
      UnmaskedFlag(rules, f.next, path, w);
    }
  }

  lemma {:induction false} ReadableAfterRun(rules: Rules, f: Forest, path: Path)
    requires AllReadable(rules, f, path)
    ensures AllReadable(rules, AfterRun(f), path)
  {
    if f.Leaf? {
      ReadableAfterRun(rules, f.next, path);
    }
  }

  lemma {:induction false} MaskedTreesEqualExactlyWhen(rules: Rules, f: Forest, g: Forest, path: Path)
    requires AllReadable(rules, f, path) && AllReadable(rules, g, path)
    ensures MaskTree(rules, f, path, false) == MaskTree(rules, g, path, false) <==> DifferOnlyInMasks(rules, f, g, path)
    decreases Size(f), 1
  {
    hide MaskedAttrs, Readable, SameKept;
    if Matches(rules.text, path) {
      MaskedRun(rules, f, path, false);
      MaskedRun(rules, g, path, false);
      ReadableAfterRun(rules, f, path);
      ReadableAfterRun(rules, g, path);
      var f', g' := MaskTree(rules, AfterRun(f), path, false), MaskTree(rules, AfterRun(g), path, false);
      PrependExactlyWhen(RunLeft(f, false), RunLeft(g, false), f', g');
      MaskedTagsEqualExactlyWhen(rules, AfterRun(f), AfterRun(g), path);
    } else if f.Leaf? {
      if g.Leaf? {
        MaskedTreesEqualExactlyWhen(rules, f.next, g.next, path);
      }
    } else {
      MaskedTagsEqualExactlyWhen(rules, f, g, path);
    }
  }

  lemma {:induction false} MaskedTagsEqualExactlyWhen(rules: Rules, f: Forest, g: Forest, path: Path)
    requires !f.Leaf? && AllReadable(rules, f, path) && AllReadable(rules, g, path)
    requires g.Leaf? ==> !Matches(rules.text, path)
    ensures MaskTree(rules, f, path, false) == MaskTree(rules, g, path, false) <==> SameTags(rules, f, g, path)
    decreases Size(f), 0
  {
    hide MaskedAttrs, Readable, SameKept;
    if f.Elem? && g.Elem? && f.name == g.name {
      SameKeptExactlyWhen(rules, path + [f.name.local], f.attrs, g.attrs);
      MaskedTreesEqualExactlyWhen(rules, f.kids, g.kids, path + [f.name.local]);
      MaskedTreesEqualExactlyWhen(rules, f.next, g.next, path);
    } else if f.SelfClosed? && g.SelfClosed? && f.name == g.name {
      SameKeptExactlyWhen(rules, path + [f.name.local], f.attrs, g.attrs);
      MaskedTreesEqualExactlyWhen(rules, f.next, g.next, path);
    }
  }

  /**
    Two documents, with no double quote in the values that are kept, give the same output exactly when they differ only
    where they are masked.
   */
  lemma MaskedOutputsEqualExactlyWhen(rules: Rules, f: Forest, g: Forest)
    requires AllReadable(rules, f, []) && AllReadable(rules, g, [])
    requires AllKeptQuoteFree(rules, f, []) && AllKeptQuoteFree(rules, g, [])
    ensures MaskedText(rules, Events(f)) == MaskedText(rules, Events(g)) <==> DifferOnlyInMasks(rules, f, g, [])
  {
    MaskedOutputReadsBackExactlyWhen(rules, f);
    MaskedOutputReadsBackExactlyWhen(rules, g);
    MaskedTreesEqualExactlyWhen(rules, f, g, []);
    MaskIsTree(rules, f, [], [], false);
    MaskIsTree(rules, g, [], [], false);
    hide MaskTree, DifferOnlyInMasks, AllReadable, AllKeptQuoteFree, ReadAll, WriteAll;
    var f', g' := MaskTree(rules, f, [], false), MaskTree(rules, g, [], false);
    if MaskedText(rules, Events(f)) == MaskedText(rules, Events(g)) {
      EventsThenInjective(f', g', [], []);
    }
  }

  // ----- What a double quote does

  /** A lone element whose one attribute is written like two. */
  function Deceiving(name: Name, a: Attr, b: Attr): Forest { SelfClosed(name, [Doubled(a, b)], Nil) }

  lemma KeptSingle(rules: Rules, path: Path, a: Attr)
    requires !Dropped(rules, path, a.name) && NameLike(a.name)
    ensures KeptAttrs(rules, path, [a]) == [Entry(Key(a.name), a.value)] && MaskedAttrs(rules, path, [a]) == [a]
  {
    var e := Entry(Key(a.name), a.value);
    assert [a][1..] == [] && [e][1..] == [];
    NameLikeBack(a.name);
    hide Key, ReadName, NameLike, Dropped;
    assert KeptAttrs(rules, path, [a]) == [e] && Sorted([e]) == [e];
  }

  lemma LoneEvents(name: Name, attrs: seq<Attr>)
    ensures Events(SelfClosed(name, attrs, Nil)) == [Empty(name, attrs)]
  {
    assert EventsThen(Nil, []) == [];
  }

  lemma LoneMasked(rules: Rules, name: Name, attrs: seq<Attr>)
    ensures MaskedText(rules, Events(SelfClosed(name, attrs, Nil)))
            == [Write(Empty(name, MaskedAttrs(rules, [name.local], attrs)))]
  {
    LoneEvents(name, attrs);
    hide MaskedAttrs, Write, Events;
    var events, s := [Empty(name, attrs)], Masking([], false);
    assert events[1..] == [] && [] + [name.local] == [name.local];
    NothingMasked(rules, MaskState(rules, s, events[0]));
    var masked := [Empty(name, MaskedAttrs(rules, [name.local], attrs))];
    assert MaskFrom(rules, events, s) == masked + [] == masked;
  }

  lemma DeceivingText(rules: Rules, name: Name, a: Attr, b: Attr)
    requires !Dropped(rules, [name.local], a.name) && NameLike(a.name)
    ensures MaskedText(rules, Events(Deceiving(name, a, b))) == [Write(Empty(name, [a, b]))]
  {
    var d := Doubled(a, b);
    LoneMasked(rules, name, [d]);
    KeptSingle(rules, [name.local], d);
    DoubledText(a, b);
    hide MaskedAttrs, AttrsText, Doubled, NameLike, Dropped, TagText, MaskedText;
  }

  /** The condition on quotes is needed: from `<r a='x" b="y'/>` a rule that drops `b` does not drop it. */
  lemma QuotedValueLeaks(rules: Rules, name: Name, a: Attr, b: Attr)
    requires !Dropped(rules, [name.local], a.name) && Dropped(rules, [name.local], b.name)
    requires NameLike(name) && NameLike(a.name) && NameLike(b.name) && '"' !in a.value && '"' !in b.value
    ensures ReadAll(MaskedText(rules, Events(Deceiving(name, a, b)))) == Some(Events(SelfClosed(name, [a, b], Nil)))
    ensures !NothingLeaks(rules, SelfClosed(name, [a, b], Nil), [])
  {
    var g := SelfClosed(name, [a, b], Nil);
    DeceivingText(rules, name, a, b);
    LoneEvents(name, [a, b]);
    DroppedIsNamed(rules, [name.local], b.name);
    assert b in g.attrs && [] + [name.local] == [name.local];
    hide NameLike, ReadAll, Write, Dropped, MaskedText, Events, Names;
    assert WriteAll([Empty(name, [a, b])]) == [Write(Empty(name, [a, b]))];
    TreeReadsBackExactlyWhen(g);
  }

  /** And `<r a="x" b="y"/>`, which differs from it, comes out the same when both attributes are kept. */
  lemma QuotedValuesCollide(rules: Rules, name: Name, a: Attr, b: Attr)
    requires !Dropped(rules, [name.local], a.name) && !Dropped(rules, [name.local], b.name)
    requires NameLike(a.name) && NameLike(b.name) && Leq(Key(a.name), Key(b.name))
    ensures var f, g := Deceiving(name, a, b), SelfClosed(name, [a, b], Nil);
      MaskedText(rules, Events(f)) == MaskedText(rules, Events(g)) && !SameKept(rules, [name.local], f.attrs, g.attrs)
  {
    var path, d := [name.local], Doubled(a, b);
    DeceivingText(rules, name, a, b);
    LoneMasked(rules, name, [a, b]);
    KeptPair(rules, path, a, b);
    DroppedIsNamed(rules, path, a.name);
    assert d != a by { assert |d.value| > |a.value|; }
    hide KeptAttrs, MaskedText, MaskedAttrs, Doubled, NameLike, Leq, Write, Dropped, Names;
    assert Keeps(rules, path, [a, b], a) && !Keeps(rules, path, [d], a);
  }

  lemma KeptPair(rules: Rules, path: Path, a: Attr, b: Attr)
    requires !Dropped(rules, path, a.name) && !Dropped(rules, path, b.name) && NameLike(a.name) && NameLike(b.name)
    requires Leq(Key(a.name), Key(b.name))
    ensures KeptAttrs(rules, path, [a, b]) == [Entry(Key(a.name), a.value), Entry(Key(b.name), b.value)]
    ensures MaskedAttrs(rules, path, [a, b]) == [a, b]
  {
    var x, y := Entry(Key(a.name), a.value), Entry(Key(b.name), b.value);
    assert [a, b][1..] == [b] && [x, y][1..] == [y] && [y][1..] == [];
    KeptSingle(rules, path, b);
    NameLikeBack(a.name);
    NameLikeBack(b.name);
    hide Key, ReadName, NameLike, Dropped;
    assert Sorted([y]) == [y] && Sorted([x, y]) == [x, y];
  }
}
