/** XML as the tokenizer delivers it: a stream of events, and the trees well-formed streams come from. */
module Xml {

  /** A qualified name as written; the prefix is empty when there is no colon. */
  datatype Name = Name(prefix: string, local: string)

  /** An attribute, with its value exactly as written between the quotes. */
  datatype Attr = Attr(name: Name, value: string)

  /** Character data and everything else that is not a tag; `Misc` is a comment, PI or declaration. */
  datatype Piece = Text(text: string) | CData(text: string) | GeneralRef(entity: string) | Misc(text: string)

  datatype Event =
    | Start(name: Name, attrs: seq<Attr>)
    | Empty(name: Name, attrs: seq<Attr>)
    | End(name: Name)
    | Chars(piece: Piece)

  /** A sequence of sibling nodes, first child and next sibling. */
  datatype Forest =
    | Nil
    | Elem(name: Name, attrs: seq<Attr>, kids: Forest, next: Forest)
    | SelfClosed(name: Name, attrs: seq<Attr>, next: Forest)
    | Leaf(piece: Piece, next: Forest)

  /** The events of `f`, followed by `rest`. */
  function EventsThen(f: Forest, rest: seq<Event>): seq<Event>
  {
    match f
    case Nil => rest
    case Elem(name, attrs, kids, next) =>
      [Start(name, attrs)] + EventsThen(kids, [End(name)] + EventsThen(next, rest))
    case SelfClosed(name, attrs, next) => [Empty(name, attrs)] + EventsThen(next, rest)
    case Leaf(piece, next) => [Chars(piece)] + EventsThen(next, rest)
  }

  function Events(f: Forest): seq<Event> { EventsThen(f, []) }

  lemma {:induction false} EventsThenAppend(f: Forest, rest: seq<Event>)
    ensures EventsThen(f, rest) == Events(f) + rest
  {
    match f
    case Nil =>
    case Elem(name, attrs, kids, next) =>
      EventsThenAppend(next, rest);
      EventsThenAppend(kids, [End(name)] + EventsThen(next, rest));
      EventsThenAppend(kids, [End(name)] + Events(next));
    case SelfClosed(name, attrs, next) => EventsThenAppend(next, rest);
    case Leaf(piece, next) => EventsThenAppend(next, rest);
  }

  /** Different trees have different events. */
  lemma {:induction false} EventsThenInjective(f: Forest, g: Forest, r: seq<Event>, q: seq<Event>)
    requires EventsThen(f, r) == EventsThen(g, q)
    requires (r == [] || r[0].End?) && (q == [] || q[0].End?)
    ensures f == g && r == q
  {
    var whole := EventsThen(f, r);
    match f
    case Nil =>
      assert g.Nil?;
    case Elem(name, attrs, kids, next) =>
      assert whole[0] == Start(name, attrs);
      assert g.Elem?;
      var rest, rest' := [End(name)] + EventsThen(next, r), [End(g.name)] + EventsThen(g.next, q);
      assert whole[1..] == EventsThen(kids, rest) == EventsThen(g.kids, rest');
      EventsThenInjective(kids, g.kids, rest, rest');
      assert rest[1..] == EventsThen(next, r) && rest'[1..] == EventsThen(g.next, q);
      EventsThenInjective(next, g.next, r, q);
    case SelfClosed(name, attrs, next) =>
      assert whole[0] == Empty(name, attrs);
      assert g.SelfClosed?;
      assert whole[1..] == EventsThen(next, r) == EventsThen(g.next, q);
      EventsThenInjective(next, g.next, r, q);
    case Leaf(piece, next) =>
      assert whole[0] == Chars(piece);
      assert g.Leaf?;
      assert whole[1..] == EventsThen(next, r) == EventsThen(g.next, q);
      EventsThenInjective(next, g.next, r, q);
  }

  /** The value of the first attribute written exactly `local`, or the empty string. */
  function AttrOrEmpty(attrs: seq<Attr>, local: string): string
  {
    if attrs == [] then "" else
    if attrs[0].name == Name("", local) then attrs[0].value else AttrOrEmpty(attrs[1..], local)
  }
}
