/** Namespace scopes and name resolution (Namespaces in XML 1.0, sections 6.1 to 6.3), as NsReader applies them. */
module Namespaces {
  import opened Xml

  const XML_NS := "http://www.w3.org/XML/1998/namespace"

  /** Prefix to URI; the empty prefix is the default namespace, and an empty URI undeclares. */
  type Scope = map<string, string>

  /** The scope outside the document element. */
  const OUTERMOST: Scope := map["xml" := XML_NS]

  predicate IsDecl(name: Name) { name.prefix == "xmlns" || name == Name("", "xmlns") }

  /** The prefix an xmlns attribute declares. */
  function DeclPrefix(name: Name): string { if name.prefix == "xmlns" then name.local else "" }

  /** The xmlns attribute that declares `prefix`. */
  function DeclName(prefix: string): (name: Name)
    ensures IsDecl(name) && DeclPrefix(name) == prefix
  {
    if prefix == "" then Name("", "xmlns") else Name("xmlns", prefix)
  }

  /** The declarations among some attributes; a later one replaces an earlier one. */
  function Declared(attrs: seq<Attr>): Scope
  {
    if attrs == [] then map[] else
      var rest := Declared(attrs[1..]);
      if IsDecl(attrs[0].name) && DeclPrefix(attrs[0].name) !in rest
      then rest[DeclPrefix(attrs[0].name) := attrs[0].value] else rest
  }

  /** The scope inside an element with these attributes. */
  function Inside(scope: Scope, attrs: seq<Attr>): Scope { scope + Declared(attrs) }

  datatype Namespace = Bound(uri: string) | Unbound | Unknown(prefix: string)

  function ElementNs(scope: Scope, prefix: string): Namespace
  {
    if prefix in scope && scope[prefix] != "" then Bound(scope[prefix])
    else if prefix == "" then Unbound
    else Unknown(prefix)
  }

  /** Unprefixed attributes are in no namespace. */
  function AttributeNs(scope: Scope, prefix: string): Namespace
  {
    if prefix == "" then Unbound else ElementNs(scope, prefix)
  }

  datatype ExpandedName = ExpandedName(ns: Namespace, local: string)

  datatype ExpandedAttr = ExpandedAttr(name: ExpandedName, value: string)

  function ExpandAttrs(scope: Scope, attrs: seq<Attr>): seq<ExpandedAttr>
  {
    if attrs == [] then [] else
      var a := attrs[0];
      (if IsDecl(a.name) then []
       else [ExpandedAttr(ExpandedName(AttributeNs(scope, a.name.prefix), a.name.local), a.value)])
      + ExpandAttrs(scope, attrs[1..])
  }

  /** A forest with every name replaced by what it means, and the declarations gone. */
  datatype Expanded =
    | ENil
    | EElem(name: ExpandedName, attrs: seq<ExpandedAttr>, kids: Expanded, next: Expanded)
    | ESelfClosed(name: ExpandedName, attrs: seq<ExpandedAttr>, next: Expanded)
    | ELeaf(piece: Piece, next: Expanded)

  function Meaning(scope: Scope, f: Forest): Expanded
    decreases f
  {
    match f
    case Nil => ENil
    case Elem(name, attrs, kids, next) =>
      var inner := Inside(scope, attrs);
      EElem(ExpandedName(ElementNs(inner, name.prefix), name.local), ExpandAttrs(inner, attrs),
            Meaning(inner, kids), Meaning(scope, next))
    case SelfClosed(name, attrs, next) =>
      var inner := Inside(scope, attrs);
      ESelfClosed(ExpandedName(ElementNs(inner, name.prefix), name.local), ExpandAttrs(inner, attrs),
                  Meaning(scope, next))
    case Leaf(piece, next) => ELeaf(piece, Meaning(scope, next))
  }

  /** Well-formedness of a start tag: no two attributes of the same name, and no `xmlns:` without a prefix. */
  predicate WellFormedTag(attrs: seq<Attr>)
  {
    && (forall i, j :: 0 <= i < j < |attrs| ==> attrs[i].name != attrs[j].name)
    && (forall a :: a in attrs ==> a.name != Name("xmlns", ""))
  }

  lemma {:induction false} DeclaredAppend(a: seq<Attr>, b: seq<Attr>)
    ensures Declared(a + b) == Declared(a) + Declared(b)
  {
    if a == [] {
      assert a + b == b;
    } else {
      assert (a + b)[1..] == a[1..] + b;
      DeclaredAppend(a[1..], b);
    }
  }

  lemma {:induction false} ExpandAttrsAppend(scope: Scope, a: seq<Attr>, b: seq<Attr>)
    ensures ExpandAttrs(scope, a + b) == ExpandAttrs(scope, a) + ExpandAttrs(scope, b)
  {
    if a == [] {
      assert a + b == b;
    } else {
      assert (a + b)[1..] == a[1..] + b;
      ExpandAttrsAppend(scope, a[1..], b);
    }
  }

  /** A tag declares a prefix by the attribute `xmlns:prefix`, and the default namespace by `xmlns`. */
  lemma {:induction false} DeclaredIs(attrs: seq<Attr>, prefix: string, uri: string)
    requires WellFormedTag(attrs)
    ensures prefix in Declared(attrs) && Declared(attrs)[prefix] == uri <==>
            Attr(if prefix == "" then Name("", "xmlns") else Name("xmlns", prefix), uri) in attrs
  {
    if attrs != [] {
      var a, rest := attrs[0], attrs[1..];
      assert a in attrs && attrs == [a] + rest;
      assert WellFormedTag(rest) && forall x :: x in rest ==> x.name != a.name && x in attrs;
      DeclaredIs(rest, prefix, uri);
      DeclaredHas(rest, prefix);
    }
  }

  /** The nearest declaration decides; an empty URI undeclares, and unprefixed attributes are in no namespace. */
  lemma NearestDecides(scope: Scope, attrs: seq<Attr>, prefix: string)
    ensures var inside := ElementNs(Inside(scope, attrs), prefix);
      if prefix !in Declared(attrs) then inside == ElementNs(scope, prefix)
      else if Declared(attrs)[prefix] != "" then inside == Bound(Declared(attrs)[prefix])
      else inside == if prefix == "" then Unbound else Unknown(prefix)
    ensures ElementNs(OUTERMOST, prefix) ==
      if prefix == "xml" then Bound("http://www.w3.org/XML/1998/namespace")
      else if prefix == "" then Unbound else Unknown(prefix)
    ensures AttributeNs(scope, "") == Unbound
    ensures prefix != "" ==> AttributeNs(scope, prefix) == ElementNs(scope, prefix)
  {
    hide Declared;
  }

  /** A prefix is declared exactly when some attribute declares it. */
  lemma {:induction false} DeclaredHas(attrs: seq<Attr>, prefix: string)
    ensures prefix in Declared(attrs) <==>
            exists a :: a in attrs && IsDecl(a.name) && DeclPrefix(a.name) == prefix
  {
    if attrs != [] {
      DeclaredHas(attrs[1..], prefix);
      assert attrs == [attrs[0]] + attrs[1..];
      assert attrs[0] in attrs;
    }
  }
}
