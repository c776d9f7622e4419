/** The reader loops of src/envelope.rs, proved to compute the functions in module Envelope. */
module EnvelopeReader {
  import opened Wrappers
  import opened Xml
  import opened Namespaces
  import opened Tags
  import opened Envelope

  /** A cursor over the tokenizer's events. */
  class Reader {
    const events: seq<Event>
    var pos: nat

    constructor (events: seq<Event>)
      ensures Valid() && Remaining() == events
    {
      this.events, pos := events, 0;
    }

    predicate Valid()
      reads this
    {
      pos <= |events|
    }

    function Remaining(): seq<Event>
      requires Valid()
      reads this
    {
      events[pos..]
    }

    method Next() returns (e: Option<Event>)
      requires Valid()
      modifies this
      ensures Valid()
      ensures e.None? ==> old(Remaining()) == [] && Remaining() == []
      ensures e.Some? ==> old(Remaining()) != [] && e.value == old(Remaining())[0]
                          && Remaining() == old(Remaining())[1..]
    {
      if pos == |events| {
        return None;
      }
      e := Some(events[pos]);
      pos := pos + 1;
    }
  }

  /** collect_ns_from_attrs: the element's own declarations go in front of those already collected. */
  method CollectNsFromAttrs(attrs: seq<Attr>, bindings: seq<Binding>) returns (merged: seq<Binding>)
    ensures merged == Bindings(attrs) + bindings
  {
    merged := [];
    for i := 0 to |attrs|
      invariant merged + Bindings(attrs[i..]) == Bindings(attrs)
    {
      assert attrs[i..][1..] == attrs[i + 1..];
      if IsDecl(attrs[i].name) {
        merged := merged + [Binding(DeclPrefix(attrs[i].name), attrs[i].value)];
      }
    }
    merged := merged + bindings;
  }

  /** The attributes of a fragment's root: inherited declarations it does not override, then its own. */
  method EmitRootAttrs(bindings: seq<Binding>, attrs: seq<Attr>) returns (emitted: seq<Attr>)
    ensures emitted == RootAttrs(bindings, attrs)
  {
    var own: set<string> := {};
    for i := 0 to |attrs|
      invariant own == OwnPrefixes(attrs[..i])
    {
      assert attrs[..i + 1] == attrs[..i] + [attrs[i]];
      if IsDecl(attrs[i].name) {
        own := own + {DeclPrefix(attrs[i].name)};
      }
    }
    assert attrs[..|attrs|] == attrs;
    emitted := [];
    for i := 0 to |bindings|
      invariant emitted + Inherited(bindings[i..], own) == Inherited(bindings, own)
    {
      assert bindings[i..][1..] == bindings[i + 1..];
      if bindings[i].prefix !in own {
        emitted := emitted + [Attr(DeclName(bindings[i].prefix), bindings[i].uri)];
      }
    }
    emitted := emitted + attrs;
  }

  /** What copying yields when `buf` has been written already. */
  ghost function Prefixed(buf: seq<Event>, r: Result<Split<seq<Event>>, Fault>): Result<Split<seq<Event>>, Fault>
  {
    if r.Ok? then Ok(Split(buf + r.value.taken, r.value.rest)) else r
  }

  lemma PrefixedEmit(buf: seq<Event>, e: Event, r: Result<Split<seq<Event>>, Fault>)
    ensures Prefixed(buf, Emit(e, r)) == Prefixed(buf + [e], r)
    ensures Prefixed([], r) == r
  {
    if r.Ok? {
      assert buf + ([e] + r.value.taken) == (buf + [e]) + r.value.taken;
      assert [] + r.value.taken == r.value.taken;
    }
  }

  /** The inner loop shared by the header and body extractors: copy until the open element closes. */
  method CopyElement(reader: Reader) returns (r: Result<seq<Event>, Fault>)
    requires reader.Valid()
    modifies reader
    ensures reader.Valid()
    ensures var spec := CopyUntilClose(old(reader.Remaining()), 1);
            && (r.Ok? <==> spec.Ok?)
            && (r.Ok? ==> Ok(Split(r.value, reader.Remaining())) == spec)
            && (r.Err? ==> r.error == spec.error)
  {
    var buf: seq<Event>, depth: nat := [], 1;
    ghost var spec := CopyUntilClose(reader.Remaining(), 1);
    PrefixedEmit(buf, End(Name("", "")), spec);
    while true
      invariant reader.Valid() && depth >= 1
      invariant Prefixed(buf, CopyUntilClose(reader.Remaining(), depth)) == spec
      decreases |reader.Remaining()|
    {
      var e := reader.Next();
      if e.None? {
        return Err(EofInBodyChild);
      }
      match e.value {
        case Start(_, _) =>
          PrefixedEmit(buf, e.value, CopyUntilClose(reader.Remaining(), depth + 1));
          depth := depth + 1;
          buf := buf + [e.value];
        case Empty(_, _) =>
          PrefixedEmit(buf, e.value, CopyUntilClose(reader.Remaining(), depth));
          buf := buf + [e.value];
        case End(_) =>
          if depth > 1 {
            PrefixedEmit(buf, e.value, CopyUntilClose(reader.Remaining(), depth - 1));
          }
          depth := depth - 1;
          buf := buf + [e.value];
          if depth == 0 {
            return Ok(buf);
          }
        case Chars(piece) =>
          if piece.Text? || piece.GeneralRef? {
            PrefixedEmit(buf, e.value, CopyUntilClose(reader.Remaining(), depth));
            buf := buf + [e.value];
          }
      }
    }
  }

  /** What the header loop yields when `children` have been collected already. */
  ghost function After(children: seq<seq<Event>>, r: Result<Split<seq<seq<Event>>>, Fault>)
    : Result<Split<seq<seq<Event>>>, Fault>
  {
    if r.Ok? then Ok(Split(children + r.value.taken, r.value.rest)) else r
  }

  lemma AfterAdd(children: seq<seq<Event>>, child: seq<Event>, r: Result<Split<seq<seq<Event>>>, Fault>)
    ensures After(children, AddChild(child, r)) == After(children + [child], r)
    ensures After([], r) == r
  {
    if r.Ok? {
      assert children + ([child] + r.value.taken) == (children + [child]) + r.value.taken;
      assert [] + r.value.taken == r.value.taken;
    }
  }

  method CollectHeaderChildren(reader: Reader, bindings: seq<Binding>) returns (r: Result<seq<seq<Event>>, Fault>)
    requires reader.Valid()
    modifies reader
    ensures reader.Valid()
    ensures var spec := HeaderChildren(old(reader.Remaining()), bindings);
            && (r.Ok? <==> spec.Ok?)
            && (r.Ok? ==> Ok(Split(r.value, reader.Remaining())) == spec)
            && (r.Err? ==> r.error == spec.error)
  {
    var children: seq<seq<Event>> := [];
    ghost var spec := HeaderChildren(reader.Remaining(), bindings);
    AfterAdd(children, [], spec);
    while true
      invariant reader.Valid()
      invariant After(children, HeaderChildren(reader.Remaining(), bindings)) == spec
      decreases |reader.Remaining()|
    {
      var e := reader.Next();
      if e.None? {
        return Err(EofInHeader);
      }
      match e.value {
        case Start(name, attrs) =>
          var rootAttrs := EmitRootAttrs(bindings, attrs);
          var copied := CopyElement(reader);
          if copied.Err? {
            return Err(EofInHeader);
          }
          AfterAdd(children, [Start(name, rootAttrs)] + copied.value, HeaderChildren(reader.Remaining(), bindings));
          children := children + [[Start(name, rootAttrs)] + copied.value];
        case Empty(name, attrs) =>
          var rootAttrs := EmitRootAttrs(bindings, attrs);
          AfterAdd(children, [Empty(name, rootAttrs)], HeaderChildren(reader.Remaining(), bindings));
          children := children + [[Empty(name, rootAttrs)]];
        case End(_) =>
          assert children + [] == children;
          return Ok(children);
        case Chars(_) =>
      }
    }
  }

  method ExtractBodyFirstChild(reader: Reader, bindings: seq<Binding>) returns (r: Result<seq<Event>, Fault>)
    requires reader.Valid()
    modifies reader
    ensures reader.Valid()
    ensures var spec := BodyChild(old(reader.Remaining()), bindings);
            && (r.Ok? <==> spec.Ok?)
            && (r.Ok? ==> Ok(Split(r.value, reader.Remaining())) == spec)
            && (r.Err? ==> r.error == spec.error)
  {
    ghost var spec := BodyChild(reader.Remaining(), bindings);
    while true
      invariant reader.Valid()
      invariant BodyChild(reader.Remaining(), bindings) == spec
      decreases |reader.Remaining()|
    {
      var e := reader.Next();
      if e.None? {
        return Err(MissingBodyChild);
      }
      match e.value {
        case Start(name, attrs) =>
          var rootAttrs := EmitRootAttrs(bindings, attrs);
          var copied := CopyElement(reader);
          if copied.Err? {
            return Err(copied.error);
          }
          return Ok([Start(name, rootAttrs)] + copied.value);
        case Empty(name, attrs) =>
          var rootAttrs := EmitRootAttrs(bindings, attrs);
          return Ok([Empty(name, rootAttrs)]);
        case End(_) =>
          return Err(MissingBody);
        case Chars(_) =>
      }
    }
  }

  method SkipPastEnd(reader: Reader) returns (r: Result<(), Fault>)
    requires reader.Valid()
    modifies reader
    ensures reader.Valid()
    ensures var spec := SkipToEnd(old(reader.Remaining()), 1);
            && (r.Ok? <==> spec.Ok?)
            && (r.Ok? ==> Ok(reader.Remaining()) == spec)
            && (r.Err? ==> r.error == spec.error)
  {
    var depth: nat := 1;
    ghost var spec := SkipToEnd(reader.Remaining(), 1);
    while true
      invariant reader.Valid() && depth >= 1
      invariant SkipToEnd(reader.Remaining(), depth) == spec
      decreases |reader.Remaining()|
    {
      var e := reader.Next();
      if e.None? {
        return Err(UnexpectedEof);
      }
      match e.value {
        case Start(_, _) =>
          depth := depth + 1;
        case End(_) =>
          depth := depth - 1;
          if depth == 0 {
            return Ok(());
          }
        case _ =>
      }
    }
  }

  method FindEnvelopeStart(reader: Reader) returns (r: Result<(SoapVersion, Scope, seq<Binding>), Fault>)
    requires reader.Valid()
    modifies reader
    ensures reader.Valid()
    ensures var spec := FindEnvelope(old(reader.Remaining()), [OUTERMOST]);
            && (r.Ok? <==> spec.Ok?)
            && (r.Ok? ==> Ok(Found(r.value.0, r.value.1, r.value.2, reader.Remaining())) == spec)
            && (r.Err? ==> r.error == spec.error)
  {
    var scopes := [OUTERMOST];
    ghost var spec := FindEnvelope(reader.Remaining(), scopes);
    while true
      invariant reader.Valid() && scopes != []
      invariant FindEnvelope(reader.Remaining(), scopes) == spec
      decreases |reader.Remaining()|
    {
      var e := reader.Next();
      if e.None? {
        return Err(MissingEnvelope);
      }
      match e.value {
        case Start(name, attrs) =>
          var inner := Inside(scopes[|scopes| - 1], attrs);
          if name.local == "Envelope" {
            var ns := ElementNs(inner, name.prefix);
            if ns != Bound(SOAP12) && ns != Bound(SOAP11) {
              return Err(UnknownEnvelopeNamespace);
            }
            var bindings := CollectNsFromAttrs(attrs, []);
            assert bindings == Bindings(attrs);
            return Ok((if ns == Bound(SOAP12) then Soap12 else Soap11, inner, bindings));
          }
          scopes := scopes + [inner];
        case End(_) =>
          if |scopes| > 1 {
            scopes := scopes[..|scopes| - 1];
          }
        case _ =>
      }
    }
  }

  /** parse_envelope, on any event stream. */
  method ParseEnvelope(input: seq<Event>) returns (r: Result<Parsed, Fault>)
    ensures r == Parse(input)
  {
    var reader := new Reader(input);
    var found := FindEnvelopeStart(reader);
    if found.Err? {
      return Err(found.error);
    }
    var (version, scope, bindings) := found.value;
    var parts := Parts([], None);
    ghost var spec := EnvelopeChildren(reader.Remaining(), scope, bindings, parts);
    var open := true;
    while open
      invariant reader.Valid()
      invariant if open then EnvelopeChildren(reader.Remaining(), scope, bindings, parts) == spec else Ok(parts) == spec
      decreases open, |reader.Remaining()|
    {
      var e := reader.Next();
      if e.None? {
        open := false;
      } else {
        match e.value {
          case Start(name, attrs) =>
            var inherited := CollectNsFromAttrs(attrs, bindings);
            match PartOf(scope, name, attrs) {
              case HeaderPart =>
                var headers := CollectHeaderChildren(reader, inherited);
                if headers.Err? {
                  return Err(headers.error);
                }
                parts := parts.(headers := headers.value);
              case BodyPart =>
                var body := ExtractBodyFirstChild(reader, inherited);
                if body.Err? {
                  return Err(body.error);
                }
                parts := parts.(body := Some(body.value));
                var skipped := SkipPastEnd(reader);
                if skipped.Err? {
                  return Err(skipped.error);
                }
              case OtherPart =>
                var skipped := SkipPastEnd(reader);
                if skipped.Err? {
                  return Err(skipped.error);
                }
            }
          case End(_) =>
            open := false;
          case _ =>
        }
      }
    }
    if parts.body.None? {
      return Err(MissingBody);
    }
    return Ok(Parsed(version, WriteEach(parts.headers), WriteAll(parts.body.value)));
  }
}
