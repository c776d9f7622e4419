/** Rewriting soap:address locations in a WSDL document (src/wsdl/resolver.rs). */
module WsdlAddress {
  import opened Wrappers
  import opened Xml
  import opened Tags

  predicate IsService(name: Name) { name.local == "service" }

  predicate IsPort(name: Name) { name.local == "port" }

  predicate IsAddress(name: Name) { name.local == "address" }

  function NameAttr(attrs: seq<Attr>): string { AttrOrEmpty(attrs, "name") }

  /** Every `location` gets the new value; `url` is that value as it is written between quotes. */
  function Relocated(url: string, attrs: seq<Attr>): (r: seq<Attr>)
    ensures |r| == |attrs|
    ensures forall i :: 0 <= i < |r| ==>
      r[i] == if attrs[i].name == Name("", "location") then Attr(attrs[i].name, url) else attrs[i]
  {
    seq(|attrs|, i requires 0 <= i < |attrs| =>
      if attrs[i].name == Name("", "location") then Attr(attrs[i].name, url) else attrs[i])
  }

  method RelocateAttrs(url: string, attrs: seq<Attr>) returns (r: seq<Attr>)
    ensures r == Relocated(url, attrs)
  {
    r := [];
    for i := 0 to |attrs|
      invariant |r| == i && r == Relocated(url, attrs)[..i]
    {
      if attrs[i].name == Name("", "location") {
        r := r + [Attr(attrs[i].name, url)];
      } else {
        r := r + [attrs[i]];
      }
    }
  }

  /** A tag event, with its location replaced if it is an address. */
  function AddressEvent(url: string, e: Event): Event
  {
    if (e.Start? || e.Empty?) && IsAddress(e.name) then e.(attrs := Relocated(url, e.attrs)) else e
  }

  /** Every other tag is written as it was read; an address comes back exactly when its other values are quote-free. */
  lemma AddressReadsBackExactlyWhen(url: string, e: Event)
    requires (e.Start? || e.Empty?) && IsAddress(e.name) && NamedEvent(e) && '"' !in url
    ensures ReadInk(Write(AddressEvent(url, e))) == Some(AddressEvent(url, e)) <==>
            forall a :: a in e.attrs && a.name != Name("", "location") ==> '"' !in a.value
  {
    var after := Relocated(url, e.attrs);
    hide NameLike;
    forall i | 0 <= i < |after|
      ensures e.attrs[i] in e.attrs && after[i] in after && NameLike(after[i].name)
    {
    }
    forall a | a in after ensures NameLike(a.name) {
    }
    InkReadsBackExactlyWhen(AddressEvent(url, e));
    hide ReadInk, Write;
    if QuoteFreeAttrs(after) {
      forall a | a in e.attrs && a.name != Name("", "location") ensures '"' !in a.value {
        var i :| 0 <= i < |e.attrs| && e.attrs[i] == a;
        assert after[i] in after;
      }
    }
  }

  // ----- rewrite_wsdl_address

  function AllFrom(url: string, events: seq<Event>): seq<Event>
  {
    if events == [] then [] else [AddressEvent(url, events[0])] + AllFrom(url, events[1..])
  }

  lemma AllHead(url: string, events: seq<Event>, i: nat)
    requires i < |events|
    ensures AllFrom(url, events[i..]) == [AddressEvent(url, events[i])] + AllFrom(url, events[i + 1..])
    ensures AllFrom(url, []) == []
  {
    assert events[i..][1..] == events[i + 1..];
  }

  lemma AllNothing(url: string)
    ensures AllFrom(url, []) == []
  {
  }

  method RewriteWsdlAddress(events: seq<Event>, url: string) returns (out: seq<Event>)
    ensures out == AllFrom(url, events)
  {
    hide AllFrom, Relocated;
    out := [];
    assert events[0..] == events;
    for i := 0 to |events|
      invariant out + AllFrom(url, events[i..]) == AllFrom(url, events)
    {
      AllHead(url, events, i);
      ghost var wrote := out;
      match events[i] {
        case Start(name, attrs) =>
          if IsAddress(name) {
            var relocated := RelocateAttrs(url, attrs);
            out := out + [Start(name, relocated)];
          } else {
            out := out + [events[i]];
          }
        case Empty(name, attrs) =>
          if IsAddress(name) {
            var relocated := RelocateAttrs(url, attrs);
            out := out + [Empty(name, relocated)];
          } else {
            out := out + [events[i]];
          }
        case _ =>
          out := out + [events[i]];
      }
      assert out == wrote + [AddressEvent(url, events[i])];
    }
    assert events[|events|..] == [] && out + [] == out;
    AllNothing(url);
  }

  // ----- Pass 1: the ports of the target service

  datatype Seeking = Seeking(inService: bool, depth: int)

  function SeekState(service: string, s: Seeking, e: Event): Seeking
  {
    match e
    case Start(name, attrs) =>
      if IsService(name) then (if NameAttr(attrs) == service then Seeking(true, 1) else s)
      else if s.inService then Seeking(true, s.depth + 1)
      else s
    case End(_) => if s.inService then Seeking(s.depth != 1, s.depth - 1) else s
    case _ => s
  }

  function NonEmpty(name: string): set<string> { if name == "" then {} else {name} }

  function SeekFinds(s: Seeking, e: Event): set<string>
  {
    if !s.inService || s.depth != 1 then {} else
      match e
      case Start(name, attrs) => if IsPort(name) then NonEmpty(NameAttr(attrs)) else {}
      case Empty(name, attrs) => if IsPort(name) then NonEmpty(NameAttr(attrs)) else {}
      case _ => {}
  }

  function PortsFrom(service: string, events: seq<Event>, s: Seeking): set<string>
  {
    if events == [] then {} else
      SeekFinds(s, events[0]) + PortsFrom(service, events[1..], SeekState(service, s, events[0]))
  }

  method FindPorts(events: seq<Event>, service: string) returns (ports: set<string>)
    ensures ports == PortsFrom(service, events, Seeking(false, 0))
  {
    ports := {};
    var inService, depth := false, 0;
    assert events[0..] == events;
    for i := 0 to |events|
      invariant ports + PortsFrom(service, events[i..], Seeking(inService, depth))
             == PortsFrom(service, events, Seeking(false, 0))
    {
      assert events[i..][1..] == events[i + 1..];
      ghost var before, found := Seeking(inService, depth), ports;
      match events[i] {
        case Start(name, attrs) =>
          if IsService(name) {
            if NameAttr(attrs) == service {
              inService, depth := true, 1;
            }
          } else if inService {
            depth := depth + 1;
            if IsPort(name) && depth == 2 && NameAttr(attrs) != "" {
              ports := ports + {NameAttr(attrs)};
            }
          }
        case Empty(name, attrs) =>
          if inService && IsPort(name) && depth == 1 && NameAttr(attrs) != "" {
            ports := ports + {NameAttr(attrs)};
          }
        case End(_) =>
          if inService {
            depth := depth - 1;
            if depth == 0 {
              inService := false;
            }
          }
        case Chars(_) =>
      }
      assert ports == found + SeekFinds(before, events[i]);
      assert Seeking(inService, depth) == SeekState(service, before, events[i]);
    }
  }

  // ----- Pass 2: rewriting inside those ports

  datatype Rewriting = Rewriting(inPort: bool, depth: int)

  function RewriteState(ports: set<string>, s: Rewriting, e: Event): Rewriting
  {
    match e
    case Start(name, attrs) =>
      if IsPort(name) && NameAttr(attrs) in ports then Rewriting(true, 1)
      else if s.inPort then Rewriting(true, s.depth + 1)
      else s
    case Empty(name, attrs) =>
      if IsPort(name) && NameAttr(attrs) in ports then Rewriting(true, 0) else s
    case End(_) =>
      if !s.inPort then s
      else if s.depth - 1 <= 0 then Rewriting(false, 0)
      else Rewriting(true, s.depth - 1)
    case Chars(_) => s
  }

  function PortsRewritten(ports: set<string>, url: string, events: seq<Event>, s: Rewriting): seq<Event>
  {
    if events == [] then [] else
      [if s.inPort then AddressEvent(url, events[0]) else events[0]]
      + PortsRewritten(ports, url, events[1..], RewriteState(ports, s, events[0]))
  }

  lemma RewriteHead(ports: set<string>, url: string, events: seq<Event>, i: nat, s: Rewriting)
    requires i < |events|
    ensures PortsRewritten(ports, url, events[i..], s)
            == [if s.inPort then AddressEvent(url, events[i]) else events[i]]
               + PortsRewritten(ports, url, events[i + 1..], RewriteState(ports, s, events[i]))
  {
    assert events[i..][1..] == events[i + 1..];
  }

  lemma RewriteStep(
      ports: set<string>, url: string, events: seq<Event>, i: nat, s: Rewriting, wrote: seq<Event>)
    requires i < |events|
    ensures wrote + [if s.inPort then AddressEvent(url, events[i]) else events[i]]
            + PortsRewritten(ports, url, events[i + 1..], RewriteState(ports, s, events[i]))
            == wrote + PortsRewritten(ports, url, events[i..], s)
  {
    RewriteHead(ports, url, events, i, s);
    hide AddressEvent, RewriteState;
  }

  lemma RewriteNothing(ports: set<string>, url: string, s: Rewriting)
    ensures PortsRewritten(ports, url, [], s) == []
  {
  }

  method RewritePorts(events: seq<Event>, url: string, ports: set<string>) returns (out: seq<Event>)
    ensures out == PortsRewritten(ports, url, events, Rewriting(false, 0))
  {
    hide PortsRewritten, Relocated, NameAttr;
    out := [];
    var inPort, depth := false, 0;
    assert events[0..] == events;
    for i := 0 to |events|
      invariant out + PortsRewritten(ports, url, events[i..], Rewriting(inPort, depth))
             == PortsRewritten(ports, url, events, Rewriting(false, 0))
    {
      ghost var before, wrote := Rewriting(inPort, depth), out;
      match events[i] {
        case Start(name, attrs) =>
          if IsPort(name) {
            if NameAttr(attrs) in ports {
              inPort, depth := true, 1;
            } else if inPort {
              depth := depth + 1;
            }
            out := out + [events[i]];
          } else if inPort && IsAddress(name) {
            depth := depth + 1;
            var relocated := RelocateAttrs(url, attrs);
            out := out + [Start(name, relocated)];
          } else {
            if inPort {
              depth := depth + 1;
            }
            out := out + [events[i]];
          }
        case Empty(name, attrs) =>
          if IsPort(name) {
            if NameAttr(attrs) in ports {
              inPort, depth := true, 0;
            }
            out := out + [events[i]];
          } else if inPort && IsAddress(name) {
            var relocated := RelocateAttrs(url, attrs);
            out := out + [Empty(name, relocated)];
          } else {
            out := out + [events[i]];
          }
        case End(_) =>
          if inPort {
            depth := depth - 1;
            if depth <= 0 {
              inPort, depth := false, 0;
            }
          }
          out := out + [events[i]];
        case Chars(_) =>
          out := out + [events[i]];
      }
      assert out == wrote + [if before.inPort then AddressEvent(url, events[i]) else events[i]];
      assert Rewriting(inPort, depth) == RewriteState(ports, before, events[i]);
      RewriteStep(ports, url, events, i, before, wrote);
    }
    assert events[|events|..] == [] && out + [] == out;
    RewriteNothing(ports, url, Rewriting(inPort, depth));
  }

  /** rewrite_wsdl_address_for_service, on any event stream. */
  function ForService(events: seq<Event>, url: string, service: string): seq<Event>
  {
    if service == "" then AllFrom(url, events)
    else PortsRewritten(PortsFrom(service, events, Seeking(false, 0)), url, events, Rewriting(false, 0))
  }

  method RewriteWsdlAddressForService(events: seq<Event>, url: string, service: string) returns (out: seq<Event>)
    ensures out == ForService(events, url, service)
  {
    if service == "" {
      out := RewriteWsdlAddress(events, url);
    } else {
      var ports := FindPorts(events, service);
      out := RewritePorts(events, url, ports);
    }
  }
}
