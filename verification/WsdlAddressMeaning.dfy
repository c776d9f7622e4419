/** What address rewriting does to a well-formed WSDL document, as a map over its tree. */
module WsdlAddressMeaning {
  import opened Xml
  import opened WsdlAddress

  // ----- Tree maps

  /** The attributes of a tag: those of an element called `address`, but `location` has this URL as its value. */
  function AddressAttrs(url: string, name: Name, attrs: seq<Attr>): (r: seq<Attr>)
    ensures |r| == |attrs|
    ensures forall i :: 0 <= i < |r| ==>
      r[i] == if name.local == "address" && attrs[i].name == Name("", "location") then Attr(attrs[i].name, url)
              else attrs[i]
    ensures name.local != "address" ==> r == attrs
  {
    seq(|attrs|, i requires 0 <= i < |attrs| =>
      if name.local == "address" && attrs[i].name == Name("", "location") then Attr(attrs[i].name, url) else attrs[i])
  }

  /** What both passes write is that. */
  lemma AddressAttrsAre(url: string, name: Name, attrs: seq<Attr>)
    ensures AddressAttrs(url, name, attrs) == if IsAddress(name) then Relocated(url, attrs) else attrs
  {
  }

  /** The value of the first attribute called `name`, or nothing. */
  predicate IsNameOf(attrs: seq<Attr>, value: string)
  {
    || (exists i :: 0 <= i < |attrs| && attrs[i] == Attr(Name("", "name"), value)
                    && forall j :: 0 <= j < i ==> attrs[j].name != Name("", "name"))
    || (value == "" && forall i :: 0 <= i < |attrs| ==> attrs[i].name != Name("", "name"))
  }

  lemma {:induction false} FirstValueIs(attrs: seq<Attr>, local: string, value: string)
    ensures AttrOrEmpty(attrs, local) == value <==>
            || (exists i :: 0 <= i < |attrs| && attrs[i] == Attr(Name("", local), value)
                            && forall j :: 0 <= j < i ==> attrs[j].name != Name("", local))
            || (value == "" && forall i :: 0 <= i < |attrs| ==> attrs[i].name != Name("", local))
  {
    if attrs != [] {
      var rest := attrs[1..];
      FirstValueIs(rest, local, value);
      assert forall i :: 1 <= i < |attrs| ==> attrs[i] == rest[i - 1];
      if attrs[0].name != Name("", local) {
        if i :| 0 <= i < |rest| && rest[i] == Attr(Name("", local), value)
                && (forall j :: 0 <= j < i ==> rest[j].name != Name("", local)) {
          assert attrs[i + 1] == rest[i];
        }
        if i :| 0 <= i < |attrs| && attrs[i] == Attr(Name("", local), value)
                && (forall j :: 0 <= j < i ==> attrs[j].name != Name("", local)) {
          assert rest[i - 1] == attrs[i];
          assert forall j :: 0 <= j < i - 1 ==> rest[j] == attrs[j + 1];
        }
      }
    }
  }

  /** A service or port goes by the value of its first attribute called `name`. */
  lemma NameAttrIs(attrs: seq<Attr>, value: string)
    ensures NameAttr(attrs) == value <==> IsNameOf(attrs, value)
  {
    FirstValueIs(attrs, "name", value);
  }

  /** Every address relocated. */
  function AllRelocated(url: string, f: Forest): Forest
  {
    match f
    case Nil => Nil
    case Elem(name, attrs, kids, next) =>
      Elem(name, AddressAttrs(url, name, attrs), AllRelocated(url, kids), AllRelocated(url, next))
    case SelfClosed(name, attrs, next) => SelfClosed(name, AddressAttrs(url, name, attrs), AllRelocated(url, next))
    case Leaf(piece, next) => Leaf(piece, AllRelocated(url, next))
  }

  predicate IsTarget(ports: set<string>, name: Name, attrs: seq<Attr>)
  {
    name.local == "port" && NameAttr(attrs) in ports
  }

  /** The addresses below the ports with these names relocated. */
  function Relocate(ports: set<string>, url: string, f: Forest, inPort: bool): Forest
  {
    match f
    case Nil => Nil
    case Elem(name, attrs, kids, next) =>
      Elem(name, if inPort then AddressAttrs(url, name, attrs) else attrs,
           Relocate(ports, url, kids, inPort || IsTarget(ports, name, attrs)), Relocate(ports, url, next, inPort))
    case SelfClosed(name, attrs, next) =>
      SelfClosed(name, if inPort then AddressAttrs(url, name, attrs) else attrs, Relocate(ports, url, next, inPort))
    case Leaf(piece, next) => Leaf(piece, Relocate(ports, url, next, inPort))
  }

  lemma {:induction false} AllFromIsTree(url: string, f: Forest, rest: seq<Event>)
    ensures AllFrom(url, EventsThen(f, rest)) == EventsThen(AllRelocated(url, f), AllFrom(url, rest))
  {
    match f
    case Nil =>
    case Elem(name, attrs, kids, next) =>
      AddressAttrsAre(url, name, attrs);
      var tail := [End(name)] + EventsThen(next, rest);
      assert tail[1..] == EventsThen(next, rest);
      AllFromIsTree(url, kids, tail);
      AllFromIsTree(url, next, rest);
    case SelfClosed(name, attrs, next) =>
      AddressAttrsAre(url, name, attrs);
      AllFromIsTree(url, next, rest);
    case Leaf(_, next) => AllFromIsTree(url, next, rest);
  }

  // ----- What the second pass writes

  predicate NoTargets(ports: set<string>, f: Forest)
  {
    match f
    case Nil => true
    case Elem(name, attrs, kids, next) =>
      !IsTarget(ports, name, attrs) && NoTargets(ports, kids) && NoTargets(ports, next)
    case SelfClosed(name, attrs, next) => !IsTarget(ports, name, attrs) && NoTargets(ports, next)
    case Leaf(_, next) => NoTargets(ports, next)
  }

  /**
    Where the loop takes itself to be: `AfterEmpty` is the stretch that a self-closing target port opens, up to the
    end of the next sibling element or of the parent.
   */
  datatype Place = Outside | Below | AfterEmpty

  function PlaceInside(target: bool, place: Place): Place { if target || place != Outside then Below else Outside }

  /** Past an element the loop is still below a port only if nothing in that element was a target. */
  function PlacePast(ports: set<string>, target: bool, kids: Forest, place: Place): Place
  {
    if !target && place == Below && NoTargets(ports, kids) then Below else Outside
  }

  function PlacePastEmpty(target: bool, place: Place): Place { if target then AfterEmpty else place }

  function PlaceAfter(ports: set<string>, f: Forest, place: Place): Place
  {
    match f
    case Nil => place
    case Elem(name, attrs, kids, next) =>
      PlaceAfter(ports, next, PlacePast(ports, IsTarget(ports, name, attrs), kids, place))
    case SelfClosed(name, attrs, next) => PlaceAfter(ports, next, PlacePastEmpty(IsTarget(ports, name, attrs), place))
    case Leaf(_, next) => PlaceAfter(ports, next, place)
  }

  /** The tree the second pass writes, whatever ports the document holds. */
  function Written(ports: set<string>, url: string, f: Forest, place: Place): Forest
  {
    match f
    case Nil => Nil
    case Elem(name, attrs, kids, next) =>
      var target := IsTarget(ports, name, attrs);
      Elem(name, if place != Outside then AddressAttrs(url, name, attrs) else attrs,
           Written(ports, url, kids, PlaceInside(target, place)),
           Written(ports, url, next, PlacePast(ports, target, kids, place)))
    case SelfClosed(name, attrs, next) =>
      SelfClosed(name, if place != Outside then AddressAttrs(url, name, attrs) else attrs,
                 Written(ports, url, next, PlacePastEmpty(IsTarget(ports, name, attrs), place)))
    case Leaf(piece, next) => Leaf(piece, Written(ports, url, next, place))
  }

  function PlaceOf(s: Rewriting): Place { if !s.inPort then Outside else if s.depth == 0 then AfterEmpty else Below }

  /** The loop's counter follows from where it is, and from what it was at the start. */
  function StateIn(place: Place, s: Rewriting): Rewriting
  {
    match place
    case Outside => Rewriting(false, 0)
    case AfterEmpty => Rewriting(true, 0)
    case Below => s
  }

  lemma {:induction false} BelowUntilTarget(ports: set<string>, f: Forest)
    ensures PlaceAfter(ports, f, Below) == Below <==> NoTargets(ports, f)
    ensures PlaceAfter(ports, f, Outside) != Below && PlaceAfter(ports, f, AfterEmpty) != Below
  {
    match f
    case Nil =>
    case Elem(_, _, _, next) => BelowUntilTarget(ports, next);
    case SelfClosed(_, _, next) => BelowUntilTarget(ports, next);
    case Leaf(_, next) => BelowUntilTarget(ports, next);
  }

  predicate Counts(s: Rewriting) { if s.inPort then s.depth >= 0 else s.depth == 0 }

  lemma ElementState(ports: set<string>, name: Name, attrs: seq<Attr>, kids: Forest, s: Rewriting)
    requires Counts(s)
    ensures var target, inner := IsTarget(ports, name, attrs), RewriteState(ports, s, Start(name, attrs));
      && Counts(inner) && PlaceOf(inner) == PlaceInside(target, PlaceOf(s))
      && RewriteState(ports, StateIn(PlaceAfter(ports, kids, PlaceOf(inner)), inner), End(name))
         == StateIn(PlacePast(ports, target, kids, PlaceOf(s)), s)
  {
    BelowUntilTarget(ports, kids);
  }

  /** On any document the second pass writes that tree and is then where `PlaceAfter` says. */
  lemma {:induction false} SecondPassWrites(ports: set<string>, url: string, f: Forest, rest: seq<Event>, s: Rewriting)
    requires Counts(s)
    ensures PortsRewritten(ports, url, EventsThen(f, rest), s)
            == EventsThen(Written(ports, url, f, PlaceOf(s)),
                          PortsRewritten(ports, url, rest, StateIn(PlaceAfter(ports, f, PlaceOf(s)), s)))
  {
    hide NoTargets, Relocated, AddressAttrs;
    match f
    case Nil =>
    case Elem(name, attrs, kids, next) =>
      var tail := [End(name)] + EventsThen(next, rest);
      var inner := RewriteState(ports, s, Start(name, attrs));
      var past := StateIn(PlacePast(ports, IsTarget(ports, name, attrs), kids, PlaceOf(s)), s);
      assert tail[1..] == EventsThen(next, rest);
      AddressAttrsAre(url, name, attrs);
      ElementState(ports, name, attrs, kids, s);
      BelowUntilTarget(ports, next);
      SecondPassWrites(ports, url, kids, tail, inner);
      SecondPassWrites(ports, url, next, rest, past);
    case SelfClosed(name, attrs, next) =>
      AddressAttrsAre(url, name, attrs);
      BelowUntilTarget(ports, next);
      SecondPassWrites(ports, url, next, rest, RewriteState(ports, s, Empty(name, attrs)));
    case Leaf(_, next) => SecondPassWrites(ports, url, next, rest, s);
  }

  predicate Located(name: Name, attrs: seq<Attr>)
  {
    name.local == "address" && exists i :: 0 <= i < |attrs| && attrs[i].name == Name("", "location")
  }

  /**
    No located address lies in the stretch a self-closing target port opens, unless it is below a target port anyway;
    and none lies below a target port, but past another one inside it.
   */
  predicate Placed(ports: set<string>, f: Forest, place: Place, inPort: bool)
  {
    match f
    case Nil => true
    case Elem(name, attrs, kids, next) =>
      var target := IsTarget(ports, name, attrs);
      && (Located(name, attrs) ==> (inPort <==> place != Outside))
      && Placed(ports, kids, PlaceInside(target, place), inPort || target)
      && Placed(ports, next, PlacePast(ports, target, kids, place), inPort)
    case SelfClosed(name, attrs, next) =>
      && (Located(name, attrs) ==> (inPort <==> place != Outside))
      && Placed(ports, next, PlacePastEmpty(IsTarget(ports, name, attrs), place), inPort)
    case Leaf(_, next) => Placed(ports, next, place, inPort)
  }

  lemma RelocatedSameExactlyWhen(name: Name, attrs: seq<Attr>, u: string, v: string)
    requires u != v
    ensures (AddressAttrs(u, name, attrs) == attrs && AddressAttrs(v, name, attrs) == attrs) <==> !Located(name, attrs)
  {
    if name.local == "address" {
      if i :| 0 <= i < |attrs| && attrs[i].name == Name("", "location") {
        assert Relocated(u, attrs)[i].value == u && Relocated(v, attrs)[i].value == v;
      } else {
        assert Relocated(u, attrs) == attrs && Relocated(v, attrs) == attrs;
      }
    }
  }

  lemma {:induction false} PlacedExactlyWhen(
      ports: set<string>, f: Forest, place: Place, inPort: bool, u: string, v: string)
    requires u != v
    ensures && Written(ports, u, f, place) == Relocate(ports, u, f, inPort)
            && Written(ports, v, f, place) == Relocate(ports, v, f, inPort)
            <==> Placed(ports, f, place, inPort)
  {
    hide AddressAttrs, Located, IsTarget, NoTargets;
    match f
    case Nil =>
    case Elem(name, attrs, kids, next) =>
      var target := IsTarget(ports, name, attrs);
      RelocatedSameExactlyWhen(name, attrs, u, v);
      PlacedExactlyWhen(ports, kids, PlaceInside(target, place), inPort || target, u, v);
      PlacedExactlyWhen(ports, next, PlacePast(ports, target, kids, place), inPort, u, v);
    case SelfClosed(name, attrs, next) =>
      RelocatedSameExactlyWhen(name, attrs, u, v);
      PlacedExactlyWhen(ports, next, PlacePastEmpty(IsTarget(ports, name, attrs), place), inPort, u, v);
    case Leaf(_, next) => PlacedExactlyWhen(ports, next, place, inPort, u, v);
  }

  // ----- The ports of a service

  predicate NoService(f: Forest)
  {
    match f
    case Nil => true
    case Elem(name, _, kids, next) => name.local != "service" && NoService(kids) && NoService(next)
    case SelfClosed(_, _, next) => NoService(next)
    case Leaf(_, next) => NoService(next)
  }

  /** No service lies inside another. */
  predicate FlatServices(f: Forest)
  {
    match f
    case Nil => true
    case Elem(name, _, kids, next) =>
      (if name.local == "service" then NoService(kids) else FlatServices(kids)) && FlatServices(next)
    case SelfClosed(_, _, next) => FlatServices(next)
    case Leaf(_, next) => FlatServices(next)
  }

  /** The named ports among a forest's own elements. */
  function OwnPorts(f: Forest): set<string>
  {
    match f
    case Nil => {}
    case Elem(name, attrs, _, next) => (if name.local == "port" then NonEmpty(NameAttr(attrs)) else {}) + OwnPorts(next)
    case SelfClosed(name, attrs, next) =>
      (if name.local == "port" then NonEmpty(NameAttr(attrs)) else {}) + OwnPorts(next)
    case Leaf(_, next) => OwnPorts(next)
  }

  predicate IsNamed(service: string, name: Name, attrs: seq<Attr>)
  {
    name.local == "service" && NameAttr(attrs) == service
  }

  /** The named ports directly inside the services of that name. */
  function PortsOf(service: string, f: Forest): set<string>
  {
    match f
    case Nil => {}
    case Elem(name, attrs, kids, next) =>
      (if IsNamed(service, name, attrs) then OwnPorts(kids) else PortsOf(service, kids)) + PortsOf(service, next)
    case SelfClosed(_, _, next) => PortsOf(service, next)
    case Leaf(_, next) => PortsOf(service, next)
  }

  lemma {:induction false} SeekBelowPorts(service: string, f: Forest, rest: seq<Event>, depth: int)
    requires NoService(f) && depth >= 2
    ensures PortsFrom(service, EventsThen(f, rest), Seeking(true, depth))
            == PortsFrom(service, rest, Seeking(true, depth))
  {
    match f
    case Nil =>
    case Elem(name, _, kids, next) =>
      var tail := [End(name)] + EventsThen(next, rest);
      assert tail[1..] == EventsThen(next, rest);
      SeekBelowPorts(service, kids, tail, depth + 1);
      SeekBelowPorts(service, next, rest, depth);
    case SelfClosed(_, _, next) => SeekBelowPorts(service, next, rest, depth);
    case Leaf(_, next) => SeekBelowPorts(service, next, rest, depth);
  }

  lemma {:induction false} SeekInService(service: string, f: Forest, rest: seq<Event>)
    requires NoService(f)
    ensures PortsFrom(service, EventsThen(f, rest), Seeking(true, 1))
            == OwnPorts(f) + PortsFrom(service, rest, Seeking(true, 1))
  {
    match f
    case Nil =>
    case Elem(name, _, kids, next) =>
      var tail := [End(name)] + EventsThen(next, rest);
      assert tail[1..] == EventsThen(next, rest);
      SeekBelowPorts(service, kids, tail, 2);
      SeekInService(service, next, rest);
    case SelfClosed(_, _, next) => SeekInService(service, next, rest);
    case Leaf(_, next) => SeekInService(service, next, rest);
  }

  lemma {:induction false} SeekOutside(service: string, f: Forest, rest: seq<Event>)
    requires NoService(f)
    ensures PortsFrom(service, EventsThen(f, rest), Seeking(false, 0)) == PortsFrom(service, rest, Seeking(false, 0))
    ensures PortsOf(service, f) == {}
  {
    match f
    case Nil =>
    case Elem(name, _, kids, next) =>
      var tail := [End(name)] + EventsThen(next, rest);
      assert tail[1..] == EventsThen(next, rest);
      SeekOutside(service, kids, tail);
      SeekOutside(service, next, rest);
    case SelfClosed(_, _, next) => SeekOutside(service, next, rest);
    case Leaf(_, next) => SeekOutside(service, next, rest);
  }

  /** The first pass finds exactly the ports of the service, wherever services are not nested. */
  lemma {:induction false} FirstPassFindsPorts(service: string, f: Forest, rest: seq<Event>)
    requires FlatServices(f)
    ensures PortsFrom(service, EventsThen(f, rest), Seeking(false, 0))
            == PortsOf(service, f) + PortsFrom(service, rest, Seeking(false, 0))
  {
    match f
    case Nil =>
    case Elem(name, attrs, kids, next) =>
      var tail := [End(name)] + EventsThen(next, rest);
      assert tail[1..] == EventsThen(next, rest);
      FirstPassFindsPorts(service, next, rest);
      if IsNamed(service, name, attrs) {
        SeekInService(service, kids, tail);
      } else if name.local == "service" {
        SeekOutside(service, kids, tail);
      } else {
        FirstPassFindsPorts(service, kids, tail);
      }
    case SelfClosed(_, _, next) => FirstPassFindsPorts(service, next, rest);
    case Leaf(_, next) => FirstPassFindsPorts(service, next, rest);
  }

  // ----- Both passes together

  /** On any document with services side by side, the two passes write this tree. */
  lemma ServiceRewriteWrites(service: string, url: string, f: Forest)
    requires service != "" && FlatServices(f)
    ensures ForService(Events(f), url, service) == Events(Written(PortsOf(service, f), url, f, Outside))
  {
    FirstPassFindsPorts(service, f, []);
    assert PortsOf(service, f) + {} == PortsOf(service, f);
    SecondPassWrites(PortsOf(service, f), url, f, [], Rewriting(false, 0));
  }

  /** Without a service name every address is relocated. */
  lemma NoServiceRewritesAll(url: string, f: Forest)
    ensures ForService(Events(f), url, "") == Events(AllRelocated(url, f))
  {
    AllFromIsTree(url, f, []);
  }

  predicate RewritesAsTree(service: string, url: string, f: Forest)
  {
    ForService(Events(f), url, service) == Events(Relocate(PortsOf(service, f), url, f, false))
  }

  /**
    The two passes relocate just the addresses below the service's ports, exactly when every address is well placed.
   */
  lemma ServiceRewriteIsTreeExactlyWhen(service: string, f: Forest)
    requires service != "" && FlatServices(f)
    ensures (forall url :: RewritesAsTree(service, url, f)) <==> Placed(PortsOf(service, f), f, Outside, false)
  {
    var ports := PortsOf(service, f);
    forall url
      ensures RewritesAsTree(service, url, f) <==> Written(ports, url, f, Outside) == Relocate(ports, url, f, false)
    {
      ServiceRewriteWrites(service, url, f);
      if RewritesAsTree(service, url, f) {
        EventsThenInjective(Written(ports, url, f, Outside), Relocate(ports, url, f, false), [], []);
      }
    }
    if Placed(ports, f, Outside, false) {
      forall url ensures RewritesAsTree(service, url, f) {
        PlacedExactlyWhen(ports, f, Outside, false, url, url + "/");
      }
    }
    if forall url :: RewritesAsTree(service, url, f) {
      assert RewritesAsTree(service, "a", f) && RewritesAsTree(service, "b", f);
      PlacedExactlyWhen(ports, f, Outside, false, "a", "b");
    }
  }

  /** A document on which the two passes are that tree map. */
  predicate Plain(service: string, f: Forest)
  {
    service != "" && FlatServices(f) && Placed(PortsOf(service, f), f, Outside, false)
  }

  lemma ServiceRewriteIsTree(service: string, url: string, f: Forest)
    requires Plain(service, f)
    ensures RewritesAsTree(service, url, f)
  {
    ServiceRewriteIsTreeExactlyWhen(service, f);
  }

  /** A located address right after a self-closing port of the service is rewritten as well, though not below it. */
  lemma SelfClosingPortLeaks(
      service: string, outer: Name, outerAttrs: seq<Attr>, port: Name, portAttrs: seq<Attr>,
      address: Name, addressAttrs: seq<Attr>, others: Forest, rest: Forest)
    requires service != "" && IsNamed(service, outer, outerAttrs)
    requires port.local == "port" && NameAttr(portAttrs) != "" && Located(address, addressAttrs)
    requires var kids := SelfClosed(port, portAttrs, SelfClosed(address, addressAttrs, others));
      FlatServices(Elem(outer, outerAttrs, kids, rest))
    ensures var kids := SelfClosed(port, portAttrs, SelfClosed(address, addressAttrs, others));
      !forall url :: RewritesAsTree(service, url, Elem(outer, outerAttrs, kids, rest))
  {
    var after := SelfClosed(address, addressAttrs, others);
    var kids := SelfClosed(port, portAttrs, after);
    var f := Elem(outer, outerAttrs, kids, rest);
    var ports := PortsOf(service, f);
    assert NameAttr(portAttrs) in OwnPorts(kids) && OwnPorts(kids) <= ports;
    assert IsTarget(ports, port, portAttrs) && !IsTarget(ports, outer, outerAttrs);
    assert !Placed(ports, after, AfterEmpty, false);
    assert !Placed(ports, kids, Outside, false);
    ServiceRewriteIsTreeExactlyWhen(service, f);
  }

  // ----- Only that service's addresses

  /** Where an element stands with respect to the services of one name. */
  datatype Standing = Elsewhere | AmongPorts | InOwnPort

  function StandingInside(service: string, name: Name, attrs: seq<Attr>, standing: Standing): Standing
  {
    match standing
    case InOwnPort => InOwnPort
    case AmongPorts => if name.local == "port" && NameAttr(attrs) != "" then InOwnPort else Elsewhere
    case Elsewhere => if IsNamed(service, name, attrs) then AmongPorts else Elsewhere
  }

  /** Every address relocated below the named ports of the services of that name, and nothing else. */
  function Scoped(service: string, url: string, f: Forest, standing: Standing): Forest
  {
    match f
    case Nil => Nil
    case Elem(name, attrs, kids, next) =>
      Elem(name, if standing == InOwnPort then AddressAttrs(url, name, attrs) else attrs,
           Scoped(service, url, kids, StandingInside(service, name, attrs, standing)),
           Scoped(service, url, next, standing))
    case SelfClosed(name, attrs, next) =>
      SelfClosed(name, if standing == InOwnPort then AddressAttrs(url, name, attrs) else attrs,
                 Scoped(service, url, next, standing))
    case Leaf(piece, next) => Leaf(piece, Scoped(service, url, next, standing))
  }

  /** The second pass is below a port at just those located addresses that are in the service's own ports. */
  predicate Confined(service: string, ports: set<string>, f: Forest, place: Place, standing: Standing)
  {
    match f
    case Nil => true
    case Elem(name, attrs, kids, next) =>
      var target := IsTarget(ports, name, attrs);
      && (Located(name, attrs) ==> (standing == InOwnPort <==> place != Outside))
      && Confined(service, ports, kids, PlaceInside(target, place), StandingInside(service, name, attrs, standing))
      && Confined(service, ports, next, PlacePast(ports, target, kids, place), standing)
    case SelfClosed(name, attrs, next) =>
      && (Located(name, attrs) ==> (standing == InOwnPort <==> place != Outside))
      && Confined(service, ports, next, PlacePastEmpty(IsTarget(ports, name, attrs), place), standing)
    case Leaf(_, next) => Confined(service, ports, next, place, standing)
  }

  lemma {:induction false} ConfinedExactlyWhen(
      service: string, ports: set<string>, f: Forest, place: Place, standing: Standing, u: string, v: string)
    requires u != v
    ensures && Written(ports, u, f, place) == Scoped(service, u, f, standing)
            && Written(ports, v, f, place) == Scoped(service, v, f, standing)
            <==> Confined(service, ports, f, place, standing)
  {
    hide AddressAttrs, Located, IsTarget, NoTargets, StandingInside;
    match f
    case Nil =>
    case Elem(name, attrs, kids, next) =>
      var target := IsTarget(ports, name, attrs);
      RelocatedSameExactlyWhen(name, attrs, u, v);
      ConfinedExactlyWhen(service, ports, kids, PlaceInside(target, place),
                          StandingInside(service, name, attrs, standing), u, v);
      ConfinedExactlyWhen(service, ports, next, PlacePast(ports, target, kids, place), standing, u, v);
    case SelfClosed(name, attrs, next) =>
      RelocatedSameExactlyWhen(name, attrs, u, v);
      ConfinedExactlyWhen(service, ports, next, PlacePastEmpty(IsTarget(ports, name, attrs), place), standing, u, v);
    case Leaf(_, next) => ConfinedExactlyWhen(service, ports, next, place, standing, u, v);
  }

  predicate RewritesOnly(service: string, url: string, f: Forest)
  {
    ForService(Events(f), url, service) == Events(Scoped(service, url, f, Elsewhere))
  }

  /** The per-service rewrite is the tree map of that service's own ports exactly when it is confined to them. */
  lemma RewritesOnlyItsServiceExactlyWhen(service: string, f: Forest)
    requires service != "" && FlatServices(f)
    ensures (forall url :: RewritesOnly(service, url, f))
            <==> Confined(service, PortsOf(service, f), f, Outside, Elsewhere)
  {
    var ports := PortsOf(service, f);
    forall url
      ensures RewritesOnly(service, url, f) <==> Written(ports, url, f, Outside) == Scoped(service, url, f, Elsewhere)
    {
      ServiceRewriteWrites(service, url, f);
      if RewritesOnly(service, url, f) {
        EventsThenInjective(Written(ports, url, f, Outside), Scoped(service, url, f, Elsewhere), [], []);
      }
    }
    if Confined(service, ports, f, Outside, Elsewhere) {
      forall url ensures RewritesOnly(service, url, f) {
        ConfinedExactlyWhen(service, ports, f, Outside, Elsewhere, url, url + "/");
      }
    }
    if forall url :: RewritesOnly(service, url, f) {
      assert RewritesOnly(service, "a", f) && RewritesOnly(service, "b", f);
      ConfinedExactlyWhen(service, ports, f, Outside, Elsewhere, "a", "b");
    }
  }

  /** The names of the ports that are not directly inside a service of that name. */
  function OtherPorts(service: string, f: Forest, direct: bool): set<string>
  {
    match f
    case Nil => {}
    case Elem(name, attrs, kids, next) =>
      (if name.local == "port" && !direct then {NameAttr(attrs)} else {})
      + OtherPorts(service, kids, !direct && IsNamed(service, name, attrs)) + OtherPorts(service, next, direct)
    case SelfClosed(name, attrs, next) =>
      (if name.local == "port" && !direct then {NameAttr(attrs)} else {}) + OtherPorts(service, next, direct)
    case Leaf(_, next) => OtherPorts(service, next, direct)
  }

  /** No named port among a forest's own elements is self-closing. */
  predicate OwnPortsOpen(f: Forest)
  {
    match f
    case Nil => true
    case Elem(_, _, _, next) => OwnPortsOpen(next)
    case SelfClosed(name, attrs, next) => !(name.local == "port" && NameAttr(attrs) != "") && OwnPortsOpen(next)
    case Leaf(_, next) => OwnPortsOpen(next)
  }

  predicate PortsOpen(service: string, f: Forest)
  {
    match f
    case Nil => true
    case Elem(name, attrs, kids, next) =>
      (if IsNamed(service, name, attrs) then OwnPortsOpen(kids) else PortsOpen(service, kids))
          && PortsOpen(service, next)
    case SelfClosed(_, _, next) => PortsOpen(service, next)
    case Leaf(_, next) => PortsOpen(service, next)
  }

  lemma {:induction false} NoServiceIsFlat(f: Forest)
    requires NoService(f)
    ensures FlatServices(f)
  {
    match f
    case Nil =>
    case Elem(_, _, kids, next) => NoServiceIsFlat(kids); NoServiceIsFlat(next);
    case SelfClosed(_, _, next) => NoServiceIsFlat(next);
    case Leaf(_, next) => NoServiceIsFlat(next);
  }

  /** Without targets the second pass stays where it is. */
  lemma {:induction false} NoTargetsConfined(service: string, ports: set<string>, f: Forest, standing: Standing)
    requires NoService(f) && OtherPorts(service, f, false) !! ports && standing != AmongPorts
    ensures NoTargets(ports, f)
    ensures Confined(service, ports, f, if standing == InOwnPort then Below else Outside, standing)
  {
    match f
    case Nil =>
    case Elem(_, _, kids, next) =>
      NoTargetsConfined(service, ports, kids, standing);
      NoTargetsConfined(service, ports, next, standing);
    case SelfClosed(_, _, next) => NoTargetsConfined(service, ports, next, standing);
    case Leaf(_, next) => NoTargetsConfined(service, ports, next, standing);
  }

  lemma {:induction false} PortsConfined(service: string, ports: set<string>, f: Forest)
    requires NoService(f) && OtherPorts(service, f, true) !! ports && OwnPorts(f) <= ports && OwnPortsOpen(f)
    requires "" !in ports
    ensures Confined(service, ports, f, Outside, AmongPorts)
  {
    match f
    case Nil =>
    case Elem(name, attrs, kids, next) =>
      assert name.local == "port" && NameAttr(attrs) != "" ==> NameAttr(attrs) in OwnPorts(f);
      NoTargetsConfined(service, ports, kids, StandingInside(service, name, attrs, AmongPorts));
      PortsConfined(service, ports, next);
    case SelfClosed(_, _, next) => PortsConfined(service, ports, next);
    case Leaf(_, next) => PortsConfined(service, ports, next);
  }

  lemma {:induction false} UniqueNamesConfined(service: string, ports: set<string>, f: Forest)
    requires FlatServices(f) && OtherPorts(service, f, false) !! ports && PortsOf(service, f) <= ports
    requires PortsOpen(service, f) && "" !in ports
    ensures Confined(service, ports, f, Outside, Elsewhere)
  {
    match f
    case Nil =>
    case Elem(name, attrs, kids, next) =>
      if IsNamed(service, name, attrs) {
        PortsConfined(service, ports, kids);
      } else {
        if name.local == "service" { NoServiceIsFlat(kids); }
        UniqueNamesConfined(service, ports, kids);
      }
      UniqueNamesConfined(service, ports, next);
    case SelfClosed(_, _, next) => UniqueNamesConfined(service, ports, next);
    case Leaf(_, next) => UniqueNamesConfined(service, ports, next);
  }

  lemma {:induction false} PortsAreNamed(service: string, f: Forest)
    ensures "" !in PortsOf(service, f) && "" !in OwnPorts(f)
  {
    match f
    case Nil =>
    case Elem(_, _, kids, next) => PortsAreNamed(service, kids); PortsAreNamed(service, next);
    case SelfClosed(_, _, next) => PortsAreNamed(service, next);
    case Leaf(_, next) => PortsAreNamed(service, next);
  }

  /** With port names of the service's own, none self-closing, the rewrite is the tree map of that service. */
  lemma OwnNamesRewriteOwnAddresses(service: string, url: string, f: Forest)
    requires service != "" && FlatServices(f) && PortsOpen(service, f)
    requires OtherPorts(service, f, false) !! PortsOf(service, f)
    ensures ForService(Events(f), url, service) == Events(Scoped(service, url, f, Elsewhere))
  {
    PortsAreNamed(service, f);
    UniqueNamesConfined(service, PortsOf(service, f), f);
    RewritesOnlyItsServiceExactlyWhen(service, f);
    assert RewritesOnly(service, url, f);
  }

  // ----- Rewriting again, on any event stream

  lemma AddressEventIsInert(url: string, e: Event, service: string, t: Seeking, ports: set<string>, s: Rewriting)
    ensures var w := AddressEvent(url, e);
      && SeekState(service, t, w) == SeekState(service, t, e) && SeekFinds(t, w) == SeekFinds(t, e)
      && RewriteState(ports, s, w) == RewriteState(ports, s, e) && AddressEvent(url, w) == w
  {
  }

  lemma {:induction false} RewrittenSeeksTheSame(
      ports: set<string>, url: string, events: seq<Event>, s: Rewriting, service: string, t: Seeking)
    ensures PortsFrom(service, PortsRewritten(ports, url, events, s), t) == PortsFrom(service, events, t)
  {
    if events != [] {
      var e, out := events[0], PortsRewritten(ports, url, events, s);
      assert out[1..] == PortsRewritten(ports, url, events[1..], RewriteState(ports, s, e));
      AddressEventIsInert(url, e, service, t, ports, s);
      RewrittenSeeksTheSame(ports, url, events[1..], RewriteState(ports, s, e), service, SeekState(service, t, e));
    }
  }

  lemma {:induction false} RewrittenTwice(ports: set<string>, url: string, events: seq<Event>, s: Rewriting)
    ensures var once := PortsRewritten(ports, url, events, s); PortsRewritten(ports, url, once, s) == once
  {
    if events != [] {
      var e, out := events[0], PortsRewritten(ports, url, events, s);
      assert out[1..] == PortsRewritten(ports, url, events[1..], RewriteState(ports, s, e));
      AddressEventIsInert(url, e, "", Seeking(false, 0), ports, s);
      RewrittenTwice(ports, url, events[1..], RewriteState(ports, s, e));
    }
  }

  lemma {:induction false} AllTwice(url: string, events: seq<Event>)
    ensures AllFrom(url, AllFrom(url, events)) == AllFrom(url, events)
  {
    if events != [] {
      AddressEventIsInert(url, events[0], "", Seeking(false, 0), {}, Rewriting(false, 0));
      AllTwice(url, events[1..]);
    }
  }

  /** Rewriting again changes nothing, on any event stream. */
  lemma ServiceRewriteIsIdempotent(events: seq<Event>, url: string, service: string)
    ensures var once := ForService(events, url, service); ForService(once, url, service) == once
  {
    if service == "" {
      AllTwice(url, events);
    } else {
      var ports := PortsFrom(service, events, Seeking(false, 0));
      RewrittenSeeksTheSame(ports, url, events, Rewriting(false, 0), service, Seeking(false, 0));
      RewrittenTwice(ports, url, events, Rewriting(false, 0));
    }
  }

  // ----- For every service

  lemma {:induction false} RelocateKeepsTargets(ports: set<string>, url: string, f: Forest, inPort: bool,
      others: set<string>)
    ensures NoTargets(others, Relocate(ports, url, f, inPort)) == NoTargets(others, f)
  {
    match f
    case Nil =>
    case Elem(name, attrs, kids, next) =>
      RelocateKeepsTargets(ports, url, kids, inPort || IsTarget(ports, name, attrs), others);
      RelocateKeepsTargets(ports, url, next, inPort, others);
    case SelfClosed(_, _, next) => RelocateKeepsTargets(ports, url, next, inPort, others);
    case Leaf(_, next) => RelocateKeepsTargets(ports, url, next, inPort, others);
  }

  lemma RelocatedIsLocated(url: string, name: Name, attrs: seq<Attr>)
    ensures Located(name, AddressAttrs(url, name, attrs)) == Located(name, attrs)
  {
    var r := AddressAttrs(url, name, attrs);
    assert forall i :: 0 <= i < |attrs| ==> r[i].name == attrs[i].name;
  }

  lemma {:induction false} RelocateKeepsPlaced(
      ports: set<string>, url: string, f: Forest, inPort: bool, others: set<string>, place: Place, inOther: bool)
    ensures Placed(others, Relocate(ports, url, f, inPort), place, inOther) == Placed(others, f, place, inOther)
  {
    match f
    case Nil =>
    case Elem(name, attrs, kids, next) =>
      var target := IsTarget(others, name, attrs);
      assert name.local == "port" ==> name.local != "address";
      hide Located, NoTargets;
      RelocatedIsLocated(url, name, attrs);
      RelocateKeepsTargets(ports, url, kids, inPort || IsTarget(ports, name, attrs), others);
      RelocateKeepsPlaced(ports, url, kids, inPort || IsTarget(ports, name, attrs), others,
                          PlaceInside(target, place), inOther || target);
      RelocateKeepsPlaced(ports, url, next, inPort, others, PlacePast(others, target, kids, place), inOther);
    case SelfClosed(name, attrs, next) =>
      RelocatedIsLocated(url, name, attrs);
      RelocateKeepsPlaced(ports, url, next, inPort, others,
                          PlacePastEmpty(IsTarget(others, name, attrs), place), inOther);
    case Leaf(_, next) => RelocateKeepsPlaced(ports, url, next, inPort, others, place, inOther);
  }

  lemma {:induction false} RelocateKeepsServices(ports: set<string>, url: string, f: Forest, inPort: bool,
      service: string)
    ensures var g := Relocate(ports, url, f, inPort);
      && OwnPorts(g) == OwnPorts(f) && PortsOf(service, g) == PortsOf(service, f)
      && NoService(g) == NoService(f) && FlatServices(g) == FlatServices(f)
  {
    match f
    case Nil =>
    case Elem(name, attrs, kids, next) =>
      RelocateKeepsServices(ports, url, kids, inPort || IsTarget(ports, name, attrs), service);
      RelocateKeepsServices(ports, url, next, inPort, service);
    case SelfClosed(_, _, next) => RelocateKeepsServices(ports, url, next, inPort, service);
    case Leaf(_, next) => RelocateKeepsServices(ports, url, next, inPort, service);
  }

  lemma RelocateKeepsDocument(ports: set<string>, url: string, f: Forest, service: string)
    ensures var g := Relocate(ports, url, f, false);
      PortsOf(service, g) == PortsOf(service, f) && Plain(service, g) == Plain(service, f)
  {
    RelocateKeepsServices(ports, url, f, false, service);
    RelocateKeepsPlaced(ports, url, f, false, PortsOf(service, f), Outside, false);
  }

  lemma RelocatedTwice(u: string, v: string, name: Name, attrs: seq<Attr>)
    ensures AddressAttrs(u, name, AddressAttrs(v, name, attrs)) == AddressAttrs(u, name, attrs)
  {
  }

  /** Relocation does not touch what makes a port or a service. */
  lemma PortsStay(url: string, name: Name, attrs: seq<Attr>)
    ensures name.local == "port" || name.local == "service" ==> AddressAttrs(url, name, attrs) == attrs
  {
  }

  /** Relocating one set of ports after another relocates both. */
  lemma {:induction false} RelocateTwice(first: set<string>, second: set<string>, url: string, f: Forest, in1: bool,
      in2: bool)
    ensures Relocate(second, url, Relocate(first, url, f, in1), in2) == Relocate(first + second, url, f, in1 || in2)
  {
    hide AddressAttrs, NameAttr;
    match f
    case Nil =>
    case Elem(name, attrs, kids, next) =>
      RelocatedTwice(url, url, name, attrs);
      PortsStay(url, name, attrs);
      RelocateTwice(first, second, url, kids,
                    in1 || IsTarget(first, name, attrs), in2 || IsTarget(second, name, attrs));
      RelocateTwice(first, second, url, next, in1, in2);
    case SelfClosed(name, attrs, next) =>
      RelocatedTwice(url, url, name, attrs);
      PortsStay(url, name, attrs);
      RelocateTwice(first, second, url, next, in1, in2);
    case Leaf(_, next) => RelocateTwice(first, second, url, next, in1, in2);
  }

  function ForEachService(events: seq<Event>, url: string, services: seq<string>): seq<Event>
    decreases |services|
  {
    if services == [] then events else ForEachService(ForService(events, url, services[0]), url, services[1..])
  }

  function PortsOfAll(services: seq<string>, f: Forest): set<string>
  {
    if services == [] then {} else PortsOf(services[0], f) + PortsOfAll(services[1..], f)
  }

  lemma {:induction false} RelocateNothing(url: string, f: Forest)
    ensures Relocate({}, url, f, false) == f
  {
    match f
    case Nil =>
    case Elem(_, _, kids, next) => RelocateNothing(url, kids); RelocateNothing(url, next);
    case SelfClosed(_, _, next) => RelocateNothing(url, next);
    case Leaf(_, next) => RelocateNothing(url, next);
  }

  lemma {:induction false} SamePorts(services: seq<string>, f: Forest, g: Forest)
    requires forall s :: PortsOf(s, f) == PortsOf(s, g)
    ensures PortsOfAll(services, f) == PortsOfAll(services, g)
  {
    if services != [] { SamePorts(services[1..], f, g); }
  }

  /** Rewriting one service after another relocates the ports of all of them, in whatever order. */
  lemma {:induction false} EachServiceIsTree(services: seq<string>, url: string, f: Forest)
    requires forall i :: 0 <= i < |services| ==> Plain(services[i], f)
    ensures ForEachService(Events(f), url, services) == Events(Relocate(PortsOfAll(services, f), url, f, false))
  {
    if services == [] {
      RelocateNothing(url, f);
    } else {
      var ports := PortsOf(services[0], f);
      var g := Relocate(ports, url, f, false);
      ServiceRewriteIsTree(services[0], url, f);
      forall s ensures PortsOf(s, g) == PortsOf(s, f) && Plain(s, g) == Plain(s, f) {
        RelocateKeepsDocument(ports, url, f, s);
      }
      EachServiceIsTree(services[1..], url, g);
      SamePorts(services[1..], f, g);
      RelocateTwice(ports, PortsOfAll(services[1..], f), url, f, false, false);
    }
  }

  /** Every address with a location lies below one of these ports. */
  predicate Covered(ports: set<string>, f: Forest, inPort: bool)
  {
    match f
    case Nil => true
    case Elem(name, attrs, kids, next) =>
      && (inPort || !Located(name, attrs))
      && Covered(ports, kids, inPort || IsTarget(ports, name, attrs)) && Covered(ports, next, inPort)
    case SelfClosed(name, attrs, next) => (inPort || !Located(name, attrs)) && Covered(ports, next, inPort)
    case Leaf(_, next) => Covered(ports, next, inPort)
  }

  lemma {:induction false} CoveredExactlyWhen(ports: set<string>, f: Forest, inPort: bool, u: string, v: string)
    requires u != v
    ensures (Relocate(ports, u, f, inPort) == AllRelocated(u, f) && Relocate(ports, v, f, inPort) == AllRelocated(v, f))
            <==> Covered(ports, f, inPort)
  {
    match f
    case Nil =>
    case Elem(name, attrs, kids, next) =>
      RelocatedSameExactlyWhen(name, attrs, u, v);
      CoveredExactlyWhen(ports, kids, inPort || IsTarget(ports, name, attrs), u, v);
      CoveredExactlyWhen(ports, next, inPort, u, v);
    case SelfClosed(name, attrs, next) =>
      RelocatedSameExactlyWhen(name, attrs, u, v);
      CoveredExactlyWhen(ports, next, inPort, u, v);
    case Leaf(_, next) => CoveredExactlyWhen(ports, next, inPort, u, v);
  }

  predicate EachIsAll(services: seq<string>, url: string, f: Forest)
  {
    ForEachService(Events(f), url, services) == AllFrom(url, Events(f))
  }

  /**
   * Rewriting service by service, in any order, comes to rewriting every address,
   * exactly when every located address lies below a port of one of the services.
   */
  lemma EachServiceIsAllExactlyWhen(services: seq<string>, f: Forest)
    requires forall i :: 0 <= i < |services| ==> Plain(services[i], f)
    ensures (forall url :: EachIsAll(services, url, f)) <==> Covered(PortsOfAll(services, f), f, false)
  {
    var ports := PortsOfAll(services, f);
    forall url ensures EachIsAll(services, url, f) <==> Relocate(ports, url, f, false) == AllRelocated(url, f) {
      EachServiceIsTree(services, url, f);
      AllFromIsTree(url, f, []);
      if EachIsAll(services, url, f) {
        EventsThenInjective(Relocate(ports, url, f, false), AllRelocated(url, f), [], []);
      }
    }
    if Covered(ports, f, false) {
      forall url ensures EachIsAll(services, url, f) {
        CoveredExactlyWhen(ports, f, false, url, url + "/");
      }
    }
    if forall url :: EachIsAll(services, url, f) {
      assert EachIsAll(services, "a", f) && EachIsAll(services, "b", f);
      CoveredExactlyWhen(ports, f, false, "a", "b");
    }
  }
}
