/** Building the dispatch table and routing by it (src/dispatch.rs). */
module Dispatch {
  import opened Wrappers
  import opened SchemaTypes
  import opened WsdlTypes

  /** An operation as some binding offers it. */
  datatype BoundOp = BoundOp(name: string, soapAction: string, style: Style, rpcNamespace: Option<string>)

  /** An order a hash map may be iterated in. */
  ghost predicate Enumerates(order: seq<string>, keys: set<string>)
  {
    (forall k :: k in order <==> k in keys) && forall i, j :: 0 <= i < j < |order| ==> order[i] != order[j]
  }

  // ----- collect_ops_for_service

  /** Only an RPC operation has a namespace of its own. */
  function Bound(def: Definition, style: Style, op: BindingOperation): BoundOp
  {
    BoundOp(op.name, op.soapAction, style,
            if style == DocumentStyle then None
            else if op.bodyNamespace.Some? then op.bodyNamespace else Some(def.targetNamespace))
  }

  function BindingOps(def: Definition, style: Style, ops: seq<BindingOperation>): seq<BoundOp>
  {
    if ops == [] then [] else [Bound(def, style, ops[0])] + BindingOps(def, style, ops[1..])
  }

  function PortOps(def: Definition, ports: seq<Port>): seq<BoundOp>
  {
    if ports == [] then [] else
      var b := ports[0].binding.local;
      (if b in def.bindings then BindingOps(def, def.bindings[b].style, def.bindings[b].operations) else [])
      + PortOps(def, ports[1..])
  }

  function ServiceOps(def: Definition, services: seq<string>): seq<BoundOp>
    requires forall s :: s in services ==> s in def.services
  {
    if services == [] then [] else PortOps(def, def.services[services[0]].ports) + ServiceOps(def, services[1..])
  }

  function AllBindingOps(def: Definition, bindings: seq<string>): seq<BoundOp>
    requires forall b :: b in bindings ==> b in def.bindings
  {
    if bindings == [] then [] else
      BindingOps(def, def.bindings[bindings[0]].style, def.bindings[bindings[0]].operations)
      + AllBindingOps(def, bindings[1..])
  }

  predicate Known(def: Definition, services: seq<string>, bindings: seq<string>)
  {
    (forall s :: s in services ==> s in def.services) && forall b :: b in bindings ==> b in def.bindings
  }

  /** Everything the service offers (every service, if none is named), repetitions included. */
  function OpsFound(def: Definition, service: Option<string>, services: seq<string>, bindings: seq<string>)
    : seq<BoundOp>
    requires Known(def, services, bindings)
  {
    if service.Some? then
      if service.value in def.services then PortOps(def, def.services[service.value].ports) else []
    else
      var found := ServiceOps(def, services);
      if found == [] then AllBindingOps(def, bindings) else found
  }

  function Dedupe(ops: seq<BoundOp>, seen: set<string>): seq<BoundOp>
  {
    if ops == [] then []
    else if ops[0].name in seen then Dedupe(ops[1..], seen)
    else [ops[0]] + Dedupe(ops[1..], seen + {ops[0].name})
  }

  lemma PortHead(def: Definition, ports: seq<Port>, i: nat)
    requires i < |ports|
    ensures var b := ports[i].binding.local;
      PortOps(def, ports[i..])
      == (if b in def.bindings then BindingOps(def, def.bindings[b].style, def.bindings[b].operations) else [])
         + PortOps(def, ports[i + 1..])
  {
    assert ports[i..][1..] == ports[i + 1..];
  }

  lemma ServiceHead(def: Definition, services: seq<string>, i: nat)
    requires i < |services| && forall s :: s in services ==> s in def.services
    ensures ServiceOps(def, services[i..])
            == PortOps(def, def.services[services[i]].ports) + ServiceOps(def, services[i + 1..])
  {
    assert services[i..][1..] == services[i + 1..];
  }

  lemma BindingHead(def: Definition, bindings: seq<string>, i: nat)
    requires i < |bindings| && forall b :: b in bindings ==> b in def.bindings
    ensures AllBindingOps(def, bindings[i..])
            == BindingOps(def, def.bindings[bindings[i]].style, def.bindings[bindings[i]].operations)
               + AllBindingOps(def, bindings[i + 1..])
  {
    assert bindings[i..][1..] == bindings[i + 1..];
  }

  lemma DedupeHead(ops: seq<BoundOp>, i: nat, seen: set<string>)
    requires i < |ops|
    ensures Dedupe(ops[i..], seen)
            == if ops[i].name in seen then Dedupe(ops[i + 1..], seen)
               else [ops[i]] + Dedupe(ops[i + 1..], seen + {ops[i].name})
  {
    assert ops[i..][1..] == ops[i + 1..];
  }

  lemma NothingFound(def: Definition, seen: set<string>)
    ensures PortOps(def, []) == ServiceOps(def, []) == AllBindingOps(def, []) == Dedupe([], seen) == []
  {
  }

  method AddBinding(def: Definition, name: string, found: seq<BoundOp>) returns (ops: seq<BoundOp>)
    requires name in def.bindings
    ensures ops == found + BindingOps(def, def.bindings[name].style, def.bindings[name].operations)
  {
    var binding := def.bindings[name];
    ops := found;
    assert binding.operations[0..] == binding.operations;
    for i := 0 to |binding.operations|
      invariant ops + BindingOps(def, binding.style, binding.operations[i..])
             == found + BindingOps(def, binding.style, binding.operations)
    {
      assert binding.operations[i..][1..] == binding.operations[i + 1..];
      ops := ops + [Bound(def, binding.style, binding.operations[i])];
    }
    assert ops + [] == ops;
  }

  method AddPorts(def: Definition, ports: seq<Port>, found: seq<BoundOp>) returns (ops: seq<BoundOp>)
    ensures ops == found + PortOps(def, ports)
  {
    hide PortOps, BindingOps;
    ops := found;
    assert ports[0..] == ports;
    for i := 0 to |ports|
      invariant ops + PortOps(def, ports[i..]) == found + PortOps(def, ports)
    {
      PortHead(def, ports, i);
      if ports[i].binding.local in def.bindings {
        ops := AddBinding(def, ports[i].binding.local, ops);
      }
    }
    NothingFound(def, {});
    assert ports[|ports|..] == [] && ops + [] == ops;
  }

  method AddServices(def: Definition, services: seq<string>) returns (ops: seq<BoundOp>)
    requires forall s :: s in services ==> s in def.services
    ensures ops == ServiceOps(def, services)
  {
    hide ServiceOps, PortOps;
    ops := [];
    assert services[0..] == services;
    for i := 0 to |services|
      invariant ops + ServiceOps(def, services[i..]) == ServiceOps(def, services)
    {
      ServiceHead(def, services, i);
      ops := AddPorts(def, def.services[services[i]].ports, ops);
    }
    NothingFound(def, {});
    assert services[|services|..] == [] && ops + [] == ops;
  }

  method AddAllBindings(def: Definition, bindings: seq<string>) returns (ops: seq<BoundOp>)
    requires forall b :: b in bindings ==> b in def.bindings
    ensures ops == AllBindingOps(def, bindings)
  {
    hide AllBindingOps, BindingOps;
    ops := [];
    assert bindings[0..] == bindings;
    for i := 0 to |bindings|
      invariant ops + AllBindingOps(def, bindings[i..]) == AllBindingOps(def, bindings)
    {
      BindingHead(def, bindings, i);
      ops := AddBinding(def, bindings[i], ops);
    }
    NothingFound(def, {});
    assert bindings[|bindings|..] == [] && ops + [] == ops;
  }

  method CollectOpsForService(def: Definition, service: Option<string>, services: seq<string>, bindings: seq<string>)
    returns (unique: seq<BoundOp>)
    requires Known(def, services, bindings)
    ensures unique == Dedupe(OpsFound(def, service, services, bindings), {})
  {
    hide Dedupe, PortOps, ServiceOps, AllBindingOps;
    var found := [];
    if service.Some? {
      if service.value in def.services {
        found := AddPorts(def, def.services[service.value].ports, found);
      }
    } else {
      found := AddServices(def, services);
      if found == [] {
        found := AddAllBindings(def, bindings);
      }
    }
    assert found == OpsFound(def, service, services, bindings);
    unique := [];
    var seen := {};
    assert found[0..] == found;
    for i := 0 to |found|
      invariant unique + Dedupe(found[i..], seen) == Dedupe(found, {})
    {
      DedupeHead(found, i, seen);
      if found[i].name !in seen {
        seen := seen + {found[i].name};
        unique := unique + [found[i]];
      }
    }
    NothingFound(def, seen);
    assert found[|found|..] == [] && unique + [] == unique;
  }

  // ----- What is collected

  predicate Named(ops: seq<BoundOp>, name: string) { exists i :: 0 <= i < |ops| && ops[i].name == name }

  predicate BindingOffers(b: WsdlTypes.Binding, name: string)
  {
    exists i :: 0 <= i < |b.operations| && b.operations[i].name == name
  }

  predicate PortOffers(def: Definition, port: Port, name: string)
  {
    port.binding.local in def.bindings && BindingOffers(def.bindings[port.binding.local], name)
  }

  predicate ServiceOffers(def: Definition, service: Service, name: string)
  {
    exists i :: 0 <= i < |service.ports| && PortOffers(def, service.ports[i], name)
  }

  predicate SomeServiceOffers(def: Definition, name: string)
  {
    exists s :: s in def.services && ServiceOffers(def, def.services[s], name)
  }

  /** An operation is offered through a port of the service; if no service offers any, through any binding at all. */
  ghost predicate Offered(def: Definition, service: Option<string>, name: string)
  {
    if service.Some? then service.value in def.services && ServiceOffers(def, def.services[service.value], name)
    else
      || SomeServiceOffers(def, name)
      || ((forall n :: !SomeServiceOffers(def, n))
          && exists b :: b in def.bindings && BindingOffers(def.bindings[b], name))
  }

  lemma NamedEither(a: seq<BoundOp>, b: seq<BoundOp>, name: string)
    ensures Named(a + b, name) <==> Named(a, name) || Named(b, name)
  {
    if Named(a, name) {
      var i :| 0 <= i < |a| && a[i].name == name;
      assert (a + b)[i].name == name;
    }
    if Named(b, name) {
      var i :| 0 <= i < |b| && b[i].name == name;
      assert (a + b)[|a| + i].name == name;
    }
  }

  lemma {:induction false} BindingOpsNamed(def: Definition, style: Style, ops: seq<BindingOperation>, name: string)
    ensures Named(BindingOps(def, style, ops), name) <==> exists i :: 0 <= i < |ops| && ops[i].name == name
  {
    if ops != [] {
      NamedEither([Bound(def, style, ops[0])], BindingOps(def, style, ops[1..]), name);
      BindingOpsNamed(def, style, ops[1..], name);
      assert Named([Bound(def, style, ops[0])], name) <==> ops[0].name == name by {
        assert [Bound(def, style, ops[0])][0].name == ops[0].name;
      }
      if i :| 0 <= i < |ops[1..]| && ops[1..][i].name == name { assert ops[i + 1].name == name; }
      if i :| 1 <= i < |ops| && ops[i].name == name { assert ops[1..][i - 1].name == name; }
    }
  }

  lemma {:induction false} PortOpsNamed(def: Definition, ports: seq<Port>, name: string)
    ensures Named(PortOps(def, ports), name) <==> exists i :: 0 <= i < |ports| && PortOffers(def, ports[i], name)
  {
    if ports != [] {
      var b := ports[0].binding.local;
      var own := if b in def.bindings then BindingOps(def, def.bindings[b].style, def.bindings[b].operations) else [];
      NamedEither(own, PortOps(def, ports[1..]), name);
      if b in def.bindings { BindingOpsNamed(def, def.bindings[b].style, def.bindings[b].operations, name); }
      PortOpsNamed(def, ports[1..], name);
      assert Named(own, name) <==> PortOffers(def, ports[0], name);
      if i :| 0 <= i < |ports[1..]| && PortOffers(def, ports[1..][i], name) {
        assert PortOffers(def, ports[i + 1], name);
      }
      if i :| 1 <= i < |ports| && PortOffers(def, ports[i], name) {
        assert PortOffers(def, ports[1..][i - 1], name);
      }
    }
  }

  lemma {:induction false} ServiceOpsNamed(def: Definition, services: seq<string>, name: string)
    requires forall s :: s in services ==> s in def.services
    ensures Named(ServiceOps(def, services), name) <==>
            exists s :: s in services && ServiceOffers(def, def.services[s], name)
  {
    if services != [] {
      var own := PortOps(def, def.services[services[0]].ports);
      NamedEither(own, ServiceOps(def, services[1..]), name);
      PortOpsNamed(def, def.services[services[0]].ports, name);
      ServiceOpsNamed(def, services[1..], name);
      assert services == [services[0]] + services[1..];
    }
  }

  lemma {:induction false} AllBindingOpsNamed(def: Definition, bindings: seq<string>, name: string)
    requires forall b :: b in bindings ==> b in def.bindings
    ensures Named(AllBindingOps(def, bindings), name) <==>
            exists b :: b in bindings && BindingOffers(def.bindings[b], name)
  {
    if bindings != [] {
      var first := def.bindings[bindings[0]];
      NamedEither(BindingOps(def, first.style, first.operations), AllBindingOps(def, bindings[1..]), name);
      BindingOpsNamed(def, first.style, first.operations, name);
      AllBindingOpsNamed(def, bindings[1..], name);
      assert bindings == [bindings[0]] + bindings[1..];
    }
  }

  /** Where an operation first appears. */
  function FirstAt(ops: seq<BoundOp>, name: string): nat
  {
    if ops == [] || ops[0].name == name then 0 else 1 + FirstAt(ops[1..], name)
  }

  lemma {:induction false} FirstAtIsFirst(ops: seq<BoundOp>, name: string)
    ensures var i := FirstAt(ops, name);
      && i <= |ops| && (i < |ops| <==> Named(ops, name)) && (i < |ops| ==> ops[i].name == name)
      && forall j :: 0 <= j < i ==> ops[j].name != name
  {
    if ops != [] && ops[0].name != name {
      FirstAtIsFirst(ops[1..], name);
      assert forall j :: 0 < j < |ops| ==> ops[j] == ops[1..][j - 1];
      NamedHead(ops, name);
    }
  }

  lemma FirstAtNext(ops: seq<BoundOp>, name: string)
    requires ops != [] && ops[0].name != name
    ensures FirstAt(ops, name) == 1 + FirstAt(ops[1..], name)
  {
  }

  lemma NamedHead(ops: seq<BoundOp>, name: string)
    requires ops != []
    ensures Named(ops, name) <==> ops[0].name == name || Named(ops[1..], name)
  {
    NamedEither([ops[0]], ops[1..], name);
    assert ops == [ops[0]] + ops[1..];
    assert [ops[0]][0].name == ops[0].name;
  }

  lemma {:induction false} DedupeNames(ops: seq<BoundOp>, seen: set<string>, name: string)
    ensures Named(Dedupe(ops, seen), name) <==> Named(ops, name) && name !in seen
  {
    if ops != [] {
      NamedHead(ops, name);
      var head := ops[0].name;
      if head in seen {
        DedupeNames(ops[1..], seen, name);
      } else {
        DedupeNames(ops[1..], seen + {head}, name);
        var kept := Dedupe(ops, seen);
        assert kept[1..] == Dedupe(ops[1..], seen + {head});
        NamedHead(kept, name);
      }
    }
  }

  /** An operation kept is the first of its name. */
  lemma {:induction false} KeptIsFirst(ops: seq<BoundOp>, seen: set<string>, k: nat)
    requires k < |Dedupe(ops, seen)|
    ensures var op := Dedupe(ops, seen)[k];
      op.name !in seen && FirstAt(ops, op.name) < |ops| && op == ops[FirstAt(ops, op.name)]
  {
    var head, kept := ops[0].name, Dedupe(ops, seen);
    if head in seen {
      KeptIsFirst(ops[1..], seen, k);
      FirstAtNext(ops, kept[k].name);
    } else if k > 0 {
      KeptIsFirst(ops[1..], seen + {head}, k - 1);
      FirstAtNext(ops, kept[k].name);
    }
  }

  lemma DedupeUnfolds(ops: seq<BoundOp>, seen: set<string>)
    requires ops != []
    ensures Dedupe(ops, seen)
            == if ops[0].name in seen then Dedupe(ops[1..], seen)
               else [ops[0]] + Dedupe(ops[1..], seen + {ops[0].name})
    ensures FirstAt(ops, ops[0].name) == 0
  {
  }

  lemma {:induction false} KeptInOrder(ops: seq<BoundOp>, seen: set<string>, k: nat, l: nat)
    requires k < l < |Dedupe(ops, seen)|
    ensures FirstAt(ops, Dedupe(ops, seen)[k].name) < FirstAt(ops, Dedupe(ops, seen)[l].name)
  {
    assert ops != [];
    hide Dedupe, FirstAt;
    DedupeUnfolds(ops, seen);
    var kept := Dedupe(ops, seen);
    var head, rest := ops[0].name, ops[1..];
    var skipped, seen' := if head in seen then 0 else 1, if head in seen then seen else seen + {head};
    var tail := Dedupe(rest, seen');
    assert kept[l] == tail[l - skipped] && (k >= skipped ==> kept[k] == tail[k - skipped]);
    KeptIsFirst(rest, seen', l - skipped);
    FirstAtNext(ops, kept[l].name);
    if k >= skipped {
      KeptIsFirst(rest, seen', k - skipped);
      KeptInOrder(rest, seen', k - skipped, l - skipped);
      FirstAtNext(ops, kept[k].name);
    }
  }

  /** Deduplication keeps the first operation of each name, and the order. */
  lemma DedupeKeepsFirsts(ops: seq<BoundOp>)
    ensures var kept := Dedupe(ops, {});
      && (forall n :: Named(kept, n) <==> Named(ops, n))
      && (forall k :: 0 <= k < |kept| ==>
            FirstAt(ops, kept[k].name) < |ops| && kept[k] == ops[FirstAt(ops, kept[k].name)])
      && (forall k, l :: 0 <= k < l < |kept| ==> FirstAt(ops, kept[k].name) < FirstAt(ops, kept[l].name))
  {
    hide Dedupe, FirstAt, Named;
    var kept := Dedupe(ops, {});
    forall n ensures Named(kept, n) <==> Named(ops, n) { DedupeNames(ops, {}, n); }
    forall k | 0 <= k < |kept|
      ensures FirstAt(ops, kept[k].name) < |ops| && kept[k] == ops[FirstAt(ops, kept[k].name)]
    {
      KeptIsFirst(ops, {}, k);
    }
    forall k, l | 0 <= k < l < |kept| ensures FirstAt(ops, kept[k].name) < FirstAt(ops, kept[l].name) {
      KeptInOrder(ops, {}, k, l);
    }
  }

  /** The operations collected are exactly those offered, whatever order the maps are iterated in. */
  lemma CollectedExactlyWhenOffered(
      def: Definition, service: Option<string>, services: seq<string>, bindings: seq<string>, name: string)
    requires Enumerates(services, def.services.Keys) && Enumerates(bindings, def.bindings.Keys)
    ensures Named(Dedupe(OpsFound(def, service, services, bindings), {}), name) <==> Offered(def, service, name)
  {
    DedupeKeepsFirsts(OpsFound(def, service, services, bindings));
    if service.Some? {
      if service.value in def.services { PortOpsNamed(def, def.services[service.value].ports, name); }
    } else {
      var found := ServiceOps(def, services);
      forall n ensures Named(found, n) <==> SomeServiceOffers(def, n) {
        ServiceOpsNamed(def, services, n);
      }
      if found == [] {
        AllBindingOpsNamed(def, bindings, name);
      } else {
        assert Named(found, found[0].name);
      }
    }
  }

  // ----- Where a collected operation comes from

  /** The operation is one of the binding's: its name and SOAP action, the binding's style, and for RPC a namespace. */
  predicate Offers(def: Definition, b: WsdlTypes.Binding, op: BoundOp)
  {
    exists i :: 0 <= i < |b.operations| && FromBinding(def, b.style, b.operations[i], op)
  }

  predicate FromBinding(def: Definition, style: Style, from: BindingOperation, op: BoundOp)
  {
    && op.name == from.name && op.soapAction == from.soapAction && op.style == style
    && match style
       case DocumentStyle => op.rpcNamespace == None
       case RpcStyle =>
         if from.bodyNamespace.Some? then op.rpcNamespace == from.bodyNamespace
         else op.rpcNamespace == Some(def.targetNamespace)
  }

  /** A binding that some of these ports refer to by its local name offers the operation. */
  predicate PortsOffer(def: Definition, ports: seq<Port>, op: BoundOp)
  {
    exists i :: 0 <= i < |ports| && ports[i].binding.local in def.bindings
                && Offers(def, def.bindings[ports[i].binding.local], op)
  }

  lemma {:induction false} BindingOpsOffered(def: Definition, b: WsdlTypes.Binding, ops: seq<BindingOperation>)
    requires forall o :: o in ops ==> o in b.operations
    ensures forall op :: op in BindingOps(def, b.style, ops) ==> Offers(def, b, op)
  {
    if ops != [] {
      BindingOpsOffered(def, b, ops[1..]);
      assert ops[0] in b.operations;
      var i :| 0 <= i < |b.operations| && b.operations[i] == ops[0];
      assert FromBinding(def, b.style, b.operations[i], Bound(def, b.style, ops[0]));
    }
  }

  lemma {:induction false} PortOpsOffered(def: Definition, ports: seq<Port>)
    ensures forall op :: op in PortOps(def, ports) ==> PortsOffer(def, ports, op)
  {
    if ports != [] {
      var local, rest := ports[0].binding.local, ports[1..];
      PortOpsOffered(def, rest);
      if local in def.bindings {
        BindingOpsOffered(def, def.bindings[local], def.bindings[local].operations);
      }
      hide Offers, BindingOps;
      forall op | op in PortOps(def, ports) ensures PortsOffer(def, ports, op) {
        if op in PortOps(def, rest) {
          var i :| 0 <= i < |rest| && rest[i].binding.local in def.bindings
                   && Offers(def, def.bindings[rest[i].binding.local], op);
          assert ports[i + 1] == rest[i];
        }
      }
    }
  }

  lemma {:induction false} ServiceOpsOffered(def: Definition, services: seq<string>)
    requires forall s :: s in services ==> s in def.services
    ensures forall op :: op in ServiceOps(def, services) ==>
              exists s :: s in services && PortsOffer(def, def.services[s].ports, op)
  {
    if services != [] {
      ServiceOpsOffered(def, services[1..]);
      PortOpsOffered(def, def.services[services[0]].ports);
      assert services == [services[0]] + services[1..];
    }
  }

  lemma {:induction false} AllBindingOpsOffered(def: Definition, bindings: seq<string>)
    requires forall b :: b in bindings ==> b in def.bindings
    ensures forall op :: op in AllBindingOps(def, bindings) ==>
              exists b :: b in bindings && Offers(def, def.bindings[b], op)
  {
    if bindings != [] {
      var first := def.bindings[bindings[0]];
      AllBindingOpsOffered(def, bindings[1..]);
      BindingOpsOffered(def, first, first.operations);
      assert bindings == [bindings[0]] + bindings[1..];
    }
  }

  /** A binding that a port of some service refers to, or any binding if there is none such, offers the operation. */
  ghost predicate OfferedSomewhere(def: Definition, service: Option<string>, op: BoundOp)
  {
    if service.Some? then service.value in def.services && PortsOffer(def, def.services[service.value].ports, op)
    else
      || (exists s :: s in def.services && PortsOffer(def, def.services[s].ports, op))
      || (exists b :: b in def.bindings && Offers(def, def.bindings[b], op))
  }

  /** Every operation collected has the name, SOAP action, style and namespace a binding of the service gives it. */
  lemma CollectedAreOffered(
      def: Definition, service: Option<string>, services: seq<string>, bindings: seq<string>, op: BoundOp)
    requires Enumerates(services, def.services.Keys) && Enumerates(bindings, def.bindings.Keys)
    requires op in Dedupe(OpsFound(def, service, services, bindings), {})
    ensures OfferedSomewhere(def, service, op)
  {
    var found := OpsFound(def, service, services, bindings);
    KeptExactlyWhenFirst(found, op);
    FirstNamedIsAmong(found, op.name);
    hide Dedupe, FirstNamed, PortsOffer, Offers;
    if service.Some? {
      if service.value in def.services { PortOpsOffered(def, def.services[service.value].ports); }
    } else {
      ServiceOpsOffered(def, services);
      AllBindingOpsOffered(def, bindings);
    }
  }

  lemma {:induction false} FirstNamedIsAmong(ops: seq<BoundOp>, name: string)
    ensures FirstNamed(ops, name).Some? ==> FirstNamed(ops, name).value in ops
  {
    if ops != [] {
      FirstNamedIsAmong(ops[1..], name);
    }
  }

  // ----- What depends on the order of iteration

  /** The first of the keys, in this order, to have something of its own. */
  function FirstOf<X>(order: seq<string>, own: string -> Option<X>): Option<X>
  {
    if order == [] then None else if own(order[0]).Some? then own(order[0]) else FirstOf(order[1..], own)
  }

  /** Whatever keys have something of their own have the same. */
  ghost predicate Agree<X>(keys: set<string>, own: string -> Option<X>)
  {
    forall p, q :: p in keys && q in keys && own(p).Some? && own(q).Some? ==> own(p) == own(q)
  }

  ghost predicate SameForAllOrders<X>(keys: set<string>, own: string -> Option<X>)
  {
    forall o1, o2 :: Enumerates(o1, keys) && Enumerates(o2, keys) ==> FirstOf(o1, own) == FirstOf(o2, own)
  }

  lemma {:induction false} FirstIsSomeones<X>(order: seq<string>, own: string -> Option<X>)
    ensures FirstOf(order, own).Some? ==> exists k :: k in order && own(k) == FirstOf(order, own)
    ensures FirstOf(order, own).None? ==> forall k :: k in order ==> own(k).None?
  {
    if order != [] {
      FirstIsSomeones(order[1..], own);
      assert order == [order[0]] + order[1..] && order[0] in order;
    }
  }

  lemma {:induction false} SomeOrder(keys: set<string>) returns (order: seq<string>)
    ensures Enumerates(order, keys)
    decreases keys
  {
    if keys == {} {
      order := [];
    } else {
      var k :| k in keys;
      var rest := SomeOrder(keys - {k});
      order := [k] + rest;
    }
  }

  lemma OrderFrom(keys: set<string>, k: string) returns (order: seq<string>)
    requires k in keys
    ensures Enumerates(order, keys) && order != [] && order[0] == k
  {
    var rest := SomeOrder(keys - {k});
    order := [k] + rest;
  }

  /** The first does not depend on the order exactly when all agree. */
  lemma SameForAllOrdersExactlyWhen<X>(keys: set<string>, own: string -> Option<X>)
    ensures SameForAllOrders(keys, own) <==> Agree(keys, own)
  {
    if Agree(keys, own) {
      forall o1, o2 | Enumerates(o1, keys) && Enumerates(o2, keys) ensures FirstOf(o1, own) == FirstOf(o2, own) {
        FirstIsSomeones(o1, own);
        FirstIsSomeones(o2, own);
      }
    } else {
      var p, q :| p in keys && q in keys && own(p).Some? && own(q).Some? && own(p) != own(q);
      var o1 := OrderFrom(keys, p);
      var o2 := OrderFrom(keys, q);
      assert FirstOf(o1, own) != FirstOf(o2, own);
    }
  }

  function FirstNamed(ops: seq<BoundOp>, name: string): Option<BoundOp>
  {
    if ops == [] then None else if ops[0].name == name then Some(ops[0]) else FirstNamed(ops[1..], name)
  }

  lemma {:induction false} FirstNamedBoth(a: seq<BoundOp>, b: seq<BoundOp>, name: string)
    ensures FirstNamed(a + b, name) == if FirstNamed(a, name).Some? then FirstNamed(a, name) else FirstNamed(b, name)
  {
    if a == [] {
      assert a + b == b;
    } else {
      assert (a + b)[1..] == a[1..] + b;
      FirstNamedBoth(a[1..], b, name);
    }
  }

  lemma {:induction false} FirstNamedIsFirst(ops: seq<BoundOp>, name: string)
    ensures FirstNamed(ops, name)
            == if FirstAt(ops, name) < |ops| then Some(ops[FirstAt(ops, name)]) else None
    ensures FirstAt(ops, name) <= |ops|
    ensures FirstNamed(ops, name).Some? ==> FirstNamed(ops, name).value.name == name
  {
    if ops != [] && ops[0].name != name {
      FirstNamedIsFirst(ops[1..], name);
    }
  }

  /** The operation kept under a name is the first of that name. */
  lemma KeptExactlyWhenFirst(ops: seq<BoundOp>, op: BoundOp)
    ensures op in Dedupe(ops, {}) <==> FirstNamed(ops, op.name) == Some(op)
  {
    DedupeKeepsFirsts(ops);
    FirstNamedIsFirst(ops, op.name);
    FirstAtIsFirst(ops, op.name);
    hide Dedupe, FirstAt, FirstNamed;
    var kept := Dedupe(ops, {});
    if FirstNamed(ops, op.name) == Some(op) {
      assert Named(kept, op.name);
      var k :| 0 <= k < |kept| && kept[k].name == op.name;
      assert kept[k] == op;
    }
  }

  /** A service's own first operation of that name, and a binding's. */
  function ServiceOp(def: Definition, name: string): string -> Option<BoundOp>
  {
    s => if s in def.services then FirstNamed(PortOps(def, def.services[s].ports), name) else None
  }

  function BindingOp(def: Definition, name: string): string -> Option<BoundOp>
  {
    b => if b in def.bindings
         then FirstNamed(BindingOps(def, def.bindings[b].style, def.bindings[b].operations), name) else None
  }

  lemma {:induction false} ServiceOpsFirst(def: Definition, services: seq<string>, name: string)
    requires forall s :: s in services ==> s in def.services
    ensures FirstNamed(ServiceOps(def, services), name) == FirstOf(services, ServiceOp(def, name))
  {
    if services != [] {
      ServiceOpsFirst(def, services[1..], name);
      FirstNamedBoth(PortOps(def, def.services[services[0]].ports), ServiceOps(def, services[1..]), name);
    }
  }

  lemma {:induction false} AllBindingOpsFirst(def: Definition, bindings: seq<string>, name: string)
    requires forall b :: b in bindings ==> b in def.bindings
    ensures FirstNamed(AllBindingOps(def, bindings), name) == FirstOf(bindings, BindingOp(def, name))
  {
    if bindings != [] {
      var first := def.bindings[bindings[0]];
      AllBindingOpsFirst(def, bindings[1..], name);
      FirstNamedBoth(BindingOps(def, first.style, first.operations), AllBindingOps(def, bindings[1..]), name);
    }
  }

  /** Some service offers an operation. */
  ghost predicate ServicesOffer(def: Definition) { exists n :: SomeServiceOffers(def, n) }

  lemma NothingFoundExactlyWhen(def: Definition, services: seq<string>)
    requires Enumerates(services, def.services.Keys)
    ensures ServiceOps(def, services) == [] <==> !ServicesOffer(def)
  {
    var found := ServiceOps(def, services);
    forall n ensures Named(found, n) <==> SomeServiceOffers(def, n) {
      ServiceOpsNamed(def, services, n);
    }
    if found != [] {
      assert Named(found, found[0].name);
    }
  }

  /** The operation collected under a name when no service is named. */
  function CollectedOp(def: Definition, services: seq<string>, bindings: seq<string>, name: string): Option<BoundOp>
    requires Known(def, services, bindings)
  {
    FirstNamed(OpsFound(def, None, services, bindings), name)
  }

  ghost predicate CollectedAlike(def: Definition, name: string)
  {
    forall s1, s2, b1, b2 ::
      && Enumerates(s1, def.services.Keys) && Enumerates(s2, def.services.Keys)
      && Enumerates(b1, def.bindings.Keys) && Enumerates(b2, def.bindings.Keys) ==>
        CollectedOp(def, s1, b1, name) == CollectedOp(def, s2, b2, name)
  }

  lemma CollectedIsFirst(def: Definition, services: seq<string>, bindings: seq<string>, name: string)
    requires Enumerates(services, def.services.Keys) && Enumerates(bindings, def.bindings.Keys)
    ensures CollectedOp(def, services, bindings, name) ==
            if ServicesOffer(def) then FirstOf(services, ServiceOp(def, name))
            else FirstOf(bindings, BindingOp(def, name))
  {
    NothingFoundExactlyWhen(def, services);
    ServiceOpsFirst(def, services, name);
    AllBindingOpsFirst(def, bindings, name);
  }

  lemma ServicesDecide(def: Definition, name: string)
    requires ServicesOffer(def)
    ensures CollectedAlike(def, name) <==> SameForAllOrders(def.services.Keys, ServiceOp(def, name))
  {
    var some := SomeOrder(def.bindings.Keys);
    if CollectedAlike(def, name) {
      forall o1, o2 | Enumerates(o1, def.services.Keys) && Enumerates(o2, def.services.Keys)
        ensures FirstOf(o1, ServiceOp(def, name)) == FirstOf(o2, ServiceOp(def, name))
      {
        CollectedIsFirst(def, o1, some, name);
        CollectedIsFirst(def, o2, some, name);
        hide CollectedOp, ServicesOffer, FirstOf, ServiceOp, BindingOp, Enumerates;
      }
    }
    if SameForAllOrders(def.services.Keys, ServiceOp(def, name)) {
      forall s1, s2, b1, b2 |
        && Enumerates(s1, def.services.Keys) && Enumerates(s2, def.services.Keys)
        && Enumerates(b1, def.bindings.Keys) && Enumerates(b2, def.bindings.Keys)
        ensures CollectedOp(def, s1, b1, name) == CollectedOp(def, s2, b2, name)
      {
        CollectedIsFirst(def, s1, b1, name);
        CollectedIsFirst(def, s2, b2, name);
        hide CollectedOp, ServicesOffer, FirstOf, ServiceOp, BindingOp, Enumerates;
      }
    }
  }

  lemma BindingsDecide(def: Definition, name: string)
    requires !ServicesOffer(def)
    ensures CollectedAlike(def, name) <==> SameForAllOrders(def.bindings.Keys, BindingOp(def, name))
  {
    var some := SomeOrder(def.services.Keys);
    if CollectedAlike(def, name) {
      forall o1, o2 | Enumerates(o1, def.bindings.Keys) && Enumerates(o2, def.bindings.Keys)
        ensures FirstOf(o1, BindingOp(def, name)) == FirstOf(o2, BindingOp(def, name))
      {
        CollectedIsFirst(def, some, o1, name);
        CollectedIsFirst(def, some, o2, name);
        hide CollectedOp, ServicesOffer, FirstOf, ServiceOp, BindingOp, Enumerates;
      }
    }
    if SameForAllOrders(def.bindings.Keys, BindingOp(def, name)) {
      forall s1, s2, b1, b2 |
        && Enumerates(s1, def.services.Keys) && Enumerates(s2, def.services.Keys)
        && Enumerates(b1, def.bindings.Keys) && Enumerates(b2, def.bindings.Keys)
        ensures CollectedOp(def, s1, b1, name) == CollectedOp(def, s2, b2, name)
      {
        CollectedIsFirst(def, s1, b1, name);
        CollectedIsFirst(def, s2, b2, name);
        hide CollectedOp, ServicesOffer, FirstOf, ServiceOp, BindingOp, Enumerates;
      }
    }
  }

  /**
    Which operation is collected under a name, its style and SOAP action included, does not depend on the order of
    iteration exactly when the services that offer it, or else the bindings that do, offer the same.
   */
  lemma CollectedIsOrderIndependentExactlyWhen(def: Definition, name: string)
    ensures CollectedAlike(def, name) <==>
            if ServicesOffer(def) then Agree(def.services.Keys, ServiceOp(def, name))
            else Agree(def.bindings.Keys, BindingOp(def, name))
  {
    SameForAllOrdersExactlyWhen(def.services.Keys, ServiceOp(def, name));
    SameForAllOrdersExactlyWhen(def.bindings.Keys, BindingOp(def, name));
    hide *;
    if ServicesOffer(def) {
      ServicesDecide(def, name);
    } else {
      BindingsDecide(def, name);
    }
  }

  // ----- resolve_input_element

  function MessageElement(def: Definition, input: Option<QName>): Option<QName>
  {
    if input.None? || input.value.local !in def.messages then None
    else
      var parts := def.messages[input.value.local].parts;
      if parts == [] then None else parts[0].element
  }

  /** The input element of the first operation of that name, if there is one. */
  function OwnInput(def: Definition, ops: seq<Operation>, name: string): Option<Option<QName>>
  {
    if ops == [] then None
    else if ops[0].name == name then Some(MessageElement(def, ops[0].input))
    else OwnInput(def, ops[1..], name)
  }

  function InputElement(def: Definition, portTypes: seq<string>, name: string): Option<QName>
    requires forall p :: p in portTypes ==> p in def.portTypes
  {
    if portTypes == [] then None else
      var own := OwnInput(def, def.portTypes[portTypes[0]].operations, name);
      if own.Some? then own.value else InputElement(def, portTypes[1..], name)
  }

  method ResolveInputElement(def: Definition, portTypes: seq<string>, name: string) returns (r: Option<QName>)
    requires forall p :: p in portTypes ==> p in def.portTypes
    ensures r == InputElement(def, portTypes, name)
  {
    assert portTypes[0..] == portTypes;
    for i := 0 to |portTypes|
      invariant InputElement(def, portTypes[i..], name) == InputElement(def, portTypes, name)
    {
      assert portTypes[i..][1..] == portTypes[i + 1..];
      var ops := def.portTypes[portTypes[i]].operations;
      assert ops[0..] == ops;
      for j := 0 to |ops|
        invariant OwnInput(def, ops[j..], name) == OwnInput(def, ops, name)
      {
        assert ops[j..][1..] == ops[j + 1..];
        if ops[j].name == name {
          var input := ops[j].input;
          if input.None? || input.value.local !in def.messages {
            return None;
          }
          var message := def.messages[input.value.local];
          if message.parts == [] {
            return None;
          }
          return message.parts[0].element;
        }
      }
    }
    return None;
  }

  predicate DeclaresOp(p: PortType, name: string)
  {
    exists j :: 0 <= j < |p.operations| && p.operations[j].name == name
  }

  /** The element of the first part of the operation's input message, if there are such. */
  predicate TakesElement(def: Definition, op: Operation, element: Option<QName>)
  {
    match op.input
    case None => element == None
    case Some(message) =>
      if message.local in def.messages && |def.messages[message.local].parts| > 0
      then element == def.messages[message.local].parts[0].element
      else element == None
  }

  lemma {:induction false} OwnInputIs(def: Definition, ops: seq<Operation>, name: string)
    ensures OwnInput(def, ops, name).None? <==> forall j :: 0 <= j < |ops| ==> ops[j].name != name
    ensures OwnInput(def, ops, name).Some? ==>
      exists j :: 0 <= j < |ops| && ops[j].name == name && TakesElement(def, ops[j], OwnInput(def, ops, name).value)
                  && forall k :: 0 <= k < j ==> ops[k].name != name
  {
    if ops != [] {
      OwnInputIs(def, ops[1..], name);
      assert forall j :: 1 <= j < |ops| ==> ops[j] == ops[1..][j - 1];
      if ops[0].name == name {
        assert TakesElement(def, ops[0], MessageElement(def, ops[0].input));
      } else if OwnInput(def, ops, name).Some? {
        var j :| 0 <= j < |ops[1..]| && ops[1..][j].name == name
          && TakesElement(def, ops[1..][j], OwnInput(def, ops, name).value)
          && forall k :: 0 <= k < j ==> ops[1..][k].name != name;
        assert ops[j + 1] == ops[1..][j];
      }
    }
  }

  /** Position j of port type i is the first operation of that name in the order of visiting. */
  predicate IsFirstNamed(def: Definition, portTypes: seq<string>, name: string, i: nat, j: nat)
    requires forall p :: p in portTypes ==> p in def.portTypes
  {
    && i < |portTypes| && j < |def.portTypes[portTypes[i]].operations|
    && def.portTypes[portTypes[i]].operations[j].name == name
    && (forall k :: 0 <= k < j ==> def.portTypes[portTypes[i]].operations[k].name != name)
    && (forall k :: 0 <= k < i ==> !DeclaresOp(def.portTypes[portTypes[k]], name))
  }

  /** The input element is that of the first operation of that name: the element of its message's first part. */
  lemma {:induction false} InputElementIs(def: Definition, portTypes: seq<string>, name: string)
    requires forall p :: p in portTypes ==> p in def.portTypes
    ensures (forall k :: 0 <= k < |portTypes| ==> !DeclaresOp(def.portTypes[portTypes[k]], name)) ==>
              InputElement(def, portTypes, name) == None
    ensures forall i: nat, j: nat :: IsFirstNamed(def, portTypes, name, i, j) ==>
              TakesElement(def, def.portTypes[portTypes[i]].operations[j], InputElement(def, portTypes, name))
  {
    if portTypes != [] {
      var first, rest := def.portTypes[portTypes[0]], portTypes[1..];
      OwnInputIs(def, first.operations, name);
      InputElementIs(def, rest, name);
      hide OwnInput, TakesElement;
      assert forall k :: 1 <= k < |portTypes| ==> portTypes[k] == rest[k - 1];
      forall i: nat, j: nat | IsFirstNamed(def, portTypes, name, i, j)
        ensures TakesElement(def, def.portTypes[portTypes[i]].operations[j], InputElement(def, portTypes, name))
      {
        if i > 0 {
          assert !DeclaresOp(def.portTypes[portTypes[0]], name);
          assert IsFirstNamed(def, rest, name, i - 1, j);
        } else {
          assert first.operations[j].name == name;
        }
      }
    }
  }

  /** A port type's own answer: none if it does not declare the operation. */
  function PortTypeInput(def: Definition, name: string): string -> Option<Option<QName>>
  {
    p => if p in def.portTypes then OwnInput(def, def.portTypes[p].operations, name) else None
  }

  lemma {:induction false} InputIsFirst(def: Definition, portTypes: seq<string>, name: string)
    requires forall p :: p in portTypes ==> p in def.portTypes
    ensures var first := FirstOf(portTypes, PortTypeInput(def, name));
      InputElement(def, portTypes, name) == if first.Some? then first.value else None
  {
    if portTypes != [] {
      InputIsFirst(def, portTypes[1..], name);
    }
  }

  ghost predicate InputAlike(def: Definition, name: string)
  {
    forall o1, o2 :: Enumerates(o1, def.portTypes.Keys) && Enumerates(o2, def.portTypes.Keys) ==>
      InputElement(def, o1, name) == InputElement(def, o2, name)
  }

  /** The input element does not depend on the order port types are visited in, exactly when they agree on it. */
  lemma InputIsOrderIndependentExactlyWhen(def: Definition, name: string)
    ensures InputAlike(def, name) <==> Agree(def.portTypes.Keys, PortTypeInput(def, name))
  {
    var own := PortTypeInput(def, name);
    forall order | Enumerates(order, def.portTypes.Keys)
      ensures InputElement(def, order, name)
              == if FirstOf(order, own).Some? then FirstOf(order, own).value else None
      ensures FirstOf(order, own).Some? <==> exists p :: p in def.portTypes && own(p).Some?
    {
      InputIsFirst(def, order, name);
      FirstIsSomeones(order, own);
    }
    SameForAllOrdersExactlyWhen(def.portTypes.Keys, own);
    hide InputElement, FirstOf, Agree, PortTypeInput;
    if InputAlike(def, name) {
      forall o1, o2 | Enumerates(o1, def.portTypes.Keys) && Enumerates(o2, def.portTypes.Keys)
        ensures FirstOf(o1, own) == FirstOf(o2, own)
      {
      }
    }
  }

  // ----- build_dispatch_table_from_ops

  datatype Entry<H> = Entry(handler: H, authRequired: bool, inputType: Option<QName>, validationType: Option<QName>)

  datatype DispatchTable<H> = DispatchTable(
    byElement: map<QName, Entry<H>>,
    byAction: map<string, Entry<H>>,
    defaultHandler: Option<H>)

  datatype DispatchError =
    | UnregisteredOperation(name: string)
    | UnknownOperation(name: string)
    | UnresolvableInputType(op: string, element: QName, typeRef: QName)

  /** What a table is built from; `portTypes` is the order the port types are iterated in. */
  datatype Setup<H> = Setup(
    wsdl: ResolvedWsdl,
    portTypes: seq<string>,
    handlers: map<string, H>,
    authBypass: set<string>,
    defaultHandler: Option<H>)
  {
    predicate Valid() { forall p :: p in portTypes ==> p in wsdl.definition.portTypes }

    function InputType(op: BoundOp): Option<QName>
      requires Valid()
    {
      if op.style == RpcStyle then
        var target := wsdl.definition.targetNamespace;
        Some(QName(Some(if op.rpcNamespace.Some? then op.rpcNamespace.value else target), op.name))
      else InputElement(wsdl.definition, portTypes, op.name)
    }

    /** The declared type of a document-style operation's input element, if a schema declares one. */
    function DeclaredType(op: BoundOp): Option<QName>
      requires Valid()
    {
      var input := InputType(op);
      if op.style == DocumentStyle && input.Some? && input.value in wsdl.elementTypes
      then Some(wsdl.elementTypes[input.value]) else None
    }

    /** The operation can be served: somebody handles it, and a declared input type is known. */
    predicate Fits(op: BoundOp)
      requires Valid()
    {
      && (op.name in handlers || defaultHandler.Some?)
      && (DeclaredType(op).Some? ==> DeclaredType(op).value in wsdl.registry)
    }

    ghost predicate EntryOf(op: BoundOp, entry: Entry<H>)
      requires Valid()
    {
      && (if op.name in handlers then entry.handler == handlers[op.name] else defaultHandler == Some(entry.handler))
      && entry.authRequired == (op.name !in authBypass)
      && entry.inputType == InputType(op)
      && entry.validationType == (if op.style == RpcStyle then InputType(op) else DeclaredType(op))
    }

    /** The last operation whose input element is `q`. */
    function LastWithInput(ops: seq<BoundOp>, q: QName): Option<BoundOp>
      requires Valid()
    {
      if ops == [] then None
      else if InputType(ops[|ops| - 1]) == Some(q) then Some(ops[|ops| - 1])
      else LastWithInput(ops[..|ops| - 1], q)
    }

    /** Every name in either index leads to the last operation that has it. */
    ghost predicate IsTable(ops: seq<BoundOp>, byElement: map<QName, Entry<H>>, byAction: map<string, Entry<H>>)
      requires Valid()
    {
      && (forall q :: q in byElement <==> LastWithInput(ops, q).Some?)
      && (forall q :: q in byElement ==> EntryOf(LastWithInput(ops, q).value, byElement[q]))
      && (forall a :: a in byAction <==> a != "" && LastWithAction(ops, a).Some?)
      && (forall a :: a in byAction ==> EntryOf(LastWithAction(ops, a).value, byAction[a]))
    }

    predicate AllFit(ops: seq<BoundOp>)
      requires Valid()
    {
      forall i :: 0 <= i < |ops| ==> Fits(ops[i])
    }

    /** Every operation fits, and every handler has an operation. */
    predicate Buildable(ops: seq<BoundOp>)
      requires Valid()
    {
      AllFit(ops) && forall h :: h in handlers ==> Named(ops, h)
    }

    /** The error is about the first operation that does not fit, or else about a handler left over. */
    predicate FailsWith(ops: seq<BoundOp>, error: DispatchError)
      requires Valid()
    {
      match error
      case UnregisteredOperation(name) =>
        exists i :: 0 <= i < |ops| && AllFit(ops[..i]) && ops[i].name == name
          && name !in handlers && defaultHandler.None?
      case UnresolvableInputType(name, element, typeRef) =>
        exists i :: 0 <= i < |ops| && AllFit(ops[..i]) && ops[i].name == name
          && (name in handlers || defaultHandler.Some?)
          && InputType(ops[i]) == Some(element) && DeclaredType(ops[i]) == Some(typeRef) && typeRef !in wsdl.registry
      case UnknownOperation(name) => AllFit(ops) && name in handlers && !Named(ops, name)
    }
  }

  /** The last operation with that SOAP action. */
  function LastWithAction(ops: seq<BoundOp>, action: string): Option<BoundOp>
  {
    if ops == [] then None
    else if ops[|ops| - 1].soapAction == action then Some(ops[|ops| - 1])
    else LastWithAction(ops[..|ops| - 1], action)
  }

  lemma NothingNamed()
    ensures forall n :: !Named([], n)
  {
  }

  lemma NamedNext(ops: seq<BoundOp>, i: nat, name: string)
    requires i < |ops|
    ensures Named(ops[..i + 1], name) <==> Named(ops[..i], name) || ops[i].name == name
  {
    NamedEither(ops[..i], [ops[i]], name);
    assert ops[..i + 1] == ops[..i] + [ops[i]];
    assert [ops[i]][0].name == ops[i].name;
  }

  lemma TableNext<H>(s: Setup<H>, ops: seq<BoundOp>, op: BoundOp, byElement: map<QName, Entry<H>>,
                     byAction: map<string, Entry<H>>, entry: Entry<H>)
    requires s.Valid() && s.IsTable(ops, byElement, byAction) && s.EntryOf(op, entry)
    ensures s.IsTable(ops + [op],
                      if entry.inputType.Some? then byElement[entry.inputType.value := entry] else byElement,
                      if op.soapAction != "" then byAction[op.soapAction := entry] else byAction)
  {
    assert (ops + [op])[..|ops|] == ops;
    forall q
      ensures s.LastWithInput(ops + [op], q) == if s.InputType(op) == Some(q) then Some(op) else s.LastWithInput(ops, q)
    {
    }
    forall a ensures LastWithAction(ops + [op], a) == if op.soapAction == a then Some(op) else LastWithAction(ops, a) {
    }
    hide LastWithAction;
    hide InputElement;
  }

  lemma EmptyTable<H>(s: Setup<H>)
    requires s.Valid()
    ensures s.AllFit([]) && s.IsTable([], map[], map[])
  {
  }

  method EntryForOp<H>(s: Setup<H>, op: BoundOp) returns (r: Result<Entry<H>, DispatchError>)
    requires s.Valid()
    ensures r.Ok? <==> s.Fits(op)
    ensures r.Ok? ==> s.EntryOf(op, r.value)
    ensures r.Ok? && op.style.RpcStyle? ==>
              r.value.inputType == r.value.validationType
              == Some(QName(Some(if op.rpcNamespace.Some? then op.rpcNamespace.value
                                 else s.wsdl.definition.targetNamespace), op.name))
    ensures r.Err? ==> s.FailsWith([op], r.error) && !r.error.UnknownOperation?
  {
    var handler;
    if op.name in s.handlers {
      handler := s.handlers[op.name];
    } else if s.defaultHandler.Some? {
      handler := s.defaultHandler.value;
    } else {
      assert s.AllFit([op][..0]);
      return Err(UnregisteredOperation(op.name));
    }
    var input, validation;
    if op.style == RpcStyle {
      input := Some(QName(
        Some(if op.rpcNamespace.Some? then op.rpcNamespace.value else s.wsdl.definition.targetNamespace), op.name));
      validation := input;
    } else {
      input := ResolveInputElement(s.wsdl.definition, s.portTypes, op.name);
      validation := None;
      if input.Some? && input.value in s.wsdl.elementTypes {
        var typeName := s.wsdl.elementTypes[input.value];
        if typeName !in s.wsdl.registry {
          assert s.AllFit([op][..0]);
          assert [op][0] == op;
          return Err(UnresolvableInputType(op.name, input.value, typeName));
        }
        validation := Some(typeName);
      }
    }
    return Ok(Entry(handler, op.name !in s.authBypass, input, validation));
  }

  /** A table is built exactly when it can be; it then holds what it should, and an error says what is wrong. */
  method BuildDispatchTableFromOps<H>(s: Setup<H>, ops: seq<BoundOp>)
    returns (r: Result<DispatchTable<H>, DispatchError>)
    requires s.Valid()
    ensures r.Ok? <==> s.Buildable(ops)
    ensures r.Ok? ==> s.IsTable(ops, r.value.byElement, r.value.byAction) && r.value.defaultHandler == s.defaultHandler
    ensures r.Err? ==> s.FailsWith(ops, r.error)
  {
    hide Setup.IsTable, Setup.EntryOf, Setup.DeclaredType, Setup.InputType, Named;
    var byElement: map<QName, Entry<H>> := map[];
    var byAction: map<string, Entry<H>> := map[];
    var consumed: set<string> := {};
    EmptyTable(s);
    assert ops[..0] == [];
    assert forall n :: !Named([], n) by { NothingNamed(); }
    for i := 0 to |ops|
      invariant s.AllFit(ops[..i]) && s.IsTable(ops[..i], byElement, byAction)
      invariant forall n :: n in consumed <==> Named(ops[..i], n)
    {
      var op := ops[i];
      var entry := EntryForOp(s, op);
      if entry.Err? {
        return Err(entry.error);
      }
      ghost var before := (byElement, byAction);
      consumed := consumed + {op.name};
      if entry.value.inputType.Some? {
        byElement := byElement[entry.value.inputType.value := entry.value];
      }
      if op.soapAction != "" {
        byAction := byAction[op.soapAction := entry.value];
      }
      TableNext(s, ops[..i], op, before.0, before.1, entry.value);
      assert ops[..i + 1] == ops[..i] + [op];
      forall n ensures Named(ops[..i + 1], n) <==> Named(ops[..i], n) || ops[i].name == n { NamedNext(ops, i, n); }
    }
    assert ops[..|ops|] == ops;
    var todo := s.handlers.Keys;
    while todo != {}
      invariant todo <= s.handlers.Keys
      invariant forall h :: h in s.handlers && h !in todo ==> Named(ops, h)
      decreases todo
    {
      var h :| h in todo;
      if h !in consumed {
        return Err(UnknownOperation(h));
      }
      todo := todo - {h};
    }
    return Ok(DispatchTable(byElement, byAction, s.defaultHandler));
  }

  // ----- route

  datatype RoutingError = ActionNotSupported(name: QName)

  function Route<H>(t: DispatchTable<H>, q: QName, action: Option<string>): Result<Entry<H>, RoutingError>
  {
    if q in t.byElement then Ok(t.byElement[q])
    else if action.Some? && action.value in t.byAction then Ok(t.byAction[action.value])
    else Err(ActionNotSupported(q))
  }

  lemma {:induction false} LastIsAmong<H>(s: Setup<H>, ops: seq<BoundOp>, q: QName, action: string)
    requires s.Valid()
    ensures s.LastWithInput(ops, q).Some? <==> exists i :: 0 <= i < |ops| && s.InputType(ops[i]) == Some(q)
    ensures s.LastWithInput(ops, q).Some? ==>
      s.LastWithInput(ops, q).value in ops && s.InputType(s.LastWithInput(ops, q).value) == Some(q)
    ensures LastWithAction(ops, action).Some? <==> exists i :: 0 <= i < |ops| && ops[i].soapAction == action
    ensures LastWithAction(ops, action).Some? ==>
      LastWithAction(ops, action).value in ops && LastWithAction(ops, action).value.soapAction == action
  {
    if ops != [] {
      LastIsAmong(s, ops[..|ops| - 1], q, action);
    }
  }

  predicate Matches<H>(s: Setup<H>, op: BoundOp, q: QName, action: Option<string>)
    requires s.Valid()
  {
    s.InputType(op) == Some(q) || (action == Some(op.soapAction) && op.soapAction != "")
  }

  /** The last operation with this input element. */
  ghost predicate IsLastWithInput<H>(s: Setup<H>, ops: seq<BoundOp>, q: QName, i: nat)
    requires s.Valid()
  {
    i < |ops| && s.InputType(ops[i]) == Some(q) && forall j :: i < j < |ops| ==> s.InputType(ops[j]) != Some(q)
  }

  /** The last operation with this SOAP action. */
  ghost predicate IsLastWithAction(ops: seq<BoundOp>, action: string, i: nat)
  {
    i < |ops| && ops[i].soapAction == action && forall j :: i < j < |ops| ==> ops[j].soapAction != action
  }

  lemma {:induction false} LastsAreLast<H>(s: Setup<H>, ops: seq<BoundOp>, q: QName, action: string)
    requires s.Valid()
    ensures s.LastWithInput(ops, q).Some? ==>
      exists i: nat :: IsLastWithInput(s, ops, q, i) && s.LastWithInput(ops, q) == Some(ops[i])
    ensures LastWithAction(ops, action).Some? ==>
      exists i: nat :: IsLastWithAction(ops, action, i) && LastWithAction(ops, action) == Some(ops[i])
  {
    if ops != [] {
      var n, shorter := |ops| - 1, ops[..|ops| - 1];
      LastsAreLast(s, shorter, q, action);
      hide Setup.InputType;
      assert forall i :: 0 <= i < n ==> shorter[i] == ops[i];
      if s.InputType(ops[n]) == Some(q) {
        assert IsLastWithInput(s, ops, q, n);
      } else if s.LastWithInput(ops, q).Some? {
        var i: nat :| IsLastWithInput(s, shorter, q, i) && s.LastWithInput(shorter, q) == Some(shorter[i]);
        assert IsLastWithInput(s, ops, q, i);
      }
      if ops[n].soapAction == action {
        assert IsLastWithAction(ops, action, n);
      } else if LastWithAction(ops, action).Some? {
        var i: nat :| IsLastWithAction(shorter, action, i) && LastWithAction(shorter, action) == Some(shorter[i]);
        assert IsLastWithAction(ops, action, i);
      }
    }
  }

  /**
    A request finds an entry exactly when some operation has its element, or else its non-empty SOAP action; the entry
    is the last such operation's own, and one with the element goes before one with the action.
   */
  lemma RoutedExactlyWhen<H>(s: Setup<H>, ops: seq<BoundOp>, t: DispatchTable<H>, q: QName, action: Option<string>)
    requires s.Valid() && s.IsTable(ops, t.byElement, t.byAction)
    ensures var r := Route(t, q, action);
      && (r.Ok? <==> exists i :: 0 <= i < |ops| && Matches(s, ops[i], q, action))
      && (r.Ok? ==>
            if exists i :: 0 <= i < |ops| && s.InputType(ops[i]) == Some(q)
            then exists i: nat :: IsLastWithInput(s, ops, q, i) && s.EntryOf(ops[i], r.value)
            else action.Some? && exists i: nat :: IsLastWithAction(ops, action.value, i) && s.EntryOf(ops[i], r.value))
  {
    LastIsAmong(s, ops, q, if action.Some? then action.value else "");
    LastsAreLast(s, ops, q, if action.Some? then action.value else "");
    hide Setup.EntryOf, Setup.InputType, LastWithAction, Setup.LastWithInput;
  }

  /** What is collected for a service, for some order of iterating its maps. */
  ghost predicate CollectedFor(def: Definition, service: Option<string>, ops: seq<BoundOp>)
  {
    exists services, bindings ::
      Enumerates(services, def.services.Keys) && Enumerates(bindings, def.bindings.Keys)
      && ops == Dedupe(OpsFound(def, service, services, bindings), {})
  }

  /** An operation whose input element no other shares gets its own requests, whatever their SOAP action. */
  lemma OfferedOperationIsRouted<H>(
      s: Setup<H>, service: Option<string>, ops: seq<BoundOp>, t: DispatchTable<H>,
      name: string, q: QName, action: Option<string>)
    requires s.Valid() && CollectedFor(s.wsdl.definition, service, ops)
    requires s.Buildable(ops) && s.IsTable(ops, t.byElement, t.byAction)
    requires Offered(s.wsdl.definition, service, name)
    requires forall op :: op in ops ==> (s.InputType(op) == Some(q) <==> op.name == name)
    ensures var r := Route(t, q, action);
      && r.Ok? && r.value.authRequired == (name !in s.authBypass)
      && (if name in s.handlers then r.value.handler == s.handlers[name] else s.defaultHandler == Some(r.value.handler))
      && exists op :: op in ops && op.name == name && s.EntryOf(op, r.value)
  {
    var services, bindings :|
      Enumerates(services, s.wsdl.definition.services.Keys) && Enumerates(bindings, s.wsdl.definition.bindings.Keys)
      && ops == Dedupe(OpsFound(s.wsdl.definition, service, services, bindings), {});
    CollectedExactlyWhenOffered(s.wsdl.definition, service, services, bindings, name);
    hide Dedupe, OpsFound, Offered, Enumerates;
    LastIsAmong(s, ops, q, "");
    var i :| 0 <= i < |ops| && ops[i].name == name;
    assert ops[i] in ops;
  }
}
