/** The depth-first import walk of resolve_wsdl_inner (src/wsdl/resolver.rs). */
module WsdlImports {
  import opened Wrappers
  import opened Reachability
  import opened SchemaTypes
  import opened WsdlTypes

  datatype WsdlError = WsdlLoadFailed(location: string) | SchemaFailed(cause: SchemaError)

  /** `entry(k).or_insert(v)` for every imported message, port type, binding and service. */
  function Merge(def: Definition, imported: Definition): Definition
  {
    def.(messages := imported.messages + def.messages,
         portTypes := imported.portTypes + def.portTypes,
         bindings := imported.bindings + def.bindings,
         services := imported.services + def.services)
  }

  datatype Kind = MessageKind | PortTypeKind | BindingKind | ServiceKind

  datatype Item = MessageItem(m: Message) | PortTypeItem(p: PortType) | BindingItem(b: Binding)
      | ServiceItem(s: Service)

  /** What a document declares under a name, for any of the four kinds. */
  function LookUp(def: Definition, kind: Kind, name: string): Option<Item>
  {
    match kind
    case MessageKind => if name in def.messages then Some(MessageItem(def.messages[name])) else None
    case PortTypeKind => if name in def.portTypes then Some(PortTypeItem(def.portTypes[name])) else None
    case BindingKind => if name in def.bindings then Some(BindingItem(def.bindings[name])) else None
    case ServiceKind => if name in def.services then Some(ServiceItem(def.services[name])) else None
  }

  lemma MergeLooksUp(def: Definition, imported: Definition, kind: Kind, name: string)
    ensures LookUp(Merge(def, imported), kind, name) ==
            if LookUp(def, kind, name).Some? then LookUp(def, kind, name) else LookUp(imported, kind, name)
  {
  }

  function ImportGraph(docs: map<string, Definition>): Graph
  {
    map x | x in docs :: Locations(docs[x].imports)
  }

  ghost predicate Reachable(docs: map<string, Definition>, references: seq<Option<string>>, avoid: set<string>,
      x: string)
  {
    Reaches(ImportGraph(docs), Locations(references), avoid, x)
  }

  ghost predicate AllLoad(docs: map<string, Definition>, references: seq<Option<string>>, avoid: set<string>)
  {
    AllReachedLoad(ImportGraph(docs), Locations(references), avoid)
  }

  // ----- The walk

  /**
    The locations a walk has seen, and those it went into, in the order it entered and in the order it finished them.
   */
  datatype Walk = Walk(visited: set<string>, entered: seq<string>, finished: seq<string>)

  /** The depth-first walk over some references; the error is the first location that does not load. */
  function WalkFrom(docs: map<string, Definition>, references: seq<Option<string>>, visited: set<string>)
    : (r: Result<Walk, string>)
    ensures r.Ok? ==> visited <= r.value.visited
    decreases docs.Keys - visited, |references|
  {
    if references == [] then Ok(Walk(visited, [], []))
    else if references[0].None? || references[0].value in visited then WalkFrom(docs, references[1..], visited)
    else
      var x := references[0].value;
      if x !in docs then Err(x) else
        var inner := WalkFrom(docs, docs[x].imports, visited + {x});
        if inner.Err? then inner else
          Behind([x] + inner.value.entered, inner.value.finished + [x],
                 WalkFrom(docs, references[1..], inner.value.visited))
  }

  /** A walk that goes on from where another left off. */
  function Behind(entered: seq<string>, finished: seq<string>, walk: Result<Walk, string>): Result<Walk, string>
  {
    if walk.Err? then walk
    else Ok(Walk(walk.value.visited, entered + walk.value.entered, finished + walk.value.finished))
  }

  /** What the first of these documents to declare the name declares. */
  function FirstAmong(docs: map<string, Definition>, entered: seq<string>, kind: Kind, name: string): Option<Item>
  {
    if entered == [] then None
    else if entered[0] in docs && LookUp(docs[entered[0]], kind, name).Some? then LookUp(docs[entered[0]], kind, name)
    else FirstAmong(docs, entered[1..], kind, name)
  }

  /** The root's own declaration, or else the first on the walk. */
  function FirstDeclared(
      docs: map<string, Definition>, def: Definition, entered: seq<string>, kind: Kind, name: string): Option<Item>
  {
    if LookUp(def, kind, name).Some? then LookUp(def, kind, name) else FirstAmong(docs, entered, kind, name)
  }

  /** The inline schemas of some documents, document by document. */
  function SchemasOf(docs: map<string, Definition>, finished: seq<string>): seq<RawSchema>
  {
    if finished == [] then [] else
      (if finished[0] in docs then docs[finished[0]].schemas else []) + SchemasOf(docs, finished[1..])
  }

  lemma {:induction false} FirstAmongBoth(
      docs: map<string, Definition>, a: seq<string>, b: seq<string>, kind: Kind, name: string)
    ensures FirstAmong(docs, a + b, kind, name) ==
            if FirstAmong(docs, a, kind, name).Some? then FirstAmong(docs, a, kind, name)
            else FirstAmong(docs, b, kind, name)
  {
    hide LookUp;
    if a == [] {
      assert a + b == b;
    } else {
      assert (a + b)[1..] == a[1..] + b;
      FirstAmongBoth(docs, a[1..], b, kind, name);
    }
  }

  lemma {:induction false} SchemasOfBoth(docs: map<string, Definition>, a: seq<string>, b: seq<string>)
    ensures SchemasOf(docs, a + b) == SchemasOf(docs, a) + SchemasOf(docs, b)
  {
    if a == [] {
      assert a + b == b;
    } else {
      assert (a + b)[1..] == a[1..] + b;
      SchemasOfBoth(docs, a[1..], b);
    }
  }

  /** One reference of the walk. */
  lemma WalkStep(docs: map<string, Definition>, references: seq<Option<string>>, visited: set<string>, i: nat)
    requires i < |references|
    ensures var rest := references[i + 1..];
      WalkFrom(docs, references[i..], visited) ==
        if references[i].None? || references[i].value in visited then WalkFrom(docs, rest, visited)
        else var x := references[i].value;
          if x !in docs then Err(x) else
            var inner := WalkFrom(docs, docs[x].imports, visited + {x});
            if inner.Err? then inner else
              Behind([x] + inner.value.entered, inner.value.finished + [x],
                     WalkFrom(docs, rest, inner.value.visited))
  {
    assert references[i..][1..] == references[i + 1..];
  }

  lemma WalkNothing(docs: map<string, Definition>, visited: set<string>)
    ensures WalkFrom(docs, [], visited) == Ok(Walk(visited, [], []))
    ensures SchemasOf(docs, []) == [] && forall kind, name :: FirstAmong(docs, [], kind, name) == None
  {
  }

  lemma BehindBehind(e: seq<string>, f: seq<string>, e': seq<string>, f': seq<string>, walk: Result<Walk, string>)
    ensures Behind(e, f, Behind(e', f', walk)) == Behind(e + e', f + f', walk)
    ensures Behind([], [], walk) == walk
  {
    if walk.Ok? {
      assert e + (e' + walk.value.entered) == e + e' + walk.value.entered;
      assert f + (f' + walk.value.finished) == f + f' + walk.value.finished;
      assert [] + walk.value.entered == walk.value.entered && [] + walk.value.finished == walk.value.finished;
    }
  }

  /** Merging what one import and its own walk declare behind what is there already. */
  lemma MergedOne(
      docs: map<string, Definition>, def: Definition, entered: seq<string>, result: Definition,
      x: string, inner: seq<string>, imported: Definition, kind: Kind, name: string)
    requires x in docs && LookUp(result, kind, name) == FirstDeclared(docs, def, entered, kind, name)
    requires LookUp(imported, kind, name) == FirstDeclared(docs, docs[x], inner, kind, name)
    ensures LookUp(Merge(result, imported), kind, name)
            == FirstDeclared(docs, def, entered + ([x] + inner), kind, name)
  {
    MergeLooksUp(result, imported, kind, name);
    hide LookUp, Merge;
    FirstAmongBoth(docs, entered, [x] + inner, kind, name);
    assert ([x] + inner)[1..] == inner;
  }

  class ImportWalker {
    const docs: map<string, Definition>
    var visited: set<string>
    var schemas: seq<RawSchema>  // inline schemas, in the order the code gets to them
    ghost var loads: seq<string>

    constructor (docs: map<string, Definition>, visited: set<string>)
      ensures this.docs == docs && this.visited == visited && loads == [] && schemas == []
    {
      this.docs, this.visited, schemas, loads := docs, visited, [], [];
    }

    /** Every load was of a different location, and is remembered. */
    ghost predicate Logged()
      reads this
    {
      && (forall i, j :: 0 <= i < j < |loads| ==> loads[i] != loads[j])
      && (forall x :: x in loads ==> x in visited)
    }

    /** Imports first, each with its own imports and schemas; then the document's own schemas. */
    method ResolveInner(def: Definition) returns (r: Result<Definition, WsdlError>)
      requires Logged()
      modifies this
      ensures Logged() && old(visited) <= visited
      ensures var walk := WalkFrom(docs, def.imports, old(visited));
        && (r.Ok? <==> walk.Ok?)
        && (r.Err? ==> r.error == WsdlLoadFailed(walk.error))
        && (r.Ok? ==>
              && visited == walk.value.visited && loads == old(loads) + walk.value.entered
              && schemas == old(schemas) + SchemasOf(docs, walk.value.finished) + def.schemas
              && r.value.targetNamespace == def.targetNamespace
              && (forall kind, name :: LookUp(r.value, kind, name)
                                       == FirstDeclared(docs, def, walk.value.entered, kind, name)))
      decreases docs.Keys - visited
    {
      hide LookUp, WalkFrom, FirstAmong, SchemasOf, Behind, Merge;
      var result := def;
      ghost var entered: seq<string>, finished: seq<string> := [], [];
      ghost var whole := WalkFrom(docs, def.imports, visited);
      assert def.imports[0..] == def.imports && def.imports[|def.imports|..] == [];
      BehindBehind([], [], [], [], whole);
      WalkNothing(docs, visited);
      for i := 0 to |def.imports|
        invariant Logged() && old(visited) <= visited && loads == old(loads) + entered
        invariant schemas == old(schemas) + SchemasOf(docs, finished)
        invariant whole == Behind(entered, finished, WalkFrom(docs, def.imports[i..], visited))
        invariant result.targetNamespace == def.targetNamespace && result.schemas == def.schemas
        invariant forall kind, name :: LookUp(result, kind, name) == FirstDeclared(docs, def, entered, kind, name)
      {
        WalkStep(docs, def.imports, visited, i);
        if def.imports[i].Some? && def.imports[i].value !in visited {
          var location := def.imports[i].value;
          ghost var soFar, seen := result, visited + {location};
          visited := visited + {location};
          loads := loads + [location];
          if location !in docs {
            FailsBehind(entered, finished, location);
            return Err(WsdlLoadFailed(location));
          }
          ghost var inner := WalkFrom(docs, docs[location].imports, seen);
          var imported := ResolveInner(docs[location]);
          if imported.Err? {
            FailsBehind(entered, finished, inner.error);
            return Err(imported.error);
          }
          result := Merge(result, imported.value);
          forall kind, name
            ensures LookUp(result, kind, name)
                    == FirstDeclared(docs, def, entered + ([location] + inner.value.entered), kind, name)
          {
            MergedOne(docs, def, entered, soFar, location, inner.value.entered, imported.value, kind, name);
          }
          SchemasOfOne(docs, finished, inner.value.finished, location);
          BehindBehind(entered, finished, [location] + inner.value.entered, inner.value.finished + [location],
                       WalkFrom(docs, def.imports[i + 1..], visited));
          MergeKeepsSchemas(soFar, imported.value);
          entered := entered + ([location] + inner.value.entered);
          finished := finished + (inner.value.finished + [location]);
        }
      }
      WalkNothing(docs, visited);
      EndsBehind(entered, finished, visited);
      schemas := schemas + result.schemas;
      return Ok(result);
    }
  }

  lemma FailsBehind(entered: seq<string>, finished: seq<string>, error: string)
    ensures Behind(entered, finished, Err(error)) == Err(error)
  {
  }

  lemma EndsBehind(entered: seq<string>, finished: seq<string>, visited: set<string>)
    ensures Behind(entered, finished, Ok(Walk(visited, [], []))) == Ok(Walk(visited, entered, finished))
  {
    assert entered + [] == entered && finished + [] == finished;
  }

  lemma MergeKeepsSchemas(def: Definition, imported: Definition)
    ensures Merge(def, imported).schemas == def.schemas
    ensures Merge(def, imported).targetNamespace == def.targetNamespace
  {
  }

  lemma SchemasOfOne(docs: map<string, Definition>, finished: seq<string>, inner: seq<string>, x: string)
    requires x in docs
    ensures SchemasOf(docs, finished + (inner + [x]))
            == SchemasOf(docs, finished) + SchemasOf(docs, inner) + docs[x].schemas
  {
    SchemasOfBoth(docs, finished, inner + [x]);
    SchemasOfBoth(docs, inner, [x]);
    assert [x][1..] == [];
    assert SchemasOf(docs, [x]) == docs[x].schemas + [];
  }

  // ----- The walk is reachability

  lemma ReachesMore(docs: map<string, Definition>, fewer: seq<Option<string>>, more: set<string>,
                    references: seq<Option<string>>, avoid: set<string>, x: string)
    requires (forall r :: r in fewer ==> r in references) && avoid <= more && Reachable(docs, fewer, more, x)
    ensures Reachable(docs, references, avoid, x)
  {
    var walk :| IsWalk(ImportGraph(docs), Locations(fewer), more, walk) && walk[|walk| - 1] == x;
    LocationsHold(fewer, walk[0]);
    LocationsHold(references, walk[0]);
    assert IsWalk(ImportGraph(docs), Locations(references), avoid, walk);
  }

  /** What is found under one reference is found. */
  lemma ReachThrough(docs: map<string, Definition>, references: seq<Option<string>>, avoid: set<string>,
                     via: string, more: set<string>, x: string)
    requires via in docs && Some(via) in references && via !in avoid && avoid <= more
    requires Reachable(docs, docs[via].imports, more, x)
    ensures Reachable(docs, references, avoid, x)
  {
    var g := ImportGraph(docs);
    var walk :| IsWalk(g, Locations(docs[via].imports), more, walk) && walk[|walk| - 1] == x;
    var longer := [via] + walk;
    LocationsHold(references, via);
    forall i, j | 0 <= i && j == i + 1 < |longer|
      ensures Names(g, longer[i], longer[j])
    {
      if i == 0 {
        assert Names(g, via, walk[0]);
      } else {
        assert longer[i] == walk[i - 1] && longer[j] == walk[j - 1];
        assert Names(g, walk[i - 1], walk[j - 1]);
      }
    }
    assert IsWalk(g, Locations(references), avoid, longer);
    assert longer[|longer| - 1] == x;
  }

  lemma ReferenceReached(docs: map<string, Definition>, references: seq<Option<string>>, avoid: set<string>, x: string)
    requires Some(x) in references && x !in avoid
    ensures Reachable(docs, references, avoid, x)
  {
    LocationsHold(references, x);
    RootReached(ImportGraph(docs), Locations(references), avoid, x);
  }

  ghost predicate Distinct(s: seq<string>) { forall i, j :: 0 <= i < j < |s| ==> s[i] != s[j] }

  lemma DistinctJoin(a: seq<string>, b: seq<string>)
    requires Distinct(a) && Distinct(b) && forall x :: x in a ==> x !in b
    ensures Distinct(a + b)
  {
    forall i, j | 0 <= i < j < |a + b| ensures (a + b)[i] != (a + b)[j] {
      if i < |a| <= j {
        assert (a + b)[i] in a && (a + b)[j] in b;
      }
    }
  }

  /** A finished walk has seen all it was referred to, and entered each location just once, all of them reachable. */
  ghost predicate Explores(docs: map<string, Definition>, references: seq<Option<string>>, visited: set<string>,
      w: Walk)
  {
    && (forall x :: x in w.entered <==> x in w.visited && x !in visited)
    && Distinct(w.entered)
    && (forall x :: x in w.finished <==> x in w.entered)
    && (forall x :: x in w.entered ==> x in docs && Reachable(docs, references, visited, x))
    && (forall x, y :: x in w.entered && x in docs && Some(y) in docs[x].imports ==> y in w.visited)
    && (forall y :: Some(y) in references ==> y in w.visited)
  }

  lemma ExploresOne(
      docs: map<string, Definition>, references: seq<Option<string>>, visited: set<string>, x: string,
      inner: Walk, rest: Walk)
    requires references != [] && references[0] == Some(x) && x in docs && x !in visited
    requires visited + {x} <= inner.visited <= rest.visited
    requires Explores(docs, docs[x].imports, visited + {x}, inner)
    requires Explores(docs, references[1..], inner.visited, rest)
    ensures Explores(docs, references, visited,
                     Walk(rest.visited, [x] + inner.entered + rest.entered, inner.finished + [x] + rest.finished))
  {
    hide Reachable;
    var entered := [x] + inner.entered + rest.entered;
    var finished := inner.finished + [x] + rest.finished;
    assert forall y :: y in entered <==> y == x || y in inner.entered || y in rest.entered;
    assert forall y :: y in finished <==> y == x || y in inner.finished || y in rest.finished;
    assert Distinct([x]);
    DistinctJoin([x], inner.entered);
    DistinctJoin([x] + inner.entered, rest.entered);
    assert references == [references[0]] + references[1..];
    forall y | y in entered ensures y in docs && Reachable(docs, references, visited, y) {
      if y == x {
        ReferenceReached(docs, references, visited, x);
      } else if y in inner.entered {
        ReachThrough(docs, references, visited, x, visited + {x}, y);
      } else {
        ReachesMore(docs, references[1..], inner.visited, references, visited, y);
      }
    }
    forall y, z | y in entered && y in docs && Some(z) in docs[y].imports ensures z in rest.visited {
      assert y == x || y in inner.entered || y in rest.entered;
    }
    forall y | Some(y) in references ensures y in rest.visited {
      assert Some(y) == references[0] || Some(y) in references[1..];
    }
  }

  lemma {:induction false} WalkExplores(docs: map<string, Definition>, references: seq<Option<string>>,
      visited: set<string>)
    ensures var w := WalkFrom(docs, references, visited);
      && (w.Ok? ==> Explores(docs, references, visited, w.value))
      && (w.Err? ==> w.error !in docs && Reachable(docs, references, visited, w.error))
    decreases docs.Keys - visited, |references|
  {
    hide Reachable;
    if references != [] {
      var rest := references[1..];
      assert references == [references[0]] + rest;
      if references[0].None? || references[0].value in visited {
        WalkExplores(docs, rest, visited);
        SkipsOne(docs, references, visited);
      } else {
        var x := references[0].value;
        ReferenceReached(docs, references, visited, x);
        if x in docs {
          var inner := WalkFrom(docs, docs[x].imports, visited + {x});
          WalkExplores(docs, docs[x].imports, visited + {x});
          if inner.Err? {
            ReachThrough(docs, references, visited, x, visited + {x}, inner.error);
          } else {
            var after := WalkFrom(docs, rest, inner.value.visited);
            WalkExplores(docs, rest, inner.value.visited);
            if after.Err? {
              ReachesMore(docs, rest, inner.value.visited, references, visited, after.error);
            } else {
              ExploresOne(docs, references, visited, x, inner.value, after.value);
            }
          }
        }
      }
    }
  }

  lemma SkipsOne(docs: map<string, Definition>, references: seq<Option<string>>, visited: set<string>)
    requires references != [] && (references[0].None? || references[0].value in visited)
    requires var w := WalkFrom(docs, references[1..], visited);
      && (w.Ok? ==> Explores(docs, references[1..], visited, w.value))
      && (w.Err? ==> Reachable(docs, references[1..], visited, w.error))
    ensures var w := WalkFrom(docs, references[1..], visited);
      && (w.Ok? ==> Explores(docs, references, visited, w.value))
      && (w.Err? ==> Reachable(docs, references, visited, w.error))
  {
    var w := WalkFrom(docs, references[1..], visited);
    assert w.Ok? ==> visited <= w.value.visited;
    hide Reachable, WalkFrom;
    assert references == [references[0]] + references[1..];
    if w.Err? {
      ReachesMore(docs, references[1..], visited, references, visited, w.error);
    } else {
      forall x | x in w.value.entered ensures Reachable(docs, references, visited, x) {
        ReachesMore(docs, references[1..], visited, references, visited, x);
      }
      forall y | Some(y) in references ensures y in w.value.visited {
        assert Some(y) == references[0] || Some(y) in references[1..];
      }
      assert Explores(docs, references, visited, w.value);
    }
  }

  /**
    The walk ends well exactly when every location reachable without entering `visited` loads; it has then entered
    exactly those, each once.
   */
  lemma EnteredIsReachable(docs: map<string, Definition>, references: seq<Option<string>>, visited: set<string>)
    ensures var w := WalkFrom(docs, references, visited);
      && (w.Ok? <==> AllLoad(docs, references, visited))
      && (w.Ok? ==> Distinct(w.value.entered)
                    && (forall x :: x in w.value.entered <==> Reachable(docs, references, visited, x))
                    && (forall x :: x in w.value.finished <==> Reachable(docs, references, visited, x)))
  {
    WalkExplores(docs, references, visited);
    var w := WalkFrom(docs, references, visited);
    assert w.Ok? ==> visited <= w.value.visited;
    hide WalkFrom, Reachable, Explores;
    if w.Ok? {
      ExploredIsReachable(docs, references, visited, w.value);
    }
  }

  lemma ExploredIsReachable(docs: map<string, Definition>, references: seq<Option<string>>, visited: set<string>,
      w: Walk)
    requires Explores(docs, references, visited, w) && visited <= w.visited
    ensures Distinct(w.entered) && forall x :: x in w.finished <==> x in w.entered
    ensures forall x :: x in w.entered ==> x in docs
    ensures forall x :: x in w.entered <==> Reachable(docs, references, visited, x)
  {
    var g, found := ImportGraph(docs), w.visited - visited;
    forall x | x in Locations(references)
      ensures x in visited || x in found
    {
      LocationsHold(references, x);
    }
    forall x, y | x in found && Names(g, x, y)
      ensures y in visited || y in found
    {
      LocationsHold(docs[x].imports, y);
    }
    assert Closed(g, Locations(references), visited, found);
    forall x | Reachable(docs, references, visited, x)
      ensures x in found
    {
      ReachedInside(g, Locations(references), visited, found, x);
    }
  }

  lemma {:induction false} FirstAmongHolds(docs: map<string, Definition>, entered: seq<string>, kind: Kind,
      name: string)
    ensures FirstAmong(docs, entered, kind, name).Some? <==>
            exists x :: x in entered && x in docs && LookUp(docs[x], kind, name).Some?
  {
    hide LookUp;
    if entered != [] {
      FirstAmongHolds(docs, entered[1..], kind, name);
      assert entered == [entered[0]] + entered[1..];
      assert entered[0] in entered;
    }
  }

  /** A name is declared in the result exactly if the root or a reachable document declares it. */
  lemma DeclaredExactlyWhen(docs: map<string, Definition>, def: Definition, visited: set<string>, kind: Kind,
      name: string)
    requires AllLoad(docs, def.imports, visited)
    ensures var w := WalkFrom(docs, def.imports, visited);
      && w.Ok?
      && (FirstDeclared(docs, def, w.value.entered, kind, name).Some? <==>
            LookUp(def, kind, name).Some?
            || exists x :: Reachable(docs, def.imports, visited, x) && x in docs && LookUp(docs[x], kind, name).Some?)
  {
    EnteredIsReachable(docs, def.imports, visited);
    hide WalkFrom, LookUp, Reachable;
    FirstAmongHolds(docs, WalkFrom(docs, def.imports, visited).value.entered, kind, name);
  }
}
