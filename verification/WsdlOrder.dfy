/** Which declaration and which schema comes first when WSDLs import one another (src/wsdl/resolver.rs). */
module WsdlOrder {
  import opened Wrappers
  import opened SchemaTypes
  import opened WsdlTypes
  import opened WsdlImports

  // ----- Imports before what imports them

  /** One comes before the other. */
  predicate Precedes(s: seq<string>, a: string, b: string)
  {
    exists i, j :: 0 <= i < j < |s| && s[i] == a && s[j] == b
  }

  lemma PrecedesWithin(before: seq<string>, s: seq<string>, after: seq<string>, a: string, b: string)
    requires Precedes(s, a, b)
    ensures Precedes(before + s + after, a, b)
  {
    var i, j :| 0 <= i < j < |s| && s[i] == a && s[j] == b;
    var whole := before + s + after;
    assert whole[|before| + i] == a && whole[|before| + j] == b;
  }

  lemma PrecedesAcross(s: seq<string>, t: seq<string>, a: string, b: string)
    requires a in s && b in t
    ensures Precedes(s + t, a, b)
  {
    var i :| 0 <= i < |s| && s[i] == a;
    var j :| 0 <= j < |t| && t[j] == b;
    assert (s + t)[i] == a && (s + t)[|s| + j] == b;
  }

  /** `u` imports `v`, and the walk enters both. */
  predicate WalksImport(docs: map<string, Definition>, visited: set<string>, w: Walk, u: string, v: string)
  {
    u in w.entered && u in docs && Some(v) in docs[u].imports && v !in visited && v != u
  }

  /** The imported document is finished first, or else, if it leads back to the importing one, was entered first. */
  predicate ImportFirst(w: Walk, u: string, v: string)
  {
    Precedes(w.finished, v, u) || Precedes(w.entered, v, u)
  }

  lemma FirstWithin(w: Walk, inner: Walk, u: string, v: string, before: seq<string>, after: seq<string>,
      before': seq<string>, after': seq<string>)
    requires ImportFirst(inner, u, v)
    requires w.entered == before + inner.entered + after && w.finished == before' + inner.finished + after'
    ensures ImportFirst(w, u, v)
  {
    if Precedes(inner.finished, v, u) {
      PrecedesWithin(before', inner.finished, after', v, u);
    } else {
      PrecedesWithin(before, inner.entered, after, v, u);
    }
  }

  lemma OneImportFirst(
      docs: map<string, Definition>, references: seq<Option<string>>, visited: set<string>, x: string,
      inner: Walk, rest: Walk, w: Walk, u: string, v: string)
    requires x in docs && Explores(docs, docs[x].imports, visited + {x}, inner)
    requires w.entered == [x] + inner.entered + rest.entered && w.finished == inner.finished + [x] + rest.finished
    requires WalksImport(docs, visited, w, u, v)
    requires WalksImport(docs, visited + {x}, inner, u, v) ==> ImportFirst(inner, u, v)
    requires WalksImport(docs, inner.visited, rest, u, v) ==> ImportFirst(rest, u, v)
    ensures ImportFirst(w, u, v)
  {
    hide Precedes, Reachable, Distinct;
    var here := [x] + inner.entered;
    assert u == x || u in inner.entered || u in rest.entered;
    if u == x {
      assert v in inner.finished;
      PrecedesAcross(inner.finished, [x] + rest.finished, v, x);
      assert inner.finished + ([x] + rest.finished) == w.finished;
    } else if u in inner.entered {
      if v == x {
        PrecedesAcross([x], inner.entered + rest.entered, x, u);
        assert [x] + (inner.entered + rest.entered) == w.entered;
      } else {
        assert [] + inner.finished == inner.finished;
        FirstWithin(w, inner, u, v, [x], rest.entered, [], [x] + rest.finished);
      }
    } else if v in inner.visited {
      assert v in here;
      PrecedesAcross(here, rest.entered, v, u);
    } else {
      assert w.entered == here + rest.entered + [];
      FirstWithin(w, rest, u, v, here, [], inner.finished + [x], []);
    }
  }

  /** So the schemas of an imported document are resolved before those of the document that imports it. */
  lemma {:induction false} ImportsComeFirst(
      docs: map<string, Definition>, references: seq<Option<string>>, visited: set<string>, u: string, v: string)
    requires WalkFrom(docs, references, visited).Ok?
    requires WalksImport(docs, visited, WalkFrom(docs, references, visited).value, u, v)
    ensures ImportFirst(WalkFrom(docs, references, visited).value, u, v)
    decreases docs.Keys - visited, |references|
  {
    hide Explores, ImportFirst;
    if references != [] {
      if references[0].None? || references[0].value in visited {
        ImportsComeFirst(docs, references[1..], visited, u, v);
      } else {
        var x := references[0].value;
        var inner := WalkFrom(docs, docs[x].imports, visited + {x}).value;
        var rest := WalkFrom(docs, references[1..], inner.visited).value;
        WalkExplores(docs, docs[x].imports, visited + {x});
        if WalksImport(docs, visited + {x}, inner, u, v) {
          ImportsComeFirst(docs, docs[x].imports, visited + {x}, u, v);
        }
        if WalksImport(docs, inner.visited, rest, u, v) {
          ImportsComeFirst(docs, references[1..], inner.visited, u, v);
        }
        OneImportFirst(docs, references, visited, x, inner, rest, WalkFrom(docs, references, visited).value, u, v);
      }
    }
  }

  // ----- Siblings in the order they are named

  function Named(locations: seq<string>): seq<Option<string>>
  {
    if locations == [] then [] else [Some(locations[0])] + Named(locations[1..])
  }

  /** Different documents, none of them seen, that import nothing. */
  ghost predicate Leaves(docs: map<string, Definition>, visited: set<string>, locations: seq<string>)
  {
    && Distinct(locations)
    && forall i :: 0 <= i < |locations| ==>
         locations[i] in docs && locations[i] !in visited && docs[locations[i]].imports == []
  }

  /** Documents that import nothing are walked in the order in which they are named. */
  lemma {:induction false} LeavesAreWalkedInOrder(
      docs: map<string, Definition>, locations: seq<string>, visited: set<string>)
    requires Leaves(docs, visited, locations)
    ensures var w := WalkFrom(docs, Named(locations), visited);
      w.Ok? && w.value.entered == locations && w.value.finished == locations
    decreases |locations|
  {
    if locations != [] {
      var x, rest := locations[0], locations[1..];
      assert Named(locations)[1..] == Named(rest);
      forall i | 0 <= i < |rest| ensures rest[i] in docs && rest[i] !in visited + {x} && docs[rest[i]].imports == [] {
        assert rest[i] == locations[i + 1] && locations[0] != locations[i + 1];
      }
      forall i, j | 0 <= i < j < |rest| ensures rest[i] != rest[j] {
        assert locations[i + 1] != locations[j + 1];
      }
      LeavesAreWalkedInOrder(docs, rest, visited + {x});
      assert WalkFrom(docs, [], visited + {x}) == Ok(Walk(visited + {x}, [], []));
      assert locations == [x] + [] + rest && locations == [] + [x] + rest;
    }
  }

  // ----- Which declaration counts

  /** The first of these documents with the name in one of its maps, and what it says. */
  ghost predicate FirstToSay<V>(
      docs: map<string, Definition>, entered: seq<string>, part: Definition -> map<string, V>, name: string, value: V)
  {
    exists i ::
      && 0 <= i < |entered| && entered[i] in docs
      && name in part(docs[entered[i]]) && part(docs[entered[i]])[name] == value
      && forall j :: 0 <= j < i && entered[j] in docs ==> name !in part(docs[entered[j]])
  }

  /** The root says it, or else the first of the documents to say anything. */
  ghost predicate SaidFirst<V>(
      docs: map<string, Definition>, def: Definition, entered: seq<string>, part: Definition -> map<string, V>,
      name: string, value: V)
  {
    if name in part(def) then part(def)[name] == value else FirstToSay(docs, entered, part, name, value)
  }

  /** Under this name there is exactly what is said first. */
  ghost predicate HoldsFirst<V(!new)>(
      docs: map<string, Definition>, def: Definition, entered: seq<string>, part: Definition -> map<string, V>,
      held: map<string, V>, name: string)
  {
    forall v :: SaidFirst(docs, def, entered, part, name, v) <==> name in held && held[name] == v
  }

  ghost predicate FirstAt(
      docs: map<string, Definition>, entered: seq<string>, kind: Kind, name: string, item: Item, i: nat)
  {
    && i < |entered| && entered[i] in docs && LookUp(docs[entered[i]], kind, name) == Some(item)
    && forall j :: 0 <= j < i && entered[j] in docs ==> LookUp(docs[entered[j]], kind, name) == None
  }

  lemma {:induction false} FirstAmongAt(docs: map<string, Definition>, entered: seq<string>, kind: Kind, name: string)
    returns (i: nat)
    requires FirstAmong(docs, entered, kind, name).Some?
    ensures FirstAt(docs, entered, kind, name, FirstAmong(docs, entered, kind, name).value, i)
  {
    hide LookUp;
    i := 0;
    if !(entered[0] in docs && LookUp(docs[entered[0]], kind, name).Some?) {
      var k := FirstAmongAt(docs, entered[1..], kind, name);
      i := k + 1;
    }
  }

  lemma {:induction false} FirstAtIsFirst(
      docs: map<string, Definition>, entered: seq<string>, kind: Kind, name: string, item: Item, i: nat)
    requires FirstAt(docs, entered, kind, name, item, i)
    ensures FirstAmong(docs, entered, kind, name) == Some(item)
    decreases i
  {
    hide LookUp;
    if i > 0 {
      FirstAtIsFirst(docs, entered[1..], kind, name, item, i - 1);
    }
  }

  /** Looking up this kind is looking into this map. */
  ghost predicate Shows<V(!new)>(kind: Kind, part: Definition -> map<string, V>, item: V -> Item)
  {
    && (forall d, n :: LookUp(d, kind, n) == if n in part(d) then Some(item(part(d)[n])) else None)
    && (forall v, w :: item(v) == item(w) ==> v == w)
  }

  lemma SaidIsDeclared<V(!new)>(
      docs: map<string, Definition>, def: Definition, entered: seq<string>, kind: Kind,
      part: Definition -> map<string, V>, item: V -> Item, name: string, value: V)
    requires Shows(kind, part, item)
    ensures SaidFirst(docs, def, entered, part, name, value)
            <==> FirstDeclared(docs, def, entered, kind, name) == Some(item(value))
  {
    if name !in part(def) {
      if FirstAmong(docs, entered, kind, name) == Some(item(value)) {
        var i := FirstAmongAt(docs, entered, kind, name);
      }
      hide FirstAmong;
      if FirstToSay(docs, entered, part, name, value) {
        var i: nat :| i < |entered| && entered[i] in docs
          && name in part(docs[entered[i]]) && part(docs[entered[i]])[name] == value
          && forall j :: 0 <= j < i && entered[j] in docs ==> name !in part(docs[entered[j]]);
        FirstAtIsFirst(docs, entered, kind, name, item(value), i);
      }
    }
  }

  lemma SaidIsHeld<V(!new)>(
      docs: map<string, Definition>, def: Definition, entered: seq<string>, r: Definition, kind: Kind,
      part: Definition -> map<string, V>, item: V -> Item, name: string)
    requires Shows(kind, part, item)
    requires LookUp(r, kind, name) == FirstDeclared(docs, def, entered, kind, name)
    ensures HoldsFirst(docs, def, entered, part, part(r), name)
  {
    forall v ensures SaidFirst(docs, def, entered, part, name, v) <==> name in part(r) && part(r)[name] == v {
      SaidIsDeclared(docs, def, entered, kind, part, item, name, v);
    }
  }

  /** What a resolved WSDL declares, map by map: what the root declares itself, and what the walk met first. */
  lemma FirstDeclarationsAre(
      docs: map<string, Definition>, def: Definition, entered: seq<string>, r: Definition, name: string)
    requires forall kind, n :: LookUp(r, kind, n) == FirstDeclared(docs, def, entered, kind, n)
    ensures HoldsFirst(docs, def, entered, (d: Definition) => d.messages, r.messages, name)
    ensures HoldsFirst(docs, def, entered, (d: Definition) => d.portTypes, r.portTypes, name)
    ensures HoldsFirst(docs, def, entered, (d: Definition) => d.bindings, r.bindings, name)
    ensures HoldsFirst(docs, def, entered, (d: Definition) => d.services, r.services, name)
  {
    hide HoldsFirst, FirstDeclared;
    SaidIsHeld(docs, def, entered, r, MessageKind, (d: Definition) => d.messages, m => MessageItem(m), name);
    SaidIsHeld(docs, def, entered, r, PortTypeKind, (d: Definition) => d.portTypes, p => PortTypeItem(p), name);
    SaidIsHeld(docs, def, entered, r, BindingKind, (d: Definition) => d.bindings, b => BindingItem(b), name);
    SaidIsHeld(docs, def, entered, r, ServiceKind, (d: Definition) => d.services, s => ServiceItem(s), name);
  }
}
