/** The worklist that pulls in imported and included schemas (collect_all_schemas in src/xsd/resolver.rs). */
module SchemaLoader {
  import opened Wrappers
  import opened SchemaTypes
  import opened Reachability

  function EmptyFlat(): FlatTypeMap { FlatTypeMap(map[], map[], map[], map[]) }

  /** `extend` on each of the four maps: later declarations replace earlier ones. */
  function Extend(flat: FlatTypeMap, s: RawSchema): FlatTypeMap
  {
    FlatTypeMap(flat.types + s.types, flat.elements + s.elements,
                flat.attributeGroups + s.attributeGroups, flat.groups + s.groups)
  }

  /** The locations a schema names, in the order the code tries them. */
  function NamedLocations(s: RawSchema): seq<string>
  {
    Locations(s.imports) + s.includes
  }

  /** What can be loaded, and parses, as a graph. */
  function ImportGraph(files: map<string, RawSchema>): Graph
  {
    map x | x in files :: NamedLocations(files[x])
  }

  /** A processed schema: `None` for the root, otherwise the one at that location. */
  function SchemaAt(root: RawSchema, files: map<string, RawSchema>, at: Option<string>): RawSchema
  {
    if at.Some? && at.value in files then files[at.value] else root
  }

  /** Merging schemas in the order they were processed. */
  function Merged(root: RawSchema, files: map<string, RawSchema>, order: seq<Option<string>>): FlatTypeMap
  {
    if order == [] then EmptyFlat()
    else Extend(Merged(root, files, order[..|order| - 1]), SchemaAt(root, files, order[|order| - 1]))
  }

  predicate Distinct<T(==)>(s: seq<T>) { forall i, j :: 0 <= i < j < |s| ==> s[i] != s[j] }

  ghost predicate Reachable(root: RawSchema, files: map<string, RawSchema>, loadedBefore: set<string>, x: string)
  {
    Reaches(ImportGraph(files), NamedLocations(root), loadedBefore, x)
  }

  /** `order` holds the root and every reachable location, once each. */
  ghost predicate Complete(
      root: RawSchema, files: map<string, RawSchema>, loadedBefore: set<string>, order: seq<Option<string>>)
  {
    && Distinct(order)
    && None in order
    && (forall x :: Some(x) in order <==> Reachable(root, files, loadedBefore, x))
  }

  ghost predicate AllLoad(root: RawSchema, files: map<string, RawSchema>, loadedBefore: set<string>)
  {
    AllReachedLoad(ImportGraph(files), NamedLocations(root), loadedBefore)
  }

  lemma AppendDistinct<T>(s: seq<T>, x: T)
    requires Distinct(s) && x !in s
    ensures Distinct(s + [x])
  {
  }

  /** Every load was of a different, reachable location, and is remembered. */
  ghost predicate OnlyReachable(
      root: RawSchema, files: map<string, RawSchema>, loadedBefore: set<string>, loaded: set<string>,
      loads: seq<string>)
  {
    && Distinct(loads)
    && (forall x :: x in loads ==> x in loaded && Reachable(root, files, loadedBefore, x))
  }

  /** What has been loaded is queued or processed, and the queue holds what it says it does. */
  ghost predicate OnTrack(
      root: RawSchema, files: map<string, RawSchema>, loadedBefore: set<string>, loaded: set<string>,
      queue: seq<RawSchema>, queued: seq<Option<string>>, order: seq<Option<string>>)
  {
    && loadedBefore <= loaded
    && (forall x :: x in loaded && x !in loadedBefore ==>
          x in files && Reachable(root, files, loadedBefore, x) && (Some(x) in queued || Some(x) in order))
    && (forall x :: Some(x) in queued || Some(x) in order ==> x in loaded && x !in loadedBefore)
    && |queued| == |queue|
    && (forall i :: 0 <= i < |queue| ==> queue[i] == SchemaAt(root, files, queued[i]))
    && Distinct(queued) && Distinct(order) && (forall at :: at in queued ==> at !in order)
  }

  ghost predicate NamedAreLoaded(
      root: RawSchema, files: map<string, RawSchema>, order: seq<Option<string>>, loaded: set<string>,
      except: Option<Option<string>>)
  {
    forall at, x :: at in order && Some(at) != except && x in NamedLocations(SchemaAt(root, files, at)) ==> x in loaded
  }

  lemma LoadedOne(
      root: RawSchema, files: map<string, RawSchema>, loadedBefore: set<string>, loaded: set<string>,
      loads: seq<string>, x: string)
    requires OnlyReachable(root, files, loadedBefore, loaded, loads)
    requires x !in loaded && Reachable(root, files, loadedBefore, x)
    ensures OnlyReachable(root, files, loadedBefore, loaded + {x}, loads + [x])
  {
    hide Reachable, Distinct;
    assert x !in loads;
    AppendDistinct(loads, x);
  }

  lemma QueuedOne(
      root: RawSchema, files: map<string, RawSchema>, loadedBefore: set<string>, loaded: set<string>,
      queue: seq<RawSchema>, queued: seq<Option<string>>, order: seq<Option<string>>, x: string)
    requires OnTrack(root, files, loadedBefore, loaded, queue, queued, order)
    requires x !in loaded && x in files && Reachable(root, files, loadedBefore, x)
    ensures OnTrack(root, files, loadedBefore, loaded + {x}, queue + [files[x]], queued + [Some(x)], order)
    ensures None in queued ==> None in queued + [Some(x)]
  {
    hide Reachable, Distinct;
    assert Some(x) !in queued && Some(x) !in order;
    AppendDistinct(queued, Some(x));
  }

  lemma NothingMerged(root: RawSchema, files: map<string, RawSchema>)
    ensures Merged(root, files, []) == EmptyFlat()
  {
  }

  lemma MergedMore(root: RawSchema, files: map<string, RawSchema>, order: seq<Option<string>>, at: Option<string>)
    ensures Merged(root, files, order + [at]) == Extend(Merged(root, files, order), SchemaAt(root, files, at))
  {
    assert (order + [at])[..|order|] == order;
  }

  // ----- The order of processing

  /** What is queued, last to be processed first, and what has been loaded. */
  datatype Work = Work(queued: seq<Option<string>>, loaded: set<string>)

  /** Following some locations: each that is new is loaded and, if it is there, queued. */
  function Following(files: map<string, RawSchema>, w: Work, locations: seq<string>): (r: Work)
    ensures files.Keys - r.loaded < files.Keys - w.loaded
            || (files.Keys - r.loaded == files.Keys - w.loaded && r.queued == w.queued)
    decreases |locations|
  {
    if locations == [] then w
    else if locations[0] in w.loaded then Following(files, w, locations[1..])
    else
      var x := locations[0];
      Following(files, Work(if x in files then w.queued + [Some(x)] else w.queued, w.loaded + {x}), locations[1..])
  }

  /** The order in which what is queued, and what that names, is processed: last in, first out. */
  function OrderFrom(root: RawSchema, files: map<string, RawSchema>, w: Work): seq<Option<string>>
    decreases files.Keys - w.loaded, |w.queued|
  {
    if w.queued == [] then [] else
      var n := |w.queued| - 1;
      [w.queued[n]]
      + OrderFrom(root, files,
                  Following(files, w.(queued := w.queued[..n]), NamedLocations(SchemaAt(root, files, w.queued[n]))))
  }

  /** The order in which a schema set is processed. */
  function Order(root: RawSchema, files: map<string, RawSchema>, loadedBefore: set<string>): seq<Option<string>>
  {
    OrderFrom(root, files, Work([None], loadedBefore))
  }

  lemma {:induction false} FollowingAppend(files: map<string, RawSchema>, w: Work, a: seq<string>, b: seq<string>)
    ensures Following(files, w, a + b) == Following(files, Following(files, w, a), b)
    decreases |a|
  {
    if a == [] {
      assert a + b == b;
    } else {
      assert (a + b)[1..] == a[1..] + b;
      var x := a[0];
      var next := if x in w.loaded then w
                  else Work(if x in files then w.queued + [Some(x)] else w.queued, w.loaded + {x});
      FollowingAppend(files, next, a[1..], b);
    }
  }

  lemma FollowingNothing(files: map<string, RawSchema>, w: Work)
    ensures Following(files, w, []) == w && Locations([]) == []
  {
  }

  lemma FollowingOne(files: map<string, RawSchema>, w: Work, x: string)
    ensures Following(files, w, [x]) ==
              if x in w.loaded then w
              else Work(if x in files then w.queued + [Some(x)] else w.queued, w.loaded + {x})
  {
    assert [x][1..] == [];
  }

  /** One reference more. */
  lemma FollowingMore(files: map<string, RawSchema>, w: Work, before: seq<string>, x: string, now: Work)
    requires now == Following(files, Following(files, w, before), [x])
    ensures now == Following(files, w, before + [x])
  {
    FollowingAppend(files, w, before, [x]);
  }

  lemma OrderFirst(root: RawSchema, files: map<string, RawSchema>, w: Work, next: Work)
    requires w.queued != []
    requires var at := w.queued[|w.queued| - 1]; var popped := w.(queued := w.queued[..|w.queued| - 1]);
      next == Following(files, Following(files, popped, Locations(SchemaAt(root, files, at).imports)),
                        SchemaAt(root, files, at).includes)
    ensures OrderFrom(root, files, w) == [w.queued[|w.queued| - 1]] + OrderFrom(root, files, next)
  {
    var at, popped := w.queued[|w.queued| - 1], w.(queued := w.queued[..|w.queued| - 1]);
    var schema := SchemaAt(root, files, at);
    FollowingAppend(files, popped, Locations(schema.imports), schema.includes);
    hide Following, SchemaAt;
  }

  /** Processing what is queued completes the order. */
  ghost predicate InOrder(
      root: RawSchema, files: map<string, RawSchema>, before: set<string>, order: seq<Option<string>>, w: Work)
  {
    order + OrderFrom(root, files, w) == Order(root, files, before)
  }

  lemma StartsInOrder(root: RawSchema, files: map<string, RawSchema>, before: set<string>)
    ensures InOrder(root, files, before, [], Work([None], before))
  {
    hide OrderFrom;
    assert [] + Order(root, files, before) == Order(root, files, before);
  }

  /** One schema is processed, and what it names followed. */
  lemma StillInOrder(
      root: RawSchema, files: map<string, RawSchema>, before: set<string>, order: seq<Option<string>>, w: Work,
      next: Work)
    requires InOrder(root, files, before, order, w) && w.queued != []
    requires var at := w.queued[|w.queued| - 1]; var popped := w.(queued := w.queued[..|w.queued| - 1]);
      next == Following(files, Following(files, popped, Locations(SchemaAt(root, files, at).imports)),
                        SchemaAt(root, files, at).includes)
    ensures InOrder(root, files, before, order + [w.queued[|w.queued| - 1]], next)
  {
    var at := w.queued[|w.queued| - 1];
    OrderFirst(root, files, w, next);
    hide OrderFrom, Following, SchemaAt, Order;
    assert order + ([at] + OrderFrom(root, files, next)) == (order + [at]) + OrderFrom(root, files, next);
  }

  lemma NothingLeft(
      root: RawSchema, files: map<string, RawSchema>, before: set<string>, order: seq<Option<string>>, w: Work)
    requires InOrder(root, files, before, order, w) && w.queued == []
    ensures order == Order(root, files, before)
  {
    assert order + [] == order;
  }

  lemma LocationsMore(references: seq<Option<string>>, i: nat)
    requires i < |references|
    ensures Locations(references[..i + 1]) ==
            if references[i].Some? then Locations(references[..i]) + [references[i].value]
            else Locations(references[..i])
  {
    assert references[..i + 1] == references[..i] + [references[i]];
    LocationsAppend(references[..i], references[i]);
  }

  lemma {:induction false} LocationsAppend(references: seq<Option<string>>, r: Option<string>)
    ensures Locations(references + [r]) == Locations(references) + if r.Some? then [r.value] else []
  {
    if references == [] {
      assert [r][1..] == [] && [] + [r] == [r];
    } else {
      assert (references + [r])[1..] == references[1..] + [r];
      LocationsAppend(references[1..], r);
    }
  }

  class SchemaCollector {
    const files: map<string, RawSchema>
    var alreadyLoaded: set<string>
    var queue: seq<RawSchema>
    ghost var queued: seq<Option<string>>  // where each queued schema came from
    ghost var order: seq<Option<string>>   // what has been taken off the queue
    ghost var loads: seq<string>           // every call of the loader
    ghost const root: RawSchema
    ghost const loadedBefore: set<string>

    constructor (root: RawSchema, files: map<string, RawSchema>, alreadyLoaded: set<string>)
      ensures this.root == root && this.files == files
      ensures this.alreadyLoaded == loadedBefore == alreadyLoaded
      ensures queue == [root] && queued == [None] && order == [] && loads == []
    {
      this.root, this.files, this.alreadyLoaded, this.loadedBefore := root, files, alreadyLoaded, alreadyLoaded;
      queue, queued, order, loads := [root], [None], [], [];
    }

    ghost function ToDo(): Work
      reads this
    {
      Work(queued, alreadyLoaded)
    }

    ghost predicate Logged()
      reads this
    {
      OnlyReachable(root, files, loadedBefore, alreadyLoaded, loads)
    }

    ghost predicate Valid()
      reads this
    {
      && Logged()
      && OnTrack(root, files, loadedBefore, alreadyLoaded, queue, queued, order)
    }

    /** Everything the processed schemas name has been loaded, except what `current` names. */
    ghost predicate Followed(current: Option<Option<string>>)
      reads this
    {
      NamedAreLoaded(root, files, order, alreadyLoaded, current)
    }

    /** A location named by a processed schema may be followed. */
    lemma MayFollow(at: Option<string>, location: string)
      requires Valid() && at in order
      requires location in NamedLocations(SchemaAt(root, files, at))
      ensures location in loadedBefore || Reachable(root, files, loadedBefore, location)
    {
      if location !in loadedBefore {
        var g := ImportGraph(files);
        match at {
          case None => RootReached(g, NamedLocations(root), loadedBefore, location);
          case Some(x) =>
            assert Names(g, x, location);
            StepReached(g, NamedLocations(root), loadedBefore, x, location);
        }
      }
    }

    /** One import or include: skip it if its location has been seen, otherwise load and queue it. */
    method Follow(location: string, ghost at: Option<string>) returns (error: Option<SchemaError>)
      requires Valid() && Followed(Some(at)) && at in order
      requires location in NamedLocations(SchemaAt(root, files, at))
      modifies this`alreadyLoaded, this`queue, this`queued, this`loads
      ensures old(alreadyLoaded) <= alreadyLoaded && location in alreadyLoaded && Logged()
      ensures error.None? ==> Valid() && Followed(Some(at)) && (None in old(queued) ==> None in queued)
      ensures error.None? ==> Progress(old(alreadyLoaded), old(queue))
      ensures error.None? ==> ToDo() == Following(files, old(ToDo()), [location])
      ensures error.Some? ==> error.value == LoadFailed(location) && Failed(error.value)
    {
      MayFollow(at, location);
      FollowingOne(files, ToDo(), location);
      hide OnTrack, OnlyReachable, Reachable, Distinct, Following;
      if location in alreadyLoaded {
        return None;
      }
      assert loadedBefore <= alreadyLoaded by { BeforeIsLoaded(); }
      LoadedOne(root, files, loadedBefore, alreadyLoaded, loads, location);
      if location in files {
        QueuedOne(root, files, loadedBefore, alreadyLoaded, queue, queued, order, location);
      }
      alreadyLoaded := alreadyLoaded + {location};
      loads := loads + [location];
      if location !in files {
        return Some(LoadFailed(location));
      }
      queue, queued := queue + [files[location]], queued + [Some(location)];
      return None;
    }

    lemma BeforeIsLoaded()
      requires Valid()
      ensures loadedBefore <= alreadyLoaded
    {
    }

    method FollowImports(imports: seq<Option<string>>, ghost at: Option<string>) returns (error: Option<SchemaError>)
      requires Valid() && Followed(Some(at)) && at in order
      requires imports == SchemaAt(root, files, at).imports
      modifies this`alreadyLoaded, this`queue, this`queued, this`loads
      ensures old(alreadyLoaded) <= alreadyLoaded && Logged()
      ensures error.None? ==> Valid() && Followed(Some(at)) && (None in old(queued) ==> None in queued)
      ensures error.None? ==> forall x :: Some(x) in imports ==> x in alreadyLoaded
      ensures error.None? ==> Progress(old(alreadyLoaded), old(queue))
      ensures error.None? ==> ToDo() == Following(files, old(ToDo()), Locations(imports))
      ensures error.Some? ==> Failed(error.value)
    {
      LoggedWhenValid();
      FollowingNothing(files, ToDo());
      hide Valid, Followed, Logged, Failed, Following, Locations;
      for i := 0 to |imports|
        invariant Valid() && Followed(Some(at)) && Logged() && (None in old(queued) ==> None in queued)
        invariant old(alreadyLoaded) <= alreadyLoaded && Progress(old(alreadyLoaded), old(queue))
        invariant ToDo() == Following(files, old(ToDo()), Locations(imports[..i]))
        invariant forall k :: 0 <= k < i && imports[k].Some? ==> imports[k].value in alreadyLoaded
      {
        LocationsMore(imports, i);
        if imports[i].Some? {
          LocationsHold(imports, imports[i].value);
          error := Follow(imports[i].value, at);
          if error.Some? {
            return;
          }
          FollowingMore(files, old(ToDo()), Locations(imports[..i]), imports[i].value, ToDo());
        }
      }
      assert imports[..|imports|] == imports;
      return None;
    }

    method FollowIncludes(includes: seq<string>, ghost at: Option<string>) returns (error: Option<SchemaError>)
      requires Valid() && Followed(Some(at)) && at in order
      requires includes == SchemaAt(root, files, at).includes
      modifies this`alreadyLoaded, this`queue, this`queued, this`loads
      ensures old(alreadyLoaded) <= alreadyLoaded && Logged()
      ensures error.None? ==> Valid() && Followed(Some(at)) && (None in old(queued) ==> None in queued)
      ensures error.None? ==> forall x :: x in includes ==> x in alreadyLoaded
      ensures error.None? ==> Progress(old(alreadyLoaded), old(queue))
      ensures error.None? ==> ToDo() == Following(files, old(ToDo()), includes)
      ensures error.Some? ==> Failed(error.value)
    {
      LoggedWhenValid();
      FollowingNothing(files, ToDo());
      hide Valid, Followed, Logged, Failed, Following;
      for i := 0 to |includes|
        invariant Valid() && Followed(Some(at)) && Logged() && (None in old(queued) ==> None in queued)
        invariant old(alreadyLoaded) <= alreadyLoaded && Progress(old(alreadyLoaded), old(queue))
        invariant ToDo() == Following(files, old(ToDo()), includes[..i])
        invariant forall k :: 0 <= k < i ==> includes[k] in alreadyLoaded
      {
        error := Follow(includes[i], at);
        if error.Some? {
          return;
        }
        assert includes[..i + 1] == includes[..i] + [includes[i]];
        FollowingMore(files, old(ToDo()), includes[..i], includes[i], ToDo());
      }
      assert includes[..|includes|] == includes;
      return None;
    }

    lemma LoggedWhenValid()
      ensures Valid() ==> Logged()
    {
    }

    /** Either nothing new was loaded and the queue is as it was, or fewer loadable locations remain. */
    ghost predicate Progress(loaded: set<string>, queueBefore: seq<RawSchema>)
      reads this
    {
      if alreadyLoaded == loaded then queue == queueBefore
      else files.Keys - alreadyLoaded < files.Keys - loaded
    }

    ghost predicate Failed(error: SchemaError)
    {
      error.LoadFailed? && error.location !in files && Reachable(root, files, loadedBefore, error.location)
    }

    method TakeLast() returns (schema: RawSchema, ghost at: Option<string>)
      requires Valid() && Followed(None) && queue != []
      modifies this`queue, this`queued, this`order
      ensures Valid() && Followed(Some(at)) && order == old(order) + [at] && schema == SchemaAt(root, files, at)
      ensures |queue| < |old(queue)| && old(queued) == queued + [at]
      ensures None in old(queued) || None in old(order) ==> None in queued || None in order
    {
      hide Reachable, NamedLocations;
      schema := queue[|queue| - 1];
      at := queued[|queued| - 1];
      assert queued == queued[..|queued| - 1] + [at];
      AppendDistinct(order, at);
      queue, queued, order := queue[..|queue| - 1], queued[..|queued| - 1], order + [at];
    }

    /** Takes the last schema off the queue and follows what it names. */
    method ProcessLast() returns (schema: RawSchema, ghost at: Option<string>, error: Option<SchemaError>)
      requires Valid() && Followed(None) && queue != [] && (None in queued || None in order)
      modifies this`alreadyLoaded, this`queue, this`queued, this`order, this`loads
      ensures order == old(order) + [at] && schema == SchemaAt(root, files, at)
      ensures Logged() && (error.Some? ==> Failed(error.value))
      ensures error.None? ==> Valid() && Followed(None) && (None in queued || None in order)
      ensures error.None? ==> (alreadyLoaded == old(alreadyLoaded) && |queue| < |old(queue)|)
                              || files.Keys - alreadyLoaded < files.Keys - old(alreadyLoaded)
      ensures error.None? ==> |old(queued)| >= 1 && at == old(queued)[|old(queued)| - 1]
      ensures error.None? ==>
                var popped := old(ToDo()).(queued := old(queued)[..|old(queued)| - 1]);
                ToDo() == Following(files, Following(files, popped, Locations(schema.imports)), schema.includes)
    {
      LoggedWhenValid();
      hide Valid, Followed, Logged, Failed, SchemaAt, Following, Locations;
      schema, at := TakeLast();
      LoggedWhenValid();
      assert old(queued)[..|old(queued)| - 1] == queued;
      error := FollowImports(schema.imports, at);
      if error.Some? {
        return;
      }
      error := FollowIncludes(schema.includes, at);
      if error.Some? {
        return;
      }
      AllFollowed(at);
    }

    method CollectAllSchemas() returns (r: Result<FlatTypeMap, SchemaError>)
      requires queue == [root] && queued == [None] && order == [] && loads == [] && alreadyLoaded == loadedBefore
      modifies this
      ensures r.Ok? <==> AllLoad(root, files, loadedBefore)
      ensures r.Ok? ==> Complete(root, files, loadedBefore, order) && r.value == Merged(root, files, order)
      ensures r.Ok? ==> order == Order(root, files, loadedBefore)
      ensures r.Ok? ==> forall x :: x in alreadyLoaded <==> x in loadedBefore || Some(x) in order
      ensures r.Err? ==> Failed(r.error)
      ensures Logged()
    {
      StartsValid();
      StartsInOrder(root, files, loadedBefore);
      hide Valid, Followed, Logged, Failed, Complete, AllLoad, Reachable, Merged, SchemaAt, Extend, Distinct;
      hide InOrder, Following, Locations, Order;
      var flat := EmptyFlat();
      NothingMerged(root, files);
      while queue != []
        invariant Valid() && Followed(None) && Logged()
        invariant InOrder(root, files, loadedBefore, order, ToDo())
        invariant flat == Merged(root, files, order)
        invariant None in queued || None in order
        decreases files.Keys - alreadyLoaded, |queue|
      {
        ghost var before, work := order, ToDo();
        var schema, at, error := ProcessLast();
        if error.Some? {
          return Err(error.value);
        }
        StillInOrder(root, files, loadedBefore, before, work, ToDo());
        MergedMore(root, files, before, at);
        flat := Extend(flat, schema);
      }
      Finished();
      NothingQueued();
      NothingLeft(root, files, loadedBefore, order, ToDo());
      return Ok(flat);
    }

    lemma NothingQueued()
      requires Valid() && queue == []
      ensures queued == []
    {
    }

    lemma StartsValid()
      requires queue == [root] && queued == [None] && order == [] && loads == [] && alreadyLoaded == loadedBefore
      ensures Valid() && Followed(None) && Logged()
    {
    }

    lemma AllFollowed(at: Option<string>)
      requires Valid() && Followed(Some(at)) && at in order
      requires forall x :: Some(x) in SchemaAt(root, files, at).imports ==> x in alreadyLoaded
      requires forall x :: x in SchemaAt(root, files, at).includes ==> x in alreadyLoaded
      ensures Followed(None)
    {
      var schema := SchemaAt(root, files, at);
      forall x | x in NamedLocations(schema)
        ensures x in alreadyLoaded
      {
        LocationsHold(schema.imports, x);
      }
    }

    lemma Finished()
      requires Valid() && Followed(None) && queue == [] && None in order
      ensures Complete(root, files, loadedBefore, order) && AllLoad(root, files, loadedBefore)
    {
      var g := ImportGraph(files);
      var found := alreadyLoaded - loadedBefore;
      forall r | r in NamedLocations(root)
        ensures r in loadedBefore || r in found
      {
        assert r in NamedLocations(SchemaAt(root, files, None));
      }
      forall x, y | x in found && Names(g, x, y)
        ensures y in loadedBefore || y in found
      {
        assert y in NamedLocations(SchemaAt(root, files, Some(x)));
      }
      assert Closed(g, NamedLocations(root), loadedBefore, found);
      forall x | Reachable(root, files, loadedBefore, x)
        ensures x in found
      {
        ReachedInside(g, NamedLocations(root), loadedBefore, found, x);
      }
    }
  }

  // ----- Which declaration wins

  /** Maps laid over one another, the last on top. */
  function Overlaid<K, V>(maps: seq<map<K, V>>): map<K, V>
  {
    if maps == [] then map[] else Overlaid(maps[..|maps| - 1]) + maps[|maps| - 1]
  }

  /** The last of some maps to have this key, and what it says. */
  ghost predicate LastWith<K, V>(maps: seq<map<K, V>>, key: K, value: V, k: nat)
  {
    k < |maps| && key in maps[k] && maps[k][key] == value && forall j :: k < j < |maps| ==> key !in maps[j]
  }

  lemma {:induction false} OverlaidHolds<K, V>(maps: seq<map<K, V>>, key: K)
    ensures key in Overlaid(maps) <==> exists k :: 0 <= k < |maps| && key in maps[k]
    ensures key in Overlaid(maps) ==> exists k: nat :: LastWith(maps, key, Overlaid(maps)[key], k)
  {
    if maps != [] {
      var shorter, last := maps[..|maps| - 1], maps[|maps| - 1];
      OverlaidHolds(shorter, key);
      if key in last {
        assert LastWith(maps, key, last[key], |maps| - 1);
      } else if key in Overlaid(shorter) {
        var k: nat :| LastWith(shorter, key, Overlaid(shorter)[key], k);
        assert LastWith(maps, key, Overlaid(shorter)[key], k);
      }
    }
  }

  function SchemasAt(root: RawSchema, files: map<string, RawSchema>, order: seq<Option<string>>): seq<RawSchema>
  {
    seq(|order|, i requires 0 <= i < |order| => SchemaAt(root, files, order[i]))
  }

  function TypesOf(schemas: seq<RawSchema>): seq<map<QName, XsdType>>
  {
    seq(|schemas|, i requires 0 <= i < |schemas| => schemas[i].types)
  }

  function ElementsOf(schemas: seq<RawSchema>): seq<map<QName, Element>>
  {
    seq(|schemas|, i requires 0 <= i < |schemas| => schemas[i].elements)
  }

  function GroupsOf(schemas: seq<RawSchema>): seq<map<QName, Group>>
  {
    seq(|schemas|, i requires 0 <= i < |schemas| => schemas[i].groups)
  }

  function AttributeGroupsOf(schemas: seq<RawSchema>): seq<map<QName, AttributeGroup>>
  {
    seq(|schemas|, i requires 0 <= i < |schemas| => schemas[i].attributeGroups)
  }

  lemma OverlaidMore<K, V>(maps: seq<map<K, V>>, last: map<K, V>)
    ensures Overlaid(maps + [last]) == Overlaid(maps) + last
  {
    assert (maps + [last])[..|maps|] == maps;
  }

  lemma SchemasMore(schemas: seq<RawSchema>, s: RawSchema)
    ensures TypesOf(schemas + [s]) == TypesOf(schemas) + [s.types]
    ensures ElementsOf(schemas + [s]) == ElementsOf(schemas) + [s.elements]
    ensures GroupsOf(schemas + [s]) == GroupsOf(schemas) + [s.groups]
    ensures AttributeGroupsOf(schemas + [s]) == AttributeGroupsOf(schemas) + [s.attributeGroups]
  {
  }

  lemma SchemasAtMore(root: RawSchema, files: map<string, RawSchema>, order: seq<Option<string>>, at: Option<string>)
    ensures SchemasAt(root, files, order + [at]) == SchemasAt(root, files, order) + [SchemaAt(root, files, at)]
  {
    hide SchemaAt;
  }

  lemma {:induction false} MergedIsOverlaid(
      root: RawSchema, files: map<string, RawSchema>, order: seq<Option<string>>)
    ensures var flat, schemas := Merged(root, files, order), SchemasAt(root, files, order);
      && flat.types == Overlaid(TypesOf(schemas)) && flat.elements == Overlaid(ElementsOf(schemas))
      && flat.groups == Overlaid(GroupsOf(schemas))
      && flat.attributeGroups == Overlaid(AttributeGroupsOf(schemas))
  {
    if order != [] {
      var shorter, last := order[..|order| - 1], order[|order| - 1];
      var fewer, s := SchemasAt(root, files, shorter), SchemaAt(root, files, last);
      MergedIsOverlaid(root, files, shorter);
      assert order == shorter + [last];
      MergedMore(root, files, shorter, last);
      SchemasAtMore(root, files, shorter, last);
      hide Merged, SchemaAt, SchemasAt, Overlaid, TypesOf, ElementsOf, GroupsOf, AttributeGroupsOf;
      SchemasMore(fewer, s);
      OverlaidMore(TypesOf(fewer), s.types);
      OverlaidMore(ElementsOf(fewer), s.elements);
      OverlaidMore(GroupsOf(fewer), s.groups);
      OverlaidMore(AttributeGroupsOf(fewer), s.attributeGroups);
    }
  }

  /** The last of these schemas to have the key in one of its maps, and what it says. */
  ghost predicate LastToSay<V>(schemas: seq<RawSchema>, part: RawSchema -> map<QName, V>, name: QName, value: V)
  {
    exists k :: 0 <= k < |schemas| && name in part(schemas[k]) && part(schemas[k])[name] == value
                && forall j :: k < j < |schemas| ==> name !in part(schemas[j])
  }

  lemma LastSays<V>(schemas: seq<RawSchema>, part: RawSchema -> map<QName, V>, maps: seq<map<QName, V>>, name: QName)
    requires |maps| == |schemas| && (forall i :: 0 <= i < |maps| ==> maps[i] == part(schemas[i]))
    ensures name in Overlaid(maps) ==> LastToSay(schemas, part, name, Overlaid(maps)[name])
    ensures name in Overlaid(maps) <==> exists k :: 0 <= k < |schemas| && name in part(schemas[k])
  {
    OverlaidHolds(maps, name);
    hide Overlaid;
    if name in Overlaid(maps) {
      var k: nat :| LastWith(maps, name, Overlaid(maps)[name], k);
    }
  }

  /** Of several declarations of one type, element, group or attribute group, the one processed last is kept. */
  lemma LastDeclarationWins(
      root: RawSchema, files: map<string, RawSchema>, order: seq<Option<string>>, name: QName)
    ensures var flat, schemas := Merged(root, files, order), SchemasAt(root, files, order);
      && (name in flat.types ==> LastToSay(schemas, (s: RawSchema) => s.types, name, flat.types[name]))
      && (name in flat.elements ==> LastToSay(schemas, (s: RawSchema) => s.elements, name, flat.elements[name]))
      && (name in flat.groups ==> LastToSay(schemas, (s: RawSchema) => s.groups, name, flat.groups[name]))
      && (name in flat.attributeGroups ==>
            LastToSay(schemas, (s: RawSchema) => s.attributeGroups, name, flat.attributeGroups[name]))
  {
    MergedIsOverlaid(root, files, order);
    var schemas := SchemasAt(root, files, order);
    hide Merged, SchemasAt, Overlaid, LastToSay;
    LastSays(schemas, (s: RawSchema) => s.types, TypesOf(schemas), name);
    LastSays(schemas, (s: RawSchema) => s.elements, ElementsOf(schemas), name);
    LastSays(schemas, (s: RawSchema) => s.groups, GroupsOf(schemas), name);
    LastSays(schemas, (s: RawSchema) => s.attributeGroups, AttributeGroupsOf(schemas), name);
  }

  /** The merged type map declares exactly the names the processed schemas declare. */
  lemma MergedTypeNames(root: RawSchema, files: map<string, RawSchema>, order: seq<Option<string>>, name: QName)
    ensures name in Merged(root, files, order).types <==>
            exists at :: at in order && name in SchemaAt(root, files, at).types
  {
    MergedIsOverlaid(root, files, order);
    hide Merged, SchemaAt;
    var types := TypesOf(SchemasAt(root, files, order));
    OverlaidHolds(types, name);
    forall k | 0 <= k < |order| ensures types[k] == SchemaAt(root, files, order[k]).types && order[k] in order {
    }
  }

  // ----- The order, for schemas that name nothing further

  function Backwards(locations: seq<string>): seq<Option<string>>
  {
    if locations == [] then [] else Backwards(locations[1..]) + [Some(locations[0])]
  }

  /** A schema that names no other. */
  predicate IsLeaf(s: RawSchema) { (forall r :: r in s.imports ==> r == None) && s.includes == [] }

  /** Different locations that load and have not been seen. */
  predicate AreNew(files: map<string, RawSchema>, loaded: set<string>, locations: seq<string>)
  {
    Distinct(locations) && forall x :: x in locations ==> x in files && x !in loaded
  }

  lemma RestAreNew(files: map<string, RawSchema>, loaded: set<string>, locations: seq<string>)
    requires locations != [] && AreNew(files, loaded, locations)
    ensures locations[0] in files && locations[0] !in loaded
    ensures AreNew(files, loaded + {locations[0]}, locations[1..])
  {
    var x, rest := locations[0], locations[1..];
    forall y | y in rest ensures y in files && y !in loaded + {x} {
      var i :| 0 <= i < |rest| && rest[i] == y;
      assert locations[i + 1] == y && locations[0] != locations[i + 1];
    }
    forall i, j | 0 <= i < j < |rest| ensures rest[i] != rest[j] {
      assert locations[i + 1] != locations[j + 1];
    }
  }

  function Members(locations: seq<string>): set<string> { set x | x in locations }

  lemma {:induction false} FollowingNew(files: map<string, RawSchema>, w: Work, locations: seq<string>)
    requires AreNew(files, w.loaded, locations)
    ensures Following(files, w, locations) == Work(w.queued + Somes(locations), w.loaded + Members(locations))
    decreases |locations|
  {
    if locations == [] {
      assert w.queued + Somes(locations) == w.queued;
    } else {
      var x, rest := locations[0], locations[1..];
      RestAreNew(files, w.loaded, locations);
      var next := Work(w.queued + [Some(x)], w.loaded + {x});
      assert Following(files, w, locations) == Following(files, next, rest);
      hide AreNew, Following;
      FollowingNew(files, next, rest);
      assert locations == [x] + rest;
      assert next.queued + Somes(rest) == w.queued + Somes(locations);
      assert next.loaded + Members(rest) == w.loaded + Members(locations);
    }
  }

  function Somes(locations: seq<string>): (r: seq<Option<string>>)
    ensures |r| == |locations| && forall i :: 0 <= i < |r| ==> r[i] == Some(locations[i])
  {
    seq(|locations|, i requires 0 <= i < |locations| => Some(locations[i]))
  }

  lemma {:induction false} NoLocations(references: seq<Option<string>>)
    requires forall i :: 0 <= i < |references| ==> references[i] == None
    ensures Locations(references) == []
  {
    if references != [] {
      NoLocations(references[1..]);
    }
  }

  lemma LeafNamesNone(s: RawSchema)
    requires IsLeaf(s)
    ensures NamedLocations(s) == []
  {
    forall i | 0 <= i < |s.imports| ensures s.imports[i] == None {
      assert s.imports[i] in s.imports;
    }
    NoLocations(s.imports);
  }

  lemma {:induction false} LeavesInOrder(
      root: RawSchema, files: map<string, RawSchema>, loaded: set<string>, locations: seq<string>)
    requires forall i :: 0 <= i < |locations| ==> locations[i] in files && IsLeaf(files[locations[i]])
    ensures OrderFrom(root, files, Work(Somes(locations), loaded)) == Backwards(locations)
    decreases |locations|
  {
    if locations != [] {
      var n := |locations| - 1;
      var x, rest := locations[n], locations[..n];
      LeafNamesNone(files[x]);
      assert Somes(locations)[..n] == Somes(rest);
      LeavesInOrder(root, files, loaded, rest);
      hide IsLeaf, NamedLocations;
      BackwardsLast(rest, x);
      assert locations == rest + [x];
    }
  }

  lemma {:induction false} BackwardsLast(locations: seq<string>, x: string)
    ensures Backwards(locations + [x]) == [Some(x)] + Backwards(locations)
  {
    if locations == [] {
      assert ([] + [x])[1..] == [] && [] + [Some(x)] == [Some(x)];
    } else {
      assert (locations + [x])[1..] == locations[1..] + [x];
      BackwardsLast(locations[1..], x);
    }
  }

  /** When what the root names names nothing further: the root first, then its includes and imports backwards. */
  lemma LeavesAreProcessedBackwards(root: RawSchema, files: map<string, RawSchema>, loadedBefore: set<string>)
    requires AreNew(files, loadedBefore, Locations(root.imports) + root.includes)
    requires forall x :: x in Locations(root.imports) + root.includes && x in files ==> IsLeaf(files[x])
    ensures Order(root, files, loadedBefore)
            == [None] + Backwards(root.includes) + Backwards(Locations(root.imports))
  {
    var named := NamedLocations(root);
    forall i | 0 <= i < |named| ensures named[i] in files && IsLeaf(files[named[i]]) {
      assert named[i] in named;
    }
    RootThenLeaves(root, files, loadedBefore, named);
    hide IsLeaf, AreNew, Order;
    BackwardsBoth(Locations(root.imports), root.includes);
  }

  lemma RootThenLeaves(root: RawSchema, files: map<string, RawSchema>, loadedBefore: set<string>, named: seq<string>)
    requires named == NamedLocations(root) && AreNew(files, loadedBefore, named)
    requires forall i :: 0 <= i < |named| ==> named[i] in files && IsLeaf(files[named[i]])
    ensures Order(root, files, loadedBefore) == [None] + Backwards(named)
  {
    RootFirst(root, files, loadedBefore, named);
    FollowingNew(files, Work([], loadedBefore), named);
    LeavesInOrder(root, files, loadedBefore + Members(named), named);
    hide *;
    assert [] + Somes(named) == Somes(named);
  }

  lemma RootFirst(root: RawSchema, files: map<string, RawSchema>, loadedBefore: set<string>, named: seq<string>)
    requires named == NamedLocations(root)
    ensures Order(root, files, loadedBefore)
            == [None] + OrderFrom(root, files, Following(files, Work([], loadedBefore), named))
  {
    hide NamedLocations, Following;
    var w := Work([None], loadedBefore);
    assert w.queued[..0] == [];
    assert w.(queued := []) == Work([], loadedBefore);
  }

  lemma {:induction false} BackwardsBoth(a: seq<string>, b: seq<string>)
    ensures Backwards(a + b) == Backwards(b) + Backwards(a)
  {
    if a == [] {
      assert a + b == b && Backwards(b) + [] == Backwards(b);
    } else {
      assert (a + b)[1..] == a[1..] + b;
      BackwardsBoth(a[1..], b);
    }
  }

  /** The types collected are exactly those of the root and of the schemas reachable from it. */
  lemma CollectedTypeNames(
      root: RawSchema, files: map<string, RawSchema>, loadedBefore: set<string>, order: seq<Option<string>>,
      name: QName)
    requires Complete(root, files, loadedBefore, order) && AllLoad(root, files, loadedBefore)
    ensures name in Merged(root, files, order).types <==>
            || name in root.types
            || exists x :: Reachable(root, files, loadedBefore, x) && name in files[x].types
  {
    MergedTypeNames(root, files, order, name);
    forall x | Reachable(root, files, loadedBefore, x) ensures x in files && Some(x) in order {
    }
    hide Reachable, Merged, AllLoad, AllReachedLoad;
    if name in root.types {
      assert name in SchemaAt(root, files, None).types;
    }
    if x :| Reachable(root, files, loadedBefore, x) && name in files[x].types {
      assert Some(x) in order && name in SchemaAt(root, files, Some(x)).types;
    }
    if at :| at in order && name in SchemaAt(root, files, at).types {
      if at.Some? {
        assert Reachable(root, files, loadedBefore, at.value);
      }
    }
  }
}
