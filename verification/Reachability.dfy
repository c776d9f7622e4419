/** Walks through documents that name further documents, as both import resolvers follow them. */
module Reachability {
  import opened Wrappers

  /** The locations among some references, in order; a reference need not have one. */
  function Locations(references: seq<Option<string>>): seq<string>
  {
    if references == [] then []
    else (if references[0].Some? then [references[0].value] else []) + Locations(references[1..])
  }

  lemma {:induction false} LocationsHold(references: seq<Option<string>>, x: string)
    ensures x in Locations(references) <==> Some(x) in references
  {
    if references != [] {
      LocationsHold(references[1..], x);
      assert references == [references[0]] + references[1..];
    }
  }

  /** For each document that can be loaded, the locations it names, in document order. */
  type Graph = map<string, seq<string>>

  predicate Names(g: Graph, x: string, y: string) { x in g && y in g[x] }

  /** A walk that starts at one of `roots`, follows references, and never enters `avoid`. */
  ghost predicate IsWalk(g: Graph, roots: seq<string>, avoid: set<string>, walk: seq<string>)
  {
    && |walk| >= 1 && walk[0] in roots
    && (forall i :: 0 <= i < |walk| ==> walk[i] !in avoid)
    && (forall i, j :: 0 <= i && j == i + 1 < |walk| ==> Names(g, walk[i], walk[j]))
  }

  ghost predicate Reaches(g: Graph, roots: seq<string>, avoid: set<string>, x: string)
  {
    exists walk :: IsWalk(g, roots, avoid, walk) && walk[|walk| - 1] == x
  }

  /** Everything reached can be loaded. */
  ghost predicate AllReachedLoad(g: Graph, roots: seq<string>, avoid: set<string>)
  {
    forall x :: Reaches(g, roots, avoid, x) ==> x in g
  }

  lemma RootReached(g: Graph, roots: seq<string>, avoid: set<string>, x: string)
    requires x in roots && x !in avoid
    ensures Reaches(g, roots, avoid, x)
  {
    assert IsWalk(g, roots, avoid, [x]);
  }

  lemma StepReached(g: Graph, roots: seq<string>, avoid: set<string>, x: string, y: string)
    requires Reaches(g, roots, avoid, x) && Names(g, x, y) && y !in avoid
    ensures Reaches(g, roots, avoid, y)
  {
    var walk :| IsWalk(g, roots, avoid, walk) && walk[|walk| - 1] == x;
    var longer := walk + [y];
    assert IsWalk(g, roots, avoid, longer);
    assert longer[|longer| - 1] == y;
  }

  /** `found` holds every root and everything its members name, as far as `avoid` allows. */
  ghost predicate Closed(g: Graph, roots: seq<string>, avoid: set<string>, found: set<string>)
  {
    && (forall r :: r in roots ==> r in avoid || r in found)
    && (forall x, y :: x in found && Names(g, x, y) ==> y in avoid || y in found)
  }

  lemma {:induction false} WalkStaysInside(
      g: Graph, roots: seq<string>, avoid: set<string>, found: set<string>, walk: seq<string>)
    requires Closed(g, roots, avoid, found) && IsWalk(g, roots, avoid, walk)
    ensures walk[|walk| - 1] in found
  {
    if |walk| > 1 {
      var shorter := walk[..|walk| - 1];
      assert IsWalk(g, roots, avoid, shorter);
      WalkStaysInside(g, roots, avoid, found, shorter);
      assert Names(g, walk[|walk| - 2], walk[|walk| - 1]);
    }
  }

  lemma ReachedInside(g: Graph, roots: seq<string>, avoid: set<string>, found: set<string>, x: string)
    requires Closed(g, roots, avoid, found) && Reaches(g, roots, avoid, x)
    ensures x in found
  {
    var walk :| IsWalk(g, roots, avoid, walk) && walk[|walk| - 1] == x;
    WalkStaysInside(g, roots, avoid, found, walk);
  }

  lemma ReachedAvoids(g: Graph, roots: seq<string>, avoid: set<string>, x: string)
    requires Reaches(g, roots, avoid, x)
    ensures x !in avoid && Reaches(g, roots, {}, x)
  {
    var walk :| IsWalk(g, roots, avoid, walk) && walk[|walk| - 1] == x;
    assert IsWalk(g, roots, {}, walk);
  }
}
