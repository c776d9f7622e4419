/** The streaming filters of crossref/src/normalize.rs: dropping subtrees, and masking text and attributes. */
module Filters {
  import opened Wrappers
  import opened Xml

  /** A slash-separated path of local names, split. */
  type Path = seq<string>

  predicate Matches(rules: seq<Path>, path: Path) { path in rules }

  /** `Vec::pop`, which does nothing to an empty stack. */
  function Pop(stack: Path): Path { if stack == [] then [] else stack[..|stack| - 1] }

  // ----- drop_subtrees

  /** The loop's state: open elements, and the stack height at which it entered a dropped subtree. */
  datatype Dropping = Dropping(stack: Path, dropDepth: Option<nat>)

  function DropState(rules: seq<Path>, s: Dropping, e: Event): Dropping
  {
    match e
    case Start(name, _) =>
      var inner := s.stack + [name.local];
      Dropping(inner, if s.dropDepth.None? && Matches(rules, inner) then Some(|inner|) else s.dropDepth)
    case End(_) =>
      Dropping(Pop(s.stack), if s.dropDepth == Some(|s.stack|) then None else s.dropDepth)
    case _ => s
  }

  predicate DropWrites(rules: seq<Path>, s: Dropping, e: Event)
  {
    s.dropDepth.None? && ((e.Start? || e.Empty?) ==> !Matches(rules, s.stack + [e.name.local]))
  }

  /** What the loop still writes. */
  function DropFrom(rules: seq<Path>, events: seq<Event>, s: Dropping): seq<Event>
  {
    if events == [] then [] else
      var rest := DropFrom(rules, events[1..], DropState(rules, s, events[0]));
      if DropWrites(rules, s, events[0]) then [events[0]] + rest else rest
  }

  method DropSubtrees(events: seq<Event>, rules: seq<Path>) returns (out: seq<Event>)
    ensures out == DropFrom(rules, events, Dropping([], None))
  {
    hide DropFrom, Matches;
    out := [];
    var stack: Path, dropDepth: Option<nat> := [], None;
    assert events[0..] == events;
    for i := 0 to |events|
      invariant out + DropFrom(rules, events[i..], Dropping(stack, dropDepth))
             == DropFrom(rules, events, Dropping([], None))
    {
      ghost var before, wrote := Dropping(stack, dropDepth), out;
      match events[i] {
        case Start(name, _) =>
          stack := stack + [name.local];
          if dropDepth.Some? {
          } else if Matches(rules, stack) {
            dropDepth := Some(|stack|);
          } else {
            out := out + [events[i]];
          }
        case Empty(name, _) =>
          stack := stack + [name.local];
          if dropDepth.None? && !Matches(rules, stack) {
            out := out + [events[i]];
          }
          assert stack[..|stack| - 1] == before.stack;
          stack := stack[..|stack| - 1];
        case End(_) =>
          if dropDepth.Some? {
            if |stack| == dropDepth.value {
              dropDepth := None;
            }
          } else {
            out := out + [events[i]];
          }
          stack := Pop(stack);
        case Chars(_) =>
          if dropDepth.None? {
            out := out + [events[i]];
          }
      }
      assert Dropping(stack, dropDepth) == DropState(rules, before, events[i]);
      assert out == wrote + if DropWrites(rules, before, events[i]) then [events[i]] else [];
      DropStep(rules, events, i, before, wrote);
    }
    assert events[|events|..] == [];
    DropNothing(rules, Dropping(stack, dropDepth));
  }

  /** One event's share of the output. */
  lemma DropStep(rules: seq<Path>, events: seq<Event>, i: nat, s: Dropping, wrote: seq<Event>)
    requires i < |events|
    ensures (wrote + if DropWrites(rules, s, events[i]) then [events[i]] else [])
            + DropFrom(rules, events[i + 1..], DropState(rules, s, events[i]))
            == wrote + DropFrom(rules, events[i..], s)
  {
    DropHead(rules, events, i, s);
  }

  lemma DropNothing(rules: seq<Path>, s: Dropping)
    ensures DropFrom(rules, [], s) == []
  {
  }

  lemma DropHead(rules: seq<Path>, events: seq<Event>, i: nat, s: Dropping)
    requires i < |events|
    ensures var rest := DropFrom(rules, events[i + 1..], DropState(rules, s, events[i]));
            DropFrom(rules, events[i..], s) == if DropWrites(rules, s, events[i]) then [events[i]] + rest else rest
  {
    assert events[i..][1..] == events[i + 1..];
  }

  /** A tree without the elements whose path matches a rule. */
  function Prune(rules: seq<Path>, f: Forest, path: Path): Forest
  {
    match f
    case Nil => Nil
    case Elem(name, attrs, kids, next) =>
      if Matches(rules, path + [name.local]) then Prune(rules, next, path)
      else Elem(name, attrs, Prune(rules, kids, path + [name.local]), Prune(rules, next, path))
    case SelfClosed(name, attrs, next) =>
      if Matches(rules, path + [name.local]) then Prune(rules, next, path)
      else SelfClosed(name, attrs, Prune(rules, next, path))
    case Leaf(piece, next) => Leaf(piece, Prune(rules, next, path))
  }

  /** Inside a dropped subtree a whole forest passes unseen. */
  lemma {:induction false} DroppedForest(rules: seq<Path>, f: Forest, rest: seq<Event>, stack: Path, depth: nat)
    requires depth <= |stack|
    ensures DropFrom(rules, EventsThen(f, rest), Dropping(stack, Some(depth)))
            == DropFrom(rules, rest, Dropping(stack, Some(depth)))
  {
    match f
    case Nil =>
    case Elem(name, _, kids, next) =>
      var inner, tail := stack + [name.local], [End(name)] + EventsThen(next, rest);
      assert tail[1..] == EventsThen(next, rest) && Pop(inner) == stack;
      DroppedForest(rules, kids, tail, inner, depth);
      DroppedForest(rules, next, rest, stack, depth);
    case SelfClosed(_, _, next) => DroppedForest(rules, next, rest, stack, depth);
    case Leaf(_, next) => DroppedForest(rules, next, rest, stack, depth);
  }

  /** On any well-formed stream the stack machine prunes the tree. */
  lemma {:induction false} DropIsPrune(rules: seq<Path>, f: Forest, rest: seq<Event>, stack: Path)
    ensures DropFrom(rules, EventsThen(f, rest), Dropping(stack, None))
            == EventsThen(Prune(rules, f, stack), DropFrom(rules, rest, Dropping(stack, None)))
  {
    match f
    case Nil =>
    case Elem(name, _, kids, next) =>
      var inner, tail := stack + [name.local], [End(name)] + EventsThen(next, rest);
      assert tail[1..] == EventsThen(next, rest) && Pop(inner) == stack;
      if Matches(rules, inner) {
        DroppedForest(rules, kids, tail, inner, |inner|);
      } else {
        DropIsPrune(rules, kids, tail, inner);
      }
      DropIsPrune(rules, next, rest, stack);
    case SelfClosed(_, _, next) => DropIsPrune(rules, next, rest, stack);
    case Leaf(_, next) => DropIsPrune(rules, next, rest, stack);
  }

  lemma {:induction false} PruneTwice(rules: seq<Path>, f: Forest, path: Path)
    ensures Prune(rules, Prune(rules, f, path), path) == Prune(rules, f, path)
  {
    match f
    case Nil =>
    case Elem(name, _, kids, next) =>
      PruneTwice(rules, kids, path + [name.local]);
      PruneTwice(rules, next, path);
    case SelfClosed(_, _, next) => PruneTwice(rules, next, path);
    case Leaf(_, next) => PruneTwice(rules, next, path);
  }

  /** Dropping is idempotent on every well-formed document. */
  lemma DropTwice(rules: seq<Path>, f: Forest)
    ensures var once := DropFrom(rules, Events(f), Dropping([], None));
            DropFrom(rules, once, Dropping([], None)) == once
  {
    DropIsPrune(rules, f, [], []);
    DropIsPrune(rules, Prune(rules, f, []), [], []);
    PruneTwice(rules, f, []);
  }

  /** The paths of a forest's elements, in document order. */
  function Paths(f: Forest, path: Path): seq<Path>
  {
    match f
    case Nil => []
    case Elem(name, _, kids, next) =>
      [path + [name.local]] + Paths(kids, path + [name.local]) + Paths(next, path)
    case SelfClosed(name, _, next) => [path + [name.local]] + Paths(next, path)
    case Leaf(_, next) => Paths(next, path)
  }

  /** No rule matches the element or any of its ancestors below `path`. */
  predicate Survives(rules: seq<Path>, p: Path, depth: nat)
  {
    forall k :: depth < k <= |p| ==> p[..k] !in rules
  }

  function Survivors(rules: seq<Path>, paths: seq<Path>, depth: nat): seq<Path>
  {
    if paths == [] then [] else
      (if Survives(rules, paths[0], depth) then [paths[0]] else []) + Survivors(rules, paths[1..], depth)
  }

  lemma {:induction false} SurvivorsAppend(rules: seq<Path>, a: seq<Path>, b: seq<Path>, depth: nat)
    ensures Survivors(rules, a + b, depth) == Survivors(rules, a, depth) + Survivors(rules, b, depth)
  {
    hide Survives;
    if a == [] {
      assert a + b == b;
    } else {
      assert (a + b)[1..] == a[1..] + b && (a + b)[0] == a[0];
      SurvivorsAppend(rules, a[1..], b, depth);
    }
  }

  lemma {:induction false} PathsExtend(f: Forest, path: Path)
    ensures forall p :: p in Paths(f, path) ==> path < p
  {
    match f
    case Nil =>
    case Elem(name, _, kids, next) =>
      PathsExtend(kids, path + [name.local]);
      PathsExtend(next, path);
      forall p | p in Paths(kids, path + [name.local])
        ensures path < p
      {
        assert p[..|path|] == (path + [name.local])[..|path|];
      }
    case SelfClosed(_, _, next) => PathsExtend(next, path);
    case Leaf(_, next) => PathsExtend(next, path);
  }

  lemma SurvivesBelow(rules: seq<Path>, p: Path, inner: Path)
    requires inner != [] && inner < p
    ensures Survives(rules, p, |inner| - 1) <==> inner !in rules && Survives(rules, p, |inner|)
  {
    assert p[..|inner|] == inner;
  }

  /** Paths below an element survive as they do below its parent, unless the element itself is dropped. */
  lemma {:induction false} SurvivorsBelow(rules: seq<Path>, paths: seq<Path>, inner: Path)
    requires inner != [] && (forall p :: p in paths ==> inner < p)
    ensures Survivors(rules, paths, |inner| - 1) ==
            if Matches(rules, inner) then [] else Survivors(rules, paths, |inner|)
  {
    if paths != [] {
      forall p | p in paths[1..]
        ensures inner < p
      {
        assert p in paths;
      }
      SurvivorsBelow(rules, paths[1..], inner);
      assert paths[0] in paths;
      SurvivesBelow(rules, paths[0], inner);
      hide Survives, Matches;
    }
  }

  /** Pruning keeps exactly the elements that no rule hits at or above them, in order. */
  lemma {:induction false} PruneKeepsSurvivors(rules: seq<Path>, f: Forest, path: Path)
    ensures Paths(Prune(rules, f, path), path) == Survivors(rules, Paths(f, path), |path|)
  {
    match f
    case Nil =>
    case Elem(name, _, kids, next) =>
      var inner := path + [name.local];
      PruneKeepsSurvivors(rules, kids, inner);
      PruneKeepsSurvivors(rules, next, path);
      PathsExtend(kids, inner);
      SurvivorsBelow(rules, Paths(kids, inner), inner);
      SurvivorsAppend(rules, [inner] + Paths(kids, inner), Paths(next, path), |path|);
      SurvivorsAppend(rules, [inner], Paths(kids, inner), |path|);
      SurvivesOne(rules, inner);
    case SelfClosed(name, _, next) =>
      var inner := path + [name.local];
      PruneKeepsSurvivors(rules, next, path);
      SurvivorsAppend(rules, [inner], Paths(next, path), |path|);
      SurvivesOne(rules, inner);
    case Leaf(_, next) => PruneKeepsSurvivors(rules, next, path);
  }

  lemma SurvivesOne(rules: seq<Path>, inner: Path)
    requires inner != []
    ensures Survivors(rules, [inner], |inner| - 1) == if Matches(rules, inner) then [] else [inner]
  {
    assert inner[..|inner|] == inner;
    assert [inner][1..] == [];
  }
}
