/** utils/print-introspected-doxygen.cc: class `StaticInformation`. */
module TypePaths {
  import opened Sequences

  type TypeId = nat

  /** What the checker of an attribute says: a pointer, a container of objects, or neither. */
  datatype Kind = Pointer(pointee: TypeId) | ObjectVector(item: TypeId) | Plain

  datatype Attribute = Attribute(name: string, kind: Kind)

  /** The type registry, which does not change while paths are gathered. */
  datatype Registry = Registry(
    registered: seq<TypeId>,
    attributes: TypeId -> seq<Attribute>,
    name: TypeId -> string,
    isChildOf: (TypeId, TypeId) -> bool,
    objectTypeId: TypeId)

  datatype Edge = Edge(step: string, target: TypeId)

  function Types(r: Registry): set<TypeId> {
    set t | t in r.registered
  }

  /** Everything the registry and the aggregation list refer to is registered. */
  ghost predicate Known(r: Registry, aggregates: seq<(TypeId, TypeId)>) {
    && (forall t, i :: t in Types(r) && 0 <= i < |r.attributes(t)| ==> KnownKind(r, r.attributes(t)[i].kind))
    && (forall i :: 0 <= i < |aggregates| ==> KnownPair(r, aggregates[i]))
  }

  predicate KnownPair(r: Registry, p: (TypeId, TypeId)) {
    p.0 in Types(r) && p.1 in Types(r)
  }

  predicate KnownKind(r: Registry, k: Kind) {
    match k
    case Pointer(t) => t in Types(r)
    case ObjectVector(t) => t in Types(r)
    case Plain => true
  }

  // ---------- the graph of types ----------

  /** Attributes that lead on; a pointer to the common base Object does not. */
  function AttributeEdge(r: Registry, a: Attribute): seq<Edge> {
    match a.kind
    case Pointer(t) => if t == r.objectTypeId then [] else [Edge(a.name, t)]
    case ObjectVector(t) => [Edge(a.name + "/[i]", t)]
    case Plain => []
  }

  function AttributeEdges(r: Registry, attributes: seq<Attribute>): seq<Edge> {
    if attributes == [] then []
    else AttributeEdges(r, attributes[..|attributes| - 1]) + AttributeEdge(r, attributes[|attributes| - 1])
  }

  function ChildEdge(r: Registry, tid: TypeId, t: TypeId): seq<Edge> {
    if r.isChildOf(t, tid) then [Edge("$" + r.name(t), t)] else []
  }

  function ChildEdges(r: Registry, tid: TypeId, types: seq<TypeId>): seq<Edge> {
    if types == [] then []
    else ChildEdges(r, tid, types[..|types| - 1]) + ChildEdge(r, tid, types[|types| - 1])
  }

  function AggregateEdge(r: Registry, tid: TypeId, p: (TypeId, TypeId)): seq<Edge> {
    if p.1 == tid then [Edge("$" + r.name(p.0), p.0)]
    else if p.0 == tid then [Edge("$" + r.name(p.1), p.1)]
    else []
  }

  function AggregateEdges(r: Registry, tid: TypeId, aggregates: seq<(TypeId, TypeId)>): seq<Edge> {
    if aggregates == [] then []
    else AggregateEdges(r, tid, aggregates[..|aggregates| - 1]) + AggregateEdge(r, tid, aggregates[|aggregates| - 1])
  }

  lemma AttributeEdgesSnoc(r: Registry, attributes: seq<Attribute>, n: nat)
    requires n < |attributes|
    ensures AttributeEdges(r, attributes[..n + 1]) ==
      AttributeEdges(r, attributes[..n]) + AttributeEdge(r, attributes[n])
  {
    assert attributes[..n + 1][..n] == attributes[..n];
  }

  lemma ChildEdgesSnoc(r: Registry, tid: TypeId, types: seq<TypeId>, n: nat)
    requires n < |types|
    ensures ChildEdges(r, tid, types[..n + 1]) == ChildEdges(r, tid, types[..n]) + ChildEdge(r, tid, types[n])
  {
    assert types[..n + 1][..n] == types[..n];
  }

  lemma AggregateEdgesSnoc(r: Registry, tid: TypeId, aggregates: seq<(TypeId, TypeId)>, n: nat)
    requires n < |aggregates|
    ensures AggregateEdges(r, tid, aggregates[..n + 1]) ==
      AggregateEdges(r, tid, aggregates[..n]) + AggregateEdge(r, tid, aggregates[n])
  {
    assert aggregates[..n + 1][..n] == aggregates[..n];
  }

  /** The labelled edges out of a type, in the order they are tried. */
  function Edges(r: Registry, aggregates: seq<(TypeId, TypeId)>, tid: TypeId): seq<Edge> {
    AttributeEdges(r, r.attributes(tid)) + ChildEdges(r, tid, r.registered) + AggregateEdges(r, tid, aggregates)
  }

  ghost predicate KnownTargets(types: set<TypeId>, edges: seq<Edge>) {
    forall i :: 0 <= i < |edges| ==> edges[i].target in types
  }

  lemma {:induction false} AttributeTargets(r: Registry, attributes: seq<Attribute>)
    requires forall i :: 0 <= i < |attributes| ==> KnownKind(r, attributes[i].kind)
    ensures KnownTargets(Types(r), AttributeEdges(r, attributes))
  {
    if attributes != [] {
      AttributeTargets(r, attributes[..|attributes| - 1]);
    }
  }

  lemma {:induction false} ChildTargets(r: Registry, tid: TypeId, types: seq<TypeId>)
    requires forall t :: t in types ==> t in Types(r)
    ensures KnownTargets(Types(r), ChildEdges(r, tid, types))
  {
    if types != [] {
      ChildTargets(r, tid, types[..|types| - 1]);
    }
  }

  lemma {:induction false} AggregateTargets(r: Registry, tid: TypeId, aggregates: seq<(TypeId, TypeId)>)
    requires forall i :: 0 <= i < |aggregates| ==> KnownPair(r, aggregates[i])
    ensures KnownTargets(Types(r), AggregateEdges(r, tid, aggregates))
  {
    if aggregates != [] {
      AggregateTargets(r, tid, aggregates[..|aggregates| - 1]);
      assert KnownPair(r, aggregates[|aggregates| - 1]);
    }
  }

  lemma EdgeTargets(r: Registry, aggregates: seq<(TypeId, TypeId)>, tid: TypeId)
    requires Known(r, aggregates) && tid in Types(r)
    ensures KnownTargets(Types(r), Edges(r, aggregates, tid))
  {
    AttributeTargets(r, r.attributes(tid));
    ChildTargets(r, tid, r.registered);
    AggregateTargets(r, tid, aggregates);
  }

  /** The registered types and the edges out of each. */
  datatype TypeGraph = TypeGraph(types: set<TypeId>, edges: TypeId -> seq<Edge>)

  ghost predicate WellFormed(g: TypeGraph) {
    forall t :: t in g.types ==> KnownTargets(g.types, g.edges(t))
  }

  lemma EdgesAreKnown(r: Registry, aggregates: seq<(TypeId, TypeId)>)
    ensures Known(r, aggregates) ==> forall t :: t in Types(r) ==> KnownTargets(Types(r), Edges(r, aggregates, t))
  {
    if Known(r, aggregates) {
      forall t | t in Types(r)
        ensures KnownTargets(Types(r), Edges(r, aggregates, t))
      {
        EdgeTargets(r, aggregates, t);
      }
    }
  }

  function GraphOf(r: Registry, aggregates: seq<(TypeId, TypeId)>): (g: TypeGraph)
    ensures g.types == Types(r) && (Known(r, aggregates) ==> WellFormed(g))
  {
    EdgesAreKnown(r, aggregates);
    TypeGraph(Types(r), (t: TypeId) => Edges(r, aggregates, t))
  }

  // ---------- walks, given by the edges they choose ----------

  /** The types a walk visits, from tid on; it stops early at an edge that does not exist. */
  ghost function Visited(g: TypeGraph, tid: TypeId, walk: seq<nat>): (s: seq<TypeId>)
    ensures |s| > 0 && s[0] == tid
    decreases |walk|
  {
    if walk == [] || walk[0] >= |g.edges(tid)| then [tid]
    else [tid] + Visited(g, g.edges(tid)[walk[0]].target, walk[1..])
  }

  ghost predicate IsWalk(g: TypeGraph, tid: TypeId, walk: seq<nat>)
    decreases |walk|
  {
    walk == [] ||
    (walk[0] < |g.edges(tid)| && IsWalk(g, g.edges(tid)[walk[0]].target, walk[1..]))
  }

  ghost function Labels(g: TypeGraph, tid: TypeId, walk: seq<nat>): seq<string>
    requires IsWalk(g, tid, walk)
    decreases |walk|
  {
    if walk == [] then []
    else
      var e := g.edges(tid)[walk[0]];
      [e.step] + Labels(g, e.target, walk[1..])
  }

  ghost function End(g: TypeGraph, tid: TypeId, walk: seq<nat>): TypeId
    requires IsWalk(g, tid, walk)
  {
    var s := Visited(g, tid, walk);
    s[|s| - 1]
  }

  /** A walk that repeats no type and avoids the types in `stack`. */
  ghost predicate SimpleWalk(g: TypeGraph, stack: seq<TypeId>, tid: TypeId, walk: seq<nat>) {
    && IsWalk(g, tid, walk)
    && Distinct(Visited(g, tid, walk))
    && forall t :: t in Visited(g, tid, walk) ==> t !in stack
  }

  lemma SimpleWalkStep(g: TypeGraph, stack: seq<TypeId>, tid: TypeId, walk: seq<nat>)
    ensures SimpleWalk(g, stack, tid, walk) <==>
      (tid !in stack &&
       (walk == [] ||
        (walk[0] < |g.edges(tid)| &&
         SimpleWalk(g, stack + [tid], g.edges(tid)[walk[0]].target, walk[1..]))))
  {
    var s := Visited(g, tid, walk);
    if walk != [] && walk[0] < |g.edges(tid)| {
      var rest := Visited(g, g.edges(tid)[walk[0]].target, walk[1..]);
      assert s == [tid] + rest;
      assert s[0] in s;
      assert forall i :: 0 <= i < |rest| ==> rest[i] == s[i + 1];
      if SimpleWalk(g, stack, tid, walk) {
        forall t | t in rest
          ensures t !in stack + [tid]
        {
          var i :| 0 <= i < |rest| && rest[i] == t;
          assert s[i + 1] in s && s[0] != s[i + 1];
        }
      }
      if tid !in stack && SimpleWalk(g, stack + [tid], g.edges(tid)[walk[0]].target, walk[1..]) {
        forall i, j | 0 <= i < j < |s|
          ensures s[i] != s[j]
        {
          assert s[j] in rest;
        }
      }
    } else {
      assert s == [tid];
      assert tid in s;
    }
  }

  // ---------- the depth-first enumeration ----------

  function Left(g: TypeGraph, stack: seq<TypeId>): set<TypeId> {
    g.types - (set t | t in stack)
  }

  lemma LeftDrops(g: TypeGraph, stack: seq<TypeId>, tid: TypeId)
    requires tid in g.types && tid !in stack
    ensures |Left(g, stack + [tid])| < |Left(g, stack)|
  {
    assert Left(g, stack) == Left(g, stack + [tid]) + {tid};
  }

  function Prefixed(k: nat, walks: seq<seq<nat>>): (s: seq<seq<nat>>)
    ensures |s| == |walks| && forall i :: 0 <= i < |s| ==> s[i] == [k] + walks[i]
  {
    if walks == [] then [] else Prefixed(k, walks[..|walks| - 1]) + [[k] + walks[|walks| - 1]]
  }

  /** The walks in the order a depth-first search with a stack of open types meets them. */
  ghost function Walks(g: TypeGraph, stack: seq<TypeId>, tid: TypeId): seq<seq<nat>>
    requires WellFormed(g) && tid in g.types
    decreases |Left(g, stack)|, 1, 0
  {
    if tid in stack then []
    else
      LeftDrops(g, stack, tid);
      [[]] + WalksAlong(g, stack + [tid], g.edges(tid))
  }

  ghost function WalksAlong(g: TypeGraph, stack: seq<TypeId>, edges: seq<Edge>): seq<seq<nat>>
    requires WellFormed(g) && KnownTargets(g.types, edges)
    decreases |Left(g, stack)|, 2, |edges|
  {
    if edges == [] then []
    else
      var k := |edges| - 1;
      WalksAlong(g, stack, edges[..k]) + Prefixed(k, Walks(g, stack, edges[k].target))
  }

  lemma {:induction false} WalksAreSimple(g: TypeGraph, stack: seq<TypeId>, tid: TypeId, walk: seq<nat>)
    requires WellFormed(g) && tid in g.types
    ensures walk in Walks(g, stack, tid) <==> SimpleWalk(g, stack, tid, walk)
    decreases |Left(g, stack)|, 1, 0
  {
    SimpleWalkStep(g, stack, tid, walk);
    if tid !in stack {
      LeftDrops(g, stack, tid);
      var along := WalksAlong(g, stack + [tid], g.edges(tid));
      assert walk in Walks(g, stack, tid) <==> walk == [] || walk in along;
      AlongAreSimple(g, stack + [tid], g.edges(tid), walk);
    }
  }

  lemma {:induction false} AlongAreSimple(g: TypeGraph, stack: seq<TypeId>, edges: seq<Edge>, walk: seq<nat>)
    requires WellFormed(g) && KnownTargets(g.types, edges)
    ensures walk in WalksAlong(g, stack, edges) <==>
      walk != [] && walk[0] < |edges| && SimpleWalk(g, stack, edges[walk[0]].target, walk[1..])
    decreases |Left(g, stack)|, 2, |edges|
  {
    if edges != [] {
      var k := |edges| - 1;
      var deeper := Walks(g, stack, edges[k].target);
      AlongAreSimple(g, stack, edges[..k], walk);
      if walk != [] {
        WalksAreSimple(g, stack, edges[k].target, walk[1..]);
        InPrefixed(k, deeper, walk);
      } else {
        InPrefixed(k, deeper, walk);
      }
    }
  }

  lemma InPrefixed(k: nat, walks: seq<seq<nat>>, walk: seq<nat>)
    ensures walk in Prefixed(k, walks) <==> walk != [] && walk[0] == k && walk[1..] in walks
  {
    var s := Prefixed(k, walks);
    if walk in s {
      var i :| 0 <= i < |s| && s[i] == walk;
      assert walk[1..] == walks[i];
    }
    if walk != [] && walk[0] == k && walk[1..] in walks {
      var i :| 0 <= i < |walks| && walks[i] == walk[1..];
      assert s[i] == walk;
    }
  }

  // ---------- preorder ----------

  /** A walk comes before its extensions, and before walks that branch off to a later edge. */
  ghost predicate Before(a: seq<nat>, b: seq<nat>)
    decreases |a|
  {
    b != [] && (a == [] || a[0] < b[0] || (a[0] == b[0] && Before(a[1..], b[1..])))
  }

  ghost predicate Ordered(walks: seq<seq<nat>>) {
    forall i, j :: 0 <= i < j < |walks| ==> Before(walks[i], walks[j])
  }

  lemma {:induction false} WalksOrdered(g: TypeGraph, stack: seq<TypeId>, tid: TypeId)
    requires WellFormed(g) && tid in g.types
    ensures Ordered(Walks(g, stack, tid))
    decreases |Left(g, stack)|, 1, 0
  {
    if tid !in stack {
      LeftDrops(g, stack, tid);
      var edges := g.edges(tid);
      var along := WalksAlong(g, stack + [tid], edges);
      AlongOrdered(g, stack + [tid], edges);
      forall i | 0 <= i < |along|
        ensures along[i] != []
      {
        AlongAreSimple(g, stack + [tid], edges, along[i]);
      }
    }
  }

  lemma {:induction false} AlongOrdered(g: TypeGraph, stack: seq<TypeId>, edges: seq<Edge>)
    requires WellFormed(g) && KnownTargets(g.types, edges)
    ensures Ordered(WalksAlong(g, stack, edges))
    decreases |Left(g, stack)|, 2, |edges|
  {
    if edges != [] {
      var k := |edges| - 1;
      var earlier := WalksAlong(g, stack, edges[..k]);
      var deeper := Walks(g, stack, edges[k].target);
      AlongOrdered(g, stack, edges[..k]);
      WalksOrdered(g, stack, edges[k].target);
      forall i | 0 <= i < |earlier|
        ensures earlier[i] != [] && earlier[i][0] < k
      {
        AlongAreSimple(g, stack, edges[..k], earlier[i]);
      }
    }
  }

  /** Each walk is listed once. */
  lemma {:induction false} BeforeIrreflexive(a: seq<nat>)
    ensures !Before(a, a)
  {
    if a != [] {
      BeforeIrreflexive(a[1..]);
    }
  }

  // ---------- what is recorded ----------

  /** A configuration path as text: every step after a slash. */
  function Render(path: seq<string>): string {
    if path == [] then "" else Render(path[..|path| - 1]) + "/" + path[|path| - 1]
  }

  /** What gathering from tid appends to the output, given the open types and the path so far. */
  ghost function Output(g: TypeGraph, stack: seq<TypeId>, path: seq<string>, tid: TypeId)
    : seq<(TypeId, string)>
    requires WellFormed(g) && tid in g.types
    decreases |Left(g, stack)|, 1, 0
  {
    if tid in stack then []
    else
      LeftDrops(g, stack, tid);
      [(tid, Render(path))] + OutputAlong(g, stack + [tid], path, g.edges(tid))
  }

  ghost function OutputAlong(g: TypeGraph, stack: seq<TypeId>, path: seq<string>, edges: seq<Edge>)
    : seq<(TypeId, string)>
    requires WellFormed(g) && KnownTargets(g.types, edges)
    decreases |Left(g, stack)|, 2, |edges|
  {
    if edges == [] then []
    else
      var k := |edges| - 1;
      OutputAlong(g, stack, path, edges[..k])
        + Output(g, stack, path + [edges[k].step], edges[k].target)
  }

  lemma AlongOne(g: TypeGraph, stack: seq<TypeId>, path: seq<string>, edges: seq<Edge>)
    requires WellFormed(g) && KnownTargets(g.types, edges) && |edges| <= 1
    ensures OutputAlong(g, stack, path, edges) ==
      if edges == [] then [] else Output(g, stack, path + [edges[0].step], edges[0].target)
  {
    if edges != [] {
      assert edges[..0] == [] && OutputAlong(g, stack, path, edges[..0]) == [];
    }
  }

  lemma {:induction false} AlongConcat(g: TypeGraph, stack: seq<TypeId>, path: seq<string>,
                                       first: seq<Edge>, second: seq<Edge>)
    requires WellFormed(g) && KnownTargets(g.types, first) && KnownTargets(g.types, second)
    ensures OutputAlong(g, stack, path, first + second) ==
      OutputAlong(g, stack, path, first) + OutputAlong(g, stack, path, second)
    decreases |second|
  {
    if second == [] {
      assert first + second == first;
    } else {
      var k := |second| - 1;
      assert (first + second)[..|first + second| - 1] == first + second[..k];
      AlongConcat(g, stack, path, first, second[..k]);
    }
  }

  /** Output grows edge by edge. */
  lemma AppendAlong(g: TypeGraph, stack: seq<TypeId>, path: seq<string>,
                    first: seq<Edge>, second: seq<Edge>, start: seq<(TypeId, string)>,
                    now: seq<(TypeId, string)>, after: seq<(TypeId, string)>)
    requires WellFormed(g) && KnownTargets(g.types, first) && KnownTargets(g.types, second)
    requires now == start + OutputAlong(g, stack, path, first)
    requires after == now + OutputAlong(g, stack, path, second)
    ensures KnownTargets(g.types, first + second)
    ensures after == start + OutputAlong(g, stack, path, first + second)
  {
    AlongConcat(g, stack, path, first, second);
  }

  /** One call's output: the record of tid, then three groups of edges. */
  lemma OutputParts(g: TypeGraph, open: seq<TypeId>, path: seq<string>, tid: TypeId, a: seq<Edge>, b: seq<Edge>,
                    c: seq<Edge>, before: seq<(TypeId, string)>, start: seq<(TypeId, string)>,
                    afterA: seq<(TypeId, string)>, afterB: seq<(TypeId, string)>, end: seq<(TypeId, string)>)
    requires WellFormed(g) && tid in g.types && tid !in open && g.edges(tid) == a + b + c
    requires KnownTargets(g.types, a) && KnownTargets(g.types, b) && KnownTargets(g.types, c)
    requires start == before + [(tid, Render(path))]
    requires afterA == start + OutputAlong(g, open + [tid], path, a)
    requires afterB == afterA + OutputAlong(g, open + [tid], path, b)
    requires end == afterB + OutputAlong(g, open + [tid], path, c)
    ensures end == before + Output(g, open, path, tid)
  {
    var stack := open + [tid];
    AlongConcat(g, stack, path, a, b);
    AlongConcat(g, stack, path, a + b, c);
    OutputUnfolds(g, open, path, tid, a + b + c);
    Regroup5(before, [(tid, Render(path))], OutputAlong(g, stack, path, a), OutputAlong(g, stack, path, b),
             OutputAlong(g, stack, path, c));
  }

  lemma OutputUnfolds(g: TypeGraph, open: seq<TypeId>, path: seq<string>, tid: TypeId, edges: seq<Edge>)
    requires WellFormed(g) && tid in g.types && tid !in open && g.edges(tid) == edges
    ensures KnownTargets(g.types, edges)
    ensures Output(g, open, path, tid) == [(tid, Render(path))] + OutputAlong(g, open + [tid], path, edges)
  {
  }

  ghost predicate Records(g: TypeGraph, path: seq<string>, tid: TypeId,
                          walk: seq<nat>, record: (TypeId, string))
  {
    && IsWalk(g, tid, walk)
    && record == (End(g, tid, walk), Render(path + Labels(g, tid, walk)))
  }

  lemma RecordsStep(g: TypeGraph, path: seq<string>, tid: TypeId,
                    k: nat, walk: seq<nat>, record: (TypeId, string))
    requires k < |g.edges(tid)|
    requires var e := g.edges(tid)[k]; Records(g, path + [e.step], e.target, walk, record)
    ensures Records(g, path, tid, [k] + walk, record)
  {
    var e := g.edges(tid)[k];
    var longer := [k] + walk;
    assert longer[1..] == walk;
    assert path + [e.step] + Labels(g, e.target, walk) == path + Labels(g, tid, longer);
  }

  /** The output lists the walks of the depth-first search, one record each, in their order. */
  lemma {:induction false} OutputMatchesWalks(g: TypeGraph, stack: seq<TypeId>, path: seq<string>, tid: TypeId)
    requires WellFormed(g) && tid in g.types
    ensures
      var walks, out := Walks(g, stack, tid), Output(g, stack, path, tid);
      |out| == |walks| && forall i :: 0 <= i < |out| ==> Records(g, path, tid, walks[i], out[i])
    decreases |Left(g, stack)|, 1, 0
  {
    if tid !in stack {
      LeftDrops(g, stack, tid);
      AlongMatchesWalks(g, stack + [tid], path, tid, g.edges(tid));
      assert path + Labels(g, tid, []) == path;
      assert Records(g, path, tid, [], (tid, Render(path)));
    }
  }

  lemma {:induction false} AlongMatchesWalks(g: TypeGraph, stack: seq<TypeId>, path: seq<string>,
                                             tid: TypeId, edges: seq<Edge>)
    requires WellFormed(g) && KnownTargets(g.types, edges) && edges <= g.edges(tid)
    ensures
      var walks, out := WalksAlong(g, stack, edges), OutputAlong(g, stack, path, edges);
      |out| == |walks| && forall i :: 0 <= i < |out| ==> Records(g, path, tid, walks[i], out[i])
    decreases |Left(g, stack)|, 2, |edges|
  {
    if edges != [] {
      var k := |edges| - 1;
      var e := edges[k];
      AlongMatchesWalks(g, stack, path, tid, edges[..k]);
      OutputMatchesWalks(g, stack, path + [e.step], e.target);
      var deeper, out := Walks(g, stack, e.target), Output(g, stack, path + [e.step], e.target);
      forall i | 0 <= i < |out|
        ensures Records(g, path, tid, Prefixed(k, deeper)[i], out[i])
      {
        RecordsStep(g, path, tid, k, deeper[i], out[i]);
      }
    }
  }

  /**
   Gathering from a root: the records are exactly those of the simple walks from
   the root in the labelled type graph, each walk once, in depth-first preorder.
   */
  lemma GatherIsPreorder(g: TypeGraph, root: TypeId) returns (walks: seq<seq<nat>>)
    requires WellFormed(g) && root in g.types
    ensures Ordered(walks)
    ensures forall w :: w in walks <==> SimpleWalk(g, [], root, w)
    ensures var out := Output(g, [], [], root);
      |out| == |walks| && forall i :: 0 <= i < |out| ==> Records(g, [], root, walks[i], out[i])
  {
    walks := Walks(g, [], root);
    WalksOrdered(g, [], root);
    OutputMatchesWalks(g, [], [], root);
    forall w
      ensures w in walks <==> SimpleWalk(g, [], root, w)
    {
      WalksAreSimple(g, [], root, w);
    }
  }

  lemma OrderedIsDistinct(walks: seq<seq<nat>>, i: nat, j: nat)
    requires Ordered(walks) && i < j < |walks|
    ensures walks[i] != walks[j]
  {
    BeforeIrreflexive(walks[i]);
  }

  // ---------- a type is recorded exactly when it can be reached ----------

  lemma {:induction false} VisitedAt(g: TypeGraph, tid: TypeId, walk: seq<nat>, i: nat)
    requires IsWalk(g, tid, walk) && i <= |walk|
    ensures |Visited(g, tid, walk)| == |walk| + 1
    ensures IsWalk(g, Visited(g, tid, walk)[i], walk[i..])
    ensures Visited(g, tid, walk)[i..] == Visited(g, Visited(g, tid, walk)[i], walk[i..])
    decreases |walk|
  {
    var s := Visited(g, tid, walk);
    if walk == [] {
    } else {
      var next := g.edges(tid)[walk[0]].target;
      var rest := Visited(g, next, walk[1..]);
      assert s == [tid] + rest;
      if i == 0 {
        VisitedAt(g, next, walk[1..], 0);
        assert walk[0..] == walk && s[0..] == s;
      } else {
        VisitedAt(g, next, walk[1..], i - 1);
        assert walk[1..][i - 1..] == walk[i..];
        assert s[i..] == rest[i - 1..];
      }
    }
  }

  lemma VisitedStep(g: TypeGraph, tid: TypeId, walk: seq<nat>)
    requires walk != [] && IsWalk(g, tid, walk)
    ensures
      var next := g.edges(tid)[walk[0]].target;
      && IsWalk(g, next, walk[1..])
      && Visited(g, tid, walk) == [tid] + Visited(g, next, walk[1..])
      && End(g, tid, walk) == End(g, next, walk[1..])
  {
  }

  /** Cutting the tail of one walk onto the front of another that passes the same type. */
  lemma {:induction false} Splice(g: TypeGraph, tid: TypeId, walk: seq<nat>, i: nat,
                                  middle: TypeId, tail: seq<nat>)
    requires IsWalk(g, tid, walk) && i <= |walk| && i < |Visited(g, tid, walk)|
    requires middle == Visited(g, tid, walk)[i] && IsWalk(g, middle, tail)
    ensures IsWalk(g, tid, walk[..i] + tail)
    ensures End(g, tid, walk[..i] + tail) == End(g, middle, tail)
    decreases |walk|
  {
    if i == 0 {
      assert walk[..0] + tail == tail;
    } else {
      var next := g.edges(tid)[walk[0]].target;
      VisitedStep(g, tid, walk);
      Splice(g, next, walk[1..], i - 1, middle, tail);
      var joined := walk[..i] + tail;
      assert joined[0] == walk[0] && joined[1..] == walk[1..][..i - 1] + tail;
      assert IsWalk(g, tid, joined);
      VisitedStep(g, tid, joined);
    }
  }

  /** Leaving out the part between two visits of the same type. */
  lemma Shortcut(g: TypeGraph, tid: TypeId, walk: seq<nat>, i: nat, j: nat)
    requires IsWalk(g, tid, walk) && i < j < |Visited(g, tid, walk)|
    requires Visited(g, tid, walk)[i] == Visited(g, tid, walk)[j]
    ensures j <= |walk|
    ensures IsWalk(g, tid, walk[..i] + walk[j..])
    ensures End(g, tid, walk[..i] + walk[j..]) == End(g, tid, walk)
  {
    VisitedAt(g, tid, walk, 0);
    VisitedAt(g, tid, walk, j);
    Splice(g, tid, walk, i, Visited(g, tid, walk)[j], walk[j..]);
  }

  /** Every type a walk can reach is reached by a walk without repetitions. */
  lemma {:induction false} Simplify(g: TypeGraph, tid: TypeId, walk: seq<nat>) returns (simple: seq<nat>)
    requires IsWalk(g, tid, walk)
    ensures SimpleWalk(g, [], tid, simple)
    ensures End(g, tid, simple) == End(g, tid, walk)
    decreases |walk|
  {
    var s := Visited(g, tid, walk);
    if Distinct(s) {
      simple := walk;
    } else {
      var i, j :| 0 <= i < j < |s| && s[i] == s[j];
      Shortcut(g, tid, walk, i, j);
      simple := Simplify(g, tid, walk[..i] + walk[j..]);
    }
  }

  ghost predicate Recorded(out: seq<(TypeId, string)>, t: TypeId) {
    exists i :: 0 <= i < |out| && out[i].0 == t
  }

  lemma RecordedIffReachable(g: TypeGraph, root: TypeId, t: TypeId)
    requires WellFormed(g) && root in g.types
    ensures Recorded(Output(g, [], [], root), t) <==>
      exists walk :: IsWalk(g, root, walk) && End(g, root, walk) == t
  {
    var out := Output(g, [], [], root);
    var walks := GatherIsPreorder(g, root);
    if i :| 0 <= i < |out| && out[i].0 == t {
      assert Records(g, [], root, walks[i], out[i]);
    }
    if walk :| IsWalk(g, root, walk) && End(g, root, walk) == t {
      var simple := Simplify(g, root, walk);
      assert simple in walks;
      var i :| 0 <= i < |walks| && walks[i] == simple;
      assert Records(g, [], root, walks[i], out[i]);
    }
  }

  // ---------- the class ----------

  /** Gathers the configuration paths of all types reachable from a root type. */
  class StaticInformation {
    var m_output: seq<(TypeId, string)>
    var m_currentPath: seq<string>
    var m_alreadyProcessed: seq<TypeId>
    var m_aggregates: seq<(TypeId, TypeId)>
    var m_noTids: seq<string>

    constructor ()
      ensures m_output == [] && m_currentPath == [] && m_alreadyProcessed == [] && m_aggregates == [] && m_noTids == []
    {
      m_output, m_currentPath, m_alreadyProcessed, m_aggregates, m_noTids := [], [], [], [], [];
    }

    /** `registry` stands for the lookup of types by name, which fails for modules not enabled. */
    method RecordAggregationInfo(a: string, b: string, registry: map<string, TypeId>)
      modifies this`m_aggregates, this`m_noTids
      ensures a in registry && b in registry ==>
        m_aggregates == old(m_aggregates) + [(registry[a], registry[b])] && m_noTids == old(m_noTids)
      ensures a !in registry || b !in registry ==>
        m_aggregates == old(m_aggregates) && m_noTids == old(m_noTids) + [if a !in registry then a else b]
    {
      if a !in registry {
        m_noTids := m_noTids + [a];
        return;
      }
      if b !in registry {
        m_noTids := m_noTids + [b];
        return;
      }
      m_aggregates := m_aggregates + [(registry[a], registry[b])];
    }

    method GetCurrentPath() returns (path: string)
      ensures path == Render(m_currentPath)
    {
      path := "";
      for i := 0 to |m_currentPath|
        invariant path == Render(m_currentPath[..i])
      {
        assert m_currentPath[..i + 1][..i] == m_currentPath[..i];
        path := path + "/" + m_currentPath[i];
      }
      assert m_currentPath[..|m_currentPath|] == m_currentPath;
    }

    method RecordOutput(tid: TypeId)
      modifies this`m_output
      ensures m_output == old(m_output) + [(tid, Render(m_currentPath))]
    {
      var path := GetCurrentPath();
      m_output := m_output + [(tid, path)];
    }

    method HasAlreadyBeenProcessed(tid: TypeId) returns (found: bool)
      ensures found <==> tid in m_alreadyProcessed
    {
      for i := 0 to |m_alreadyProcessed|
        invariant tid !in m_alreadyProcessed[..i]
      {
        if m_alreadyProcessed[i] == tid {
          return true;
        }
      }
      return false;
    }

    /** The paths recorded for one type, in the order they were recorded. */
    method Get(tid: TypeId) returns (paths: seq<string>)
      ensures paths == PathsOf(m_output, tid)
    {
      paths := [];
      for i := 0 to |m_output|
        invariant paths == PathsOf(m_output[..i], tid)
      {
        assert m_output[..i + 1][..i] == m_output[..i];
        var tmp := m_output[i];
        if tmp.0 == tid {
          paths := paths + [tmp.1];
        }
      }
      assert m_output[..|m_output|] == m_output;
    }

    /** Push the step and the type, go on from `next`, and pop both again. */
    method Descend(ghost g: TypeGraph, r: Registry, tid: TypeId, step: string, next: TypeId)
      requires Known(r, m_aggregates) && g == GraphOf(r, m_aggregates) && tid in g.types && next in g.types
      requires tid !in m_alreadyProcessed
      modifies this`m_output, this`m_currentPath, this`m_alreadyProcessed
      ensures m_currentPath == old(m_currentPath) && m_alreadyProcessed == old(m_alreadyProcessed)
      ensures m_output == old(m_output) +
        Output(g, old(m_alreadyProcessed) + [tid], old(m_currentPath) + [step], next)
      decreases |Left(g, m_alreadyProcessed)|, 0
    {
      LeftDrops(g, m_alreadyProcessed, tid);
      PushPop(m_currentPath, step);
      PushPop(m_alreadyProcessed, tid);
      m_currentPath := m_currentPath + [step];
      m_alreadyProcessed := m_alreadyProcessed + [tid];
      DoGather(g, r, next);
      m_alreadyProcessed := m_alreadyProcessed[..|m_alreadyProcessed| - 1];
      m_currentPath := m_currentPath[..|m_currentPath| - 1];
    }

    method FollowAttribute(ghost g: TypeGraph, r: Registry, tid: TypeId, info: Attribute)
      requires Known(r, m_aggregates) && g == GraphOf(r, m_aggregates) && tid in g.types && KnownKind(r, info.kind)
      requires tid !in m_alreadyProcessed
      modifies this`m_output, this`m_currentPath, this`m_alreadyProcessed
      ensures m_currentPath == old(m_currentPath) && m_alreadyProcessed == old(m_alreadyProcessed)
      ensures KnownTargets(g.types, AttributeEdge(r, info))
      ensures m_output == old(m_output) +
        OutputAlong(g, m_alreadyProcessed + [tid], m_currentPath, AttributeEdge(r, info))
      decreases |Left(g, m_alreadyProcessed)|, 1
    {
      AlongOne(g, m_alreadyProcessed + [tid], m_currentPath, AttributeEdge(r, info));
      match info.kind
      case Pointer(pointee) =>
        if pointee != r.objectTypeId {
          Descend(g, r, tid, info.name, pointee);
        }
      case ObjectVector(item) =>
        Descend(g, r, tid, info.name + "/[i]", item);
      case Plain =>
    }

    method GatherAttributes(ghost g: TypeGraph, r: Registry, tid: TypeId)
      requires Known(r, m_aggregates) && g == GraphOf(r, m_aggregates) && tid in g.types && tid !in m_alreadyProcessed
      modifies this`m_output, this`m_currentPath, this`m_alreadyProcessed
      ensures m_currentPath == old(m_currentPath) && m_alreadyProcessed == old(m_alreadyProcessed)
      ensures KnownTargets(g.types, AttributeEdges(r, r.attributes(tid)))
      ensures m_output == old(m_output) +
        OutputAlong(g, m_alreadyProcessed + [tid], m_currentPath, AttributeEdges(r, r.attributes(tid)))
      decreases |Left(g, m_alreadyProcessed)|, 2
    {
      var attributes := r.attributes(tid);
      ghost var start, stack, path, edges: seq<Edge> := m_output, m_alreadyProcessed, m_currentPath, [];
      for i := 0 to |attributes|
        invariant m_currentPath == path && m_alreadyProcessed == stack
        invariant edges == AttributeEdges(r, attributes[..i]) && KnownTargets(g.types, edges)
        invariant m_output == start + OutputAlong(g, stack + [tid], path, edges)
      {
        ghost var now, e := m_output, AttributeEdge(r, attributes[i]);
        assert KnownKind(r, r.attributes(tid)[i].kind);
        FollowAttribute(g, r, tid, attributes[i]);
        AppendAlong(g, stack + [tid], path, edges, e, start, now, m_output);
        AttributeEdgesSnoc(r, attributes, i);
        edges := edges + e;
      }
      assert attributes[..|attributes|] == attributes;
    }

    method FollowChild(ghost g: TypeGraph, r: Registry, tid: TypeId, child: TypeId)
      requires Known(r, m_aggregates) && g == GraphOf(r, m_aggregates) && tid in g.types && child in g.types
      requires tid !in m_alreadyProcessed
      modifies this`m_output, this`m_currentPath, this`m_alreadyProcessed
      ensures m_currentPath == old(m_currentPath) && m_alreadyProcessed == old(m_alreadyProcessed)
      ensures KnownTargets(g.types, ChildEdge(r, tid, child))
      ensures m_output == old(m_output) +
        OutputAlong(g, m_alreadyProcessed + [tid], m_currentPath, ChildEdge(r, tid, child))
      decreases |Left(g, m_alreadyProcessed)|, 1
    {
      AlongOne(g, m_alreadyProcessed + [tid], m_currentPath, ChildEdge(r, tid, child));
      if r.isChildOf(child, tid) {
        Descend(g, r, tid, "$" + r.name(child), child);
      }
    }

    method GatherChildren(ghost g: TypeGraph, r: Registry, tid: TypeId)
      requires Known(r, m_aggregates) && g == GraphOf(r, m_aggregates) && tid in g.types && tid !in m_alreadyProcessed
      modifies this`m_output, this`m_currentPath, this`m_alreadyProcessed
      ensures m_currentPath == old(m_currentPath) && m_alreadyProcessed == old(m_alreadyProcessed)
      ensures KnownTargets(g.types, ChildEdges(r, tid, r.registered))
      ensures m_output == old(m_output) +
        OutputAlong(g, m_alreadyProcessed + [tid], m_currentPath, ChildEdges(r, tid, r.registered))
      decreases |Left(g, m_alreadyProcessed)|, 2
    {
      var types := r.registered;
      ghost var start, stack, path := m_output, m_alreadyProcessed, m_currentPath;
      ghost var open := stack + [tid];
      for j := 0 to |types|
        invariant m_currentPath == path && m_alreadyProcessed == stack
        invariant KnownTargets(g.types, ChildEdges(r, tid, types[..j]))
        invariant m_output == start + OutputAlong(g, open, path, ChildEdges(r, tid, types[..j]))
      {
        ghost var now := m_output;
        assert types[j] in g.types;
        FollowChild(g, r, tid, types[j]);
        ChildEdgesSnoc(r, tid, types, j);
        AppendAlong(g, open, path, ChildEdges(r, tid, types[..j]), ChildEdge(r, tid, types[j]), start, now, m_output);
      }
      assert types[..|types|] == types;
    }

    method FollowAggregate(ghost g: TypeGraph, r: Registry, tid: TypeId, p: (TypeId, TypeId))
      requires Known(r, m_aggregates) && g == GraphOf(r, m_aggregates) && tid in g.types && KnownPair(r, p)
      requires tid !in m_alreadyProcessed
      modifies this`m_output, this`m_currentPath, this`m_alreadyProcessed
      ensures m_currentPath == old(m_currentPath) && m_alreadyProcessed == old(m_alreadyProcessed)
      ensures KnownTargets(g.types, AggregateEdge(r, tid, p))
      ensures m_output == old(m_output) +
        OutputAlong(g, m_alreadyProcessed + [tid], m_currentPath, AggregateEdge(r, tid, p))
      decreases |Left(g, m_alreadyProcessed)|, 1
    {
      AlongOne(g, m_alreadyProcessed + [tid], m_currentPath, AggregateEdge(r, tid, p));
      if p.0 == tid || p.1 == tid {
        var other := p.1;
        if p.1 == tid {
          other := p.0;
        }
        Descend(g, r, tid, "$" + r.name(other), other);
      }
    }

    method GatherAggregates(ghost g: TypeGraph, r: Registry, tid: TypeId)
      requires Known(r, m_aggregates) && g == GraphOf(r, m_aggregates) && tid in g.types && tid !in m_alreadyProcessed
      modifies this`m_output, this`m_currentPath, this`m_alreadyProcessed
      ensures m_currentPath == old(m_currentPath) && m_alreadyProcessed == old(m_alreadyProcessed)
      ensures KnownTargets(g.types, AggregateEdges(r, tid, m_aggregates))
      ensures m_output == old(m_output) +
        OutputAlong(g, m_alreadyProcessed + [tid], m_currentPath, AggregateEdges(r, tid, m_aggregates))
      decreases |Left(g, m_alreadyProcessed)|, 2
    {
      var aggregates := m_aggregates;
      ghost var start, stack, path, edges: seq<Edge> := m_output, m_alreadyProcessed, m_currentPath, [];
      for k := 0 to |aggregates|
        invariant m_currentPath == path && m_alreadyProcessed == stack
        invariant m_aggregates == aggregates
        invariant edges == AggregateEdges(r, tid, aggregates[..k])
        invariant KnownTargets(g.types, edges)
        invariant m_output == start + OutputAlong(g, stack + [tid], path, edges)
      {
        var tmp := aggregates[k];
        ghost var now, e := m_output, AggregateEdge(r, tid, tmp);
        assert KnownPair(r, tmp);
        FollowAggregate(g, r, tid, tmp);
        AppendAlong(g, stack + [tid], path, edges, e, start, now, m_output);
        AggregateEdgesSnoc(r, tid, aggregates, k);
        edges := edges + e;
      }
      assert aggregates[..|aggregates|] == aggregates;
    }

    /** Record tid, then go on along its attributes, its subtypes and its aggregates. */
    method DoGather(ghost g: TypeGraph, r: Registry, tid: TypeId)
      requires Known(r, m_aggregates) && g == GraphOf(r, m_aggregates) && tid in g.types
      modifies this`m_output, this`m_currentPath, this`m_alreadyProcessed
      ensures m_currentPath == old(m_currentPath) && m_alreadyProcessed == old(m_alreadyProcessed)
      ensures m_output == old(m_output) + Output(g, m_alreadyProcessed, m_currentPath, tid)
      decreases |Left(g, m_alreadyProcessed)|, 3
    {
      var processed := HasAlreadyBeenProcessed(tid);
      if processed {
        return;
      }
      RecordOutput(tid);
      ghost var start := m_output;
      GatherAttributes(g, r, tid);
      ghost var afterAttributes := m_output;
      GatherChildren(g, r, tid);
      ghost var afterChildren := m_output;
      GatherAggregates(g, r, tid);
      assert g.edges(tid) == Edges(r, m_aggregates, tid);
      OutputParts(g, m_alreadyProcessed, m_currentPath, tid,
                  AttributeEdges(r, r.attributes(tid)), ChildEdges(r, tid, r.registered),
                  AggregateEdges(r, tid, m_aggregates),
                  old(m_output), start, afterAttributes, afterChildren, m_output);
    }

    /** Gathering from a root; `Uniquefy` then works on a copy, so the output stays a sequence as gathered. */
    method Gather(r: Registry, tid: TypeId)
      requires Known(r, m_aggregates) && tid in Types(r)
      requires m_currentPath == [] && m_alreadyProcessed == []
      modifies this`m_output, this`m_currentPath, this`m_alreadyProcessed
      ensures m_currentPath == [] && m_alreadyProcessed == []
      ensures m_output == old(m_output) + Output(GraphOf(r, m_aggregates), [], [], tid)
    {
      DoGather(GraphOf(r, m_aggregates), r, tid);
    }
  }

  function PathsOf(out: seq<(TypeId, string)>, tid: TypeId): seq<string> {
    if out == [] then []
    else PathsOf(out[..|out| - 1], tid) + if out[|out| - 1].0 == tid then [out[|out| - 1].1] else []
  }

  lemma {:induction false} PathsOfRecorded(out: seq<(TypeId, string)>, t: TypeId)
    ensures PathsOf(out, t) != [] <==> Recorded(out, t)
  {
    if out != [] {
      var front := out[..|out| - 1];
      PathsOfRecorded(front, t);
      if i :| 0 <= i < |front| && front[i].0 == t {
        assert out[i].0 == t;
      }
      if i :| 0 <= i < |out| && out[i].0 == t {
        assert i < |front| ==> front[i].0 == t;
      }
    }
  }

  /** After gathering from a root, `Get` has a path for exactly the types that can be reached from it. */
  lemma GetFindsReachable(g: TypeGraph, root: TypeId, t: TypeId)
    requires WellFormed(g) && root in g.types
    ensures PathsOf(Output(g, [], [], root), t) != [] <==>
      exists walk :: IsWalk(g, root, walk) && End(g, root, walk) == t
  {
    PathsOfRecorded(Output(g, [], [], root), t);
    RecordedIffReachable(g, root, t);
  }
}
