/** utils/print-introspected-doxygen.cc: which types are followed, in what order, and what is recorded of them. */
module TypePathEdges {
  import opened Sequences
  import opened Paths
  import opened TypePaths

  // ---------- the edges ----------

  /** What an edge comes from: one of the attributes, one of the registered types, or one of the aggregate pairs. */
  datatype Source = AttributeAt(i: nat) | TypeAt(j: nat) | PairAt(k: nat)

  /** The edge that a source gives, if any. */
  ghost predicate Gives(r: Registry, aggregates: seq<(TypeId, TypeId)>, t: TypeId, from: Source, e: Edge) {
    match from
    case AttributeAt(i) =>
      && i < |r.attributes(t)|
      && var a := r.attributes(t)[i];
        || (a.kind == Pointer(e.target) && e.target != r.objectTypeId && e.step == a.name)
        || (a.kind == ObjectVector(e.target) && e.step == a.name + "/[i]")
    case TypeAt(j) =>
      j < |r.registered| && e.target == r.registered[j] && r.isChildOf(e.target, t) && e.step == "$" + r.name(e.target)
    case PairAt(k) =>
      k < |aggregates| && (aggregates[k] == (t, e.target) || aggregates[k] == (e.target, t))
      && e.step == "$" + r.name(e.target)
  }

  /** Attributes before types before pairs, each in the order of their list. */
  predicate Earlier(a: Source, b: Source) {
    match a
    case AttributeAt(i) => b.AttributeAt? ==> i < b.i
    case TypeAt(j) => b.PairAt? || (b.TypeAt? && j < b.j)
    case PairAt(k) => b.PairAt? && k < b.k
  }

  /** The sources in their order, with the edges they give. */
  ghost predicate GivenBy(r: Registry, aggregates: seq<(TypeId, TypeId)>, t: TypeId, edges: seq<Edge>,
                          from: seq<Source>)
  {
    && |from| == |edges|
    && (forall n :: 0 <= n < |edges| ==> Gives(r, aggregates, t, from[n], edges[n]))
    && (forall m, n :: 0 <= m < n < |from| ==> Earlier(from[m], from[n]))
  }

  lemma GivenNext(r: Registry, aggregates: seq<(TypeId, TypeId)>, t: TypeId, edges: seq<Edge>, from: seq<Source>,
                  more: seq<Edge>, next: Source)
    requires GivenBy(r, aggregates, t, edges, from) && |more| <= 1
    requires forall e :: Gives(r, aggregates, t, next, e) <==> e in more
    requires forall n :: 0 <= n < |from| ==> Earlier(from[n], next)
    ensures GivenBy(r, aggregates, t, edges + more, from + if more == [] then [] else [next])
  {
  }

  ghost predicate Complete(r: Registry, aggregates: seq<(TypeId, TypeId)>, t: TypeId, from: seq<Source>) {
    forall source, e :: Gives(r, aggregates, t, source, e) ==> source in from
  }

  lemma {:induction false} AttributesGive(r: Registry, aggregates: seq<(TypeId, TypeId)>, t: TypeId, n: nat)
    returns (from: seq<Source>)
    requires n <= |r.attributes(t)|
    ensures GivenBy(r, aggregates, t, AttributeEdges(r, r.attributes(t)[..n]), from)
    ensures forall source :: source in from ==> source.AttributeAt? && source.i < n
    ensures forall source: Source, e :: source.AttributeAt? && source.i < n && Gives(r, aggregates, t, source, e) ==>
      source in from
  {
    from := [];
    if n > 0 {
      var more := AttributeEdge(r, r.attributes(t)[n - 1]);
      from := AttributesGive(r, aggregates, t, n - 1);
      AttributeEdgesSnoc(r, r.attributes(t), n - 1);
      GivenNext(r, aggregates, t, AttributeEdges(r, r.attributes(t)[..n - 1]), from, more, AttributeAt(n - 1));
      from := from + if more == [] then [] else [AttributeAt(n - 1)];
    }
  }

  lemma {:induction false} TypesGive(r: Registry, aggregates: seq<(TypeId, TypeId)>, t: TypeId, n: nat)
    returns (from: seq<Source>)
    requires n <= |r.registered|
    ensures GivenBy(r, aggregates, t, ChildEdges(r, t, r.registered[..n]), from)
    ensures forall source :: source in from ==> source.TypeAt? && source.j < n
    ensures forall source: Source, e :: source.TypeAt? && source.j < n && Gives(r, aggregates, t, source, e) ==>
      source in from
  {
    from := [];
    if n > 0 {
      var more := ChildEdge(r, t, r.registered[n - 1]);
      from := TypesGive(r, aggregates, t, n - 1);
      ChildEdgesSnoc(r, t, r.registered, n - 1);
      GivenNext(r, aggregates, t, ChildEdges(r, t, r.registered[..n - 1]), from, more, TypeAt(n - 1));
      from := from + if more == [] then [] else [TypeAt(n - 1)];
    }
  }

  lemma {:induction false} PairsGive(r: Registry, aggregates: seq<(TypeId, TypeId)>, t: TypeId, n: nat)
    returns (from: seq<Source>)
    requires n <= |aggregates|
    ensures GivenBy(r, aggregates, t, AggregateEdges(r, t, aggregates[..n]), from)
    ensures forall source :: source in from ==> source.PairAt? && source.k < n
    ensures forall source: Source, e :: source.PairAt? && source.k < n && Gives(r, aggregates, t, source, e) ==>
      source in from
  {
    from := [];
    if n > 0 {
      var more := AggregateEdge(r, t, aggregates[n - 1]);
      from := PairsGive(r, aggregates, t, n - 1);
      AggregateEdgesSnoc(r, t, aggregates, n - 1);
      GivenNext(r, aggregates, t, AggregateEdges(r, t, aggregates[..n - 1]), from, more, PairAt(n - 1));
      from := from + if more == [] then [] else [PairAt(n - 1)];
    }
  }

  lemma GivenConcat(r: Registry, aggregates: seq<(TypeId, TypeId)>, t: TypeId, a: seq<Edge>, from: seq<Source>,
                    b: seq<Edge>, more: seq<Source>)
    requires GivenBy(r, aggregates, t, a, from) && GivenBy(r, aggregates, t, b, more)
    requires forall m, n :: 0 <= m < |from| && 0 <= n < |more| ==> Earlier(from[m], more[n])
    ensures GivenBy(r, aggregates, t, a + b, from + more)
  {
  }

  /** The edges out of a type: one for every source that gives one, in the order of the sources. */
  lemma EdgesInOrder(r: Registry, aggregates: seq<(TypeId, TypeId)>, t: TypeId) returns (from: seq<Source>)
    ensures GivenBy(r, aggregates, t, GraphOf(r, aggregates).edges(t), from) && Complete(r, aggregates, t, from)
  {
    var a := AttributesGive(r, aggregates, t, |r.attributes(t)|);
    var b := TypesGive(r, aggregates, t, |r.registered|);
    var c := PairsGive(r, aggregates, t, |aggregates|);
    assert r.attributes(t)[..|r.attributes(t)|] == r.attributes(t);
    assert r.registered[..|r.registered|] == r.registered;
    assert aggregates[..|aggregates|] == aggregates;
    var first, second, third :=
      AttributeEdges(r, r.attributes(t)), ChildEdges(r, t, r.registered), AggregateEdges(r, t, aggregates);
    GivenConcat(r, aggregates, t, first, a, second, b);
    GivenConcat(r, aggregates, t, first + second, a + b, third, c);
    from := a + b + c;
  }

  // ---------- the types that are reached ----------

  /** A pointer or container of t's attributes, a subtype of t, or an aggregate of t leads to u. */
  ghost predicate Linked(r: Registry, aggregates: seq<(TypeId, TypeId)>, t: TypeId, u: TypeId) {
    exists from, step :: Gives(r, aggregates, t, from, Edge(step, u))
  }

  ghost predicate Route(r: Registry, aggregates: seq<(TypeId, TypeId)>, types: seq<TypeId>) {
    types != [] && forall n :: 0 <= n < |types| - 1 ==> Linked(r, aggregates, types[n], types[n + 1])
  }

  ghost predicate Connected(r: Registry, aggregates: seq<(TypeId, TypeId)>, t: TypeId, u: TypeId) {
    exists types :: Route(r, aggregates, types) && types[0] == t && types[|types| - 1] == u
  }

  lemma LinkedIffEdge(r: Registry, aggregates: seq<(TypeId, TypeId)>, t: TypeId, u: TypeId)
    ensures Linked(r, aggregates, t, u) <==>
      exists n :: 0 <= n < |GraphOf(r, aggregates).edges(t)| && GraphOf(r, aggregates).edges(t)[n].target == u
  {
    var edges := GraphOf(r, aggregates).edges(t);
    var sources := EdgesInOrder(r, aggregates, t);
    if from, step :| Gives(r, aggregates, t, from, Edge(step, u)) {
      var n :| 0 <= n < |sources| && sources[n] == from;
      assert Gives(r, aggregates, t, from, edges[n]);
    }
    if n :| 0 <= n < |edges| && edges[n].target == u {
      assert edges[n] == Edge(edges[n].step, u);
      assert Gives(r, aggregates, t, sources[n], Edge(edges[n].step, u));
    }
  }

  lemma {:induction false} WalkIsRoute(r: Registry, aggregates: seq<(TypeId, TypeId)>, t: TypeId, walk: seq<nat>)
    requires IsWalk(GraphOf(r, aggregates), t, walk)
    ensures Connected(r, aggregates, t, End(GraphOf(r, aggregates), t, walk))
    decreases |walk|
  {
    var g := GraphOf(r, aggregates);
    if walk == [] {
      assert Route(r, aggregates, [t]);
    } else {
      var next := g.edges(t)[walk[0]].target;
      VisitedStep(g, t, walk);
      WalkIsRoute(r, aggregates, next, walk[1..]);
      LinkedIffEdge(r, aggregates, t, next);
      var types :| Route(r, aggregates, types) && types[0] == next && types[|types| - 1] == End(g, next, walk[1..]);
      var longer := [t] + types;
      assert Route(r, aggregates, longer) && longer[|longer| - 1] == types[|types| - 1];
    }
  }

  lemma {:induction false} RouteHasWalk(r: Registry, aggregates: seq<(TypeId, TypeId)>, types: seq<TypeId>)
    returns (walk: seq<nat>)
    requires Route(r, aggregates, types)
    ensures var g := GraphOf(r, aggregates);
      IsWalk(g, types[0], walk) && End(g, types[0], walk) == types[|types| - 1]
  {
    var g := GraphOf(r, aggregates);
    walk := [];
    if |types| > 1 {
      assert forall n :: 0 <= n < |types| - 1 ==> types[1..][n] == types[n + 1];
      assert Linked(r, aggregates, types[0], types[1]);
      LinkedIffEdge(r, aggregates, types[0], types[1]);
      var n :| 0 <= n < |g.edges(types[0])| && g.edges(types[0])[n].target == types[1];
      var rest := RouteHasWalk(r, aggregates, types[1..]);
      walk := [n] + rest;
      assert walk[1..] == rest;
      VisitedStep(g, types[0], walk);
    }
  }

  /** Gathering from a root records exactly the types that attributes, subtypes and aggregates connect it with. */
  lemma GatherReachesConnected(r: Registry, aggregates: seq<(TypeId, TypeId)>, root: TypeId, u: TypeId)
    requires Known(r, aggregates) && root in Types(r)
    ensures PathsOf(Output(GraphOf(r, aggregates), [], [], root), u) != [] <==> Connected(r, aggregates, root, u)
  {
    var g := GraphOf(r, aggregates);
    GetFindsReachable(g, root, u);
    if walk :| IsWalk(g, root, walk) && End(g, root, walk) == u {
      WalkIsRoute(r, aggregates, root, walk);
    }
    if types :| Route(r, aggregates, types) && types[0] == root && types[|types| - 1] == u {
      var walk := RouteHasWalk(r, aggregates, types);
    }
  }

  // ---------- the texts ----------

  function AllParts(path: seq<string>): seq<string> {
    if path == [] then [] else AllParts(path[..|path| - 1]) + Parts(path[|path| - 1])
  }

  /** The steps of a path stand in its text in their order, each after a slash. */
  lemma {:induction false} TextHasSteps(path: seq<string>)
    ensures Parts(Render(path)) == AllParts(path)
    ensures Absolute(Render(path)) <==> path != []
  {
    if path != [] {
      var front, last := path[..|path| - 1], path[|path| - 1];
      TextHasSteps(front);
      PartsAtSlash(Render(front), last);
    }
  }

  /** The texts are those recorded for the type: all of them, as often and in the order that they were recorded. */
  ghost predicate ListsRecords(out: seq<(TypeId, string)>, t: TypeId, paths: seq<string>, at: seq<nat>) {
    && |at| == |paths|
    && (forall k :: 0 <= k < |at| ==> at[k] < |out| && out[at[k]] == (t, paths[k]))
    && (forall j, k :: 0 <= j < k < |at| ==> at[j] < at[k])
    && (forall i :: 0 <= i < |out| && out[i].0 == t ==> i in at)
  }

  lemma ListsNext(out: seq<(TypeId, string)>, t: TypeId, paths: seq<string>, at: seq<nat>, next: (TypeId, string))
    requires ListsRecords(out, t, paths, at)
    ensures next.0 != t ==> ListsRecords(out + [next], t, paths, at)
    ensures next.0 == t ==> ListsRecords(out + [next], t, paths + [next.1], at + [|out|])
  {
    var longer := at + [|out|];
    assert forall i :: i in at ==> i in longer;
    assert longer[|at|] == |out|;
  }

  /** The positions of the records that `Get` lists. */
  lemma {:induction false} GetListsRecords(out: seq<(TypeId, string)>, t: TypeId) returns (at: seq<nat>)
    ensures ListsRecords(out, t, PathsOf(out, t), at)
  {
    at := [];
    if out != [] {
      var n := |out| - 1;
      at := GetListsRecords(out[..n], t);
      ListsNext(out[..n], t, PathsOf(out[..n], t), at, out[n]);
      assert out[..n] + [out[n]] == out;
      if out[n].0 == t {
        at := at + [n];
      }
    }
  }
}
