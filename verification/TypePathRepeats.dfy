/** When gathering configuration paths records one twice. */
module TypePathRepeats {
  import opened Sequences
  import opened TypePaths
  import opened TypePathEdges

  // ---------- a rendered path can be read back ----------

  predicate SlashFree(s: string) {
    '/' !in s
  }

  /** A plain piece of a path; `[i]` is kept for the items of containers. */
  predicate Piece(s: string) {
    SlashFree(s) && s != "[i]"
  }

  predicate IsItem(step: string) {
    |step| >= 4 && step[|step| - 4..] == "/[i]"
  }

  /** A step is a name, or a container's name followed by `/[i]`. */
  predicate CleanStep(step: string) {
    if IsItem(step) then Piece(step[..|step| - 4]) else Piece(step)
  }

  function PiecesOf(step: string): seq<string> {
    if IsItem(step) then [step[..|step| - 4], "[i]"] else [step]
  }

  /** The path cut at its slashes. */
  function Pieces(path: seq<string>): seq<string> {
    if path == [] then [] else Pieces(path[..|path| - 1]) + PiecesOf(path[|path| - 1])
  }

  ghost predicate AllClean(path: seq<string>) {
    forall i :: 0 <= i < |path| ==> CleanStep(path[i])
  }

  ghost predicate AllSlashFree(pieces: seq<string>) {
    forall i :: 0 <= i < |pieces| ==> SlashFree(pieces[i])
  }

  lemma RenderSnoc(path: seq<string>, step: string)
    ensures Render(path + [step]) == Render(path) + "/" + step
  {
    assert (path + [step])[..|path|] == path;
  }

  lemma RenderStep(pieces: seq<string>, step: string)
    requires CleanStep(step)
    ensures Render(pieces + PiecesOf(step)) == Render(pieces) + "/" + step && AllSlashFree(PiecesOf(step))
  {
    if IsItem(step) {
      var name := step[..|step| - 4];
      RenderSnoc(pieces, name);
      RenderSnoc(pieces + [name], "[i]");
      assert pieces + [name] + ["[i]"] == pieces + PiecesOf(step);
      assert Render(pieces) + "/" + name + "/" + "[i]" == Render(pieces) + "/" + (name + "/[i]");
      assert name + "/[i]" == step;
    } else {
      RenderSnoc(pieces, step);
    }
  }

  lemma {:induction false} RenderPieces(path: seq<string>)
    requires AllClean(path)
    ensures Render(Pieces(path)) == Render(path) && AllSlashFree(Pieces(path))
  {
    if path != [] {
      var front, last := path[..|path| - 1], path[|path| - 1];
      RenderPieces(front);
      RenderStep(Pieces(front), last);
    }
  }

  lemma HeadNotLonger(a: string, s: string, b: string, t: string)
    requires a + "/" + s == b + "/" + t
    ensures |a| < |b| ==> '/' in s
  {
    if |a| < |b| {
      assert s[|b| - |a| - 1] == (a + "/" + s)[|b|] == (b + "/" + t)[|b|] == '/';
    }
  }

  /** The text after the last slash is the last piece. */
  lemma LastPiece(a: string, s: string, b: string, t: string)
    requires SlashFree(s) && SlashFree(t) && a + "/" + s == b + "/" + t
    ensures a == b && s == t
  {
    HeadNotLonger(a, s, b, t);
    HeadNotLonger(b, t, a, s);
    assert a == (a + "/" + s)[..|a|] && b == (b + "/" + t)[..|b|];
    assert s == (a + "/" + s)[|a| + 1..] && t == (b + "/" + t)[|b| + 1..];
  }

  lemma {:induction false} RenderInjective(a: seq<string>, b: seq<string>)
    requires AllSlashFree(a) && AllSlashFree(b) && Render(a) == Render(b)
    ensures a == b
  {
    if a != [] && b != [] {
      var front, other := a[..|a| - 1], b[..|b| - 1];
      LastPiece(Render(front), a[|a| - 1], Render(other), b[|b| - 1]);
      RenderInjective(front, other);
      assert a == front + [a[|a| - 1]] && b == other + [b[|b| - 1]];
    }
  }

  lemma SplitEnd<T>(a: seq<T>, x: seq<T>, b: seq<T>, y: seq<T>)
    requires a + x == b + y && |x| == |y|
    ensures a == b && x == y
  {
    assert a == (a + x)[..|a|] && b == (b + y)[..|b|];
    assert x == (a + x)[|a|..] && y == (b + y)[|b|..];
  }

  /** Only the step of a container's item ends in the piece `[i]`. */
  lemma LastPieceTells(pieces: seq<string>, step: string, text: seq<string>)
    requires CleanStep(step) && text == pieces + PiecesOf(step)
    ensures text != [] && (text[|text| - 1] == "[i]" <==> IsItem(step))
  {
  }

  lemma SameStep(s: string, t: string)
    requires PiecesOf(s) == PiecesOf(t)
    ensures s == t
  {
    if IsItem(s) {
      assert s == PiecesOf(s)[0] + "/[i]" && t == PiecesOf(t)[0] + "/[i]";
    } else {
      assert s == PiecesOf(s)[0] && t == PiecesOf(t)[0];
    }
  }

  lemma SameLastStep(front: seq<string>, step: string, other: seq<string>, step': string)
    requires CleanStep(step) && CleanStep(step') && front + PiecesOf(step) == other + PiecesOf(step')
    ensures front == other && step == step'
  {
    LastPieceTells(front, step, front + PiecesOf(step));
    LastPieceTells(other, step', other + PiecesOf(step'));
    SplitEnd(front, PiecesOf(step), other, PiecesOf(step'));
    SameStep(step, step');
  }

  lemma PiecesEmpty(path: seq<string>)
    ensures Pieces(path) == [] <==> path == []
  {
    assert path != [] ==> PiecesOf(path[|path| - 1]) != [];
  }

  lemma {:induction false} PiecesInjective(p: seq<string>, q: seq<string>)
    requires AllClean(p) && AllClean(q) && Pieces(p) == Pieces(q)
    ensures p == q
  {
    PiecesEmpty(p);
    PiecesEmpty(q);
    if p != [] {
      var front, other := p[..|p| - 1], q[..|q| - 1];
      SameLastStep(Pieces(front), p[|p| - 1], Pieces(other), q[|q| - 1]);
      PiecesInjective(front, other);
      assert p == front + [p[|p| - 1]] && q == other + [q[|q| - 1]];
    }
  }

  /** Clean paths are told apart by their text. */
  lemma CleanPathsDiffer(p: seq<string>, q: seq<string>)
    requires AllClean(p) && AllClean(q) && Render(p) == Render(q)
    ensures p == q
  {
    RenderPieces(p);
    RenderPieces(q);
    RenderInjective(Pieces(p), Pieces(q));
    PiecesInjective(p, q);
  }

  // ---------- walks and their beginnings ----------

  lemma {:induction false} Extend(g: TypeGraph, tid: TypeId, walk: seq<nat>, i: nat)
    requires IsWalk(g, tid, walk)
    ensures IsWalk(g, tid, walk + [i]) <==> i < |g.edges(End(g, tid, walk))|
    ensures IsWalk(g, tid, walk + [i]) ==>
      var e := g.edges(End(g, tid, walk))[i];
      && Visited(g, tid, walk + [i]) == Visited(g, tid, walk) + [e.target]
      && Labels(g, tid, walk + [i]) == Labels(g, tid, walk) + [e.step]
      && End(g, tid, walk + [i]) == e.target
    decreases |walk|
  {
    if walk == [] {
      assert [] + [i] == [i] && [i][1..] == [];
    } else {
      var e := g.edges(tid)[walk[0]];
      VisitedStep(g, tid, walk);
      Extend(g, e.target, walk[1..], i);
      assert (walk + [i])[1..] == walk[1..] + [i];
      if IsWalk(g, tid, walk + [i]) {
        VisitedStep(g, tid, walk + [i]);
      }
    }
  }

  lemma {:induction false} TakeWalk(g: TypeGraph, tid: TypeId, walk: seq<nat>, n: nat)
    requires IsWalk(g, tid, walk) && n <= |walk|
    ensures |Visited(g, tid, walk)| == |walk| + 1 && |Labels(g, tid, walk)| == |walk|
    ensures IsWalk(g, tid, walk[..n])
    ensures Visited(g, tid, walk[..n]) == Visited(g, tid, walk)[..n + 1]
    ensures Labels(g, tid, walk[..n]) == Labels(g, tid, walk)[..n]
    decreases |walk|
  {
    if walk == [] {
      assert walk[..n] == [];
    } else {
      var e := g.edges(tid)[walk[0]];
      VisitedStep(g, tid, walk);
      if n == 0 {
        TakeWalk(g, e.target, walk[1..], 0);
      } else {
        TakeWalk(g, e.target, walk[1..], n - 1);
        assert walk[..n][1..] == walk[1..][..n - 1];
        VisitedStep(g, tid, walk[..n]);
      }
    }
  }

  // ---------- twin edges ----------

  /** The steps of a type are clean, and equal steps lead to the same type. */
  ghost predicate Tidy(g: TypeGraph) {
    && (forall t, i :: t in g.types && 0 <= i < |g.edges(t)| ==> CleanStep(g.edges(t)[i].step))
    && (forall t, i, j :: t in g.types && 0 <= i < |g.edges(t)| && 0 <= j < |g.edges(t)| ==>
         g.edges(t)[i].step == g.edges(t)[j].step ==> g.edges(t)[i] == g.edges(t)[j])
  }

  /** Two edges with one step and one target, at the end of a simple walk that has not been to that target. */
  ghost predicate Twin(g: TypeGraph, root: TypeId, walk: seq<nat>, i: nat, j: nat) {
    && SimpleWalk(g, [], root, walk)
    && var edges := g.edges(End(g, root, walk));
      i < j < |edges| && edges[i] == edges[j] && edges[i].target !in Visited(g, root, walk)
  }

  ghost predicate HasTwin(g: TypeGraph, root: TypeId) {
    exists walk, i, j :: Twin(g, root, walk, i, j)
  }

  lemma TwinRepeats(g: TypeGraph, root: TypeId, walk: seq<nat>, i: nat, j: nat)
    requires WellFormed(g) && root in g.types && Twin(g, root, walk, i, j)
    ensures !Distinct(Output(g, [], [], root))
  {
    var out := Output(g, [], [], root);
    var walks := GatherIsPreorder(g, root);
    Extend(g, root, walk, i);
    Extend(g, root, walk, j);
    assert SimpleWalk(g, [], root, walk + [i]) && SimpleWalk(g, [], root, walk + [j]);
    var a :| 0 <= a < |walks| && walks[a] == walk + [i];
    var b :| 0 <= b < |walks| && walks[b] == walk + [j];
    assert (walk + [i])[|walk|] != (walk + [j])[|walk|];
    assert Records(g, [], root, walks[a], out[a]) && Records(g, [], root, walks[b], out[b]);
    assert a != b && out[a] == out[b];
  }

  lemma SimplePrefix(g: TypeGraph, root: TypeId, walk: seq<nat>, n: nat)
    requires SimpleWalk(g, [], root, walk) && n < |walk|
    ensures SimpleWalk(g, [], root, walk[..n])
    ensures
      var edges := g.edges(End(g, root, walk[..n]));
      && walk[n] < |edges|
      && edges[walk[n]].target !in Visited(g, root, walk[..n])
      && |Labels(g, root, walk)| == |walk| && Labels(g, root, walk)[n] == edges[walk[n]].step
  {
    var s := Visited(g, root, walk);
    TakeWalk(g, root, walk, n);
    TakeWalk(g, root, walk, n + 1);
    assert walk[..n + 1] == walk[..n] + [walk[n]];
    Extend(g, root, walk[..n], walk[n]);
    assert s[..n + 2] == s[..n + 1] + [s[n + 1]];
    assert s[n + 1] !in s[..n + 1];
    assert Labels(g, root, walk)[..n + 1][n] == Labels(g, root, walk)[n];
  }

  /** Where two different walks with the same labels part, there are twin edges. */
  lemma {:induction false} PartingTwin(g: TypeGraph, root: TypeId, a: seq<nat>, b: seq<nat>)
    requires WellFormed(g) && root in g.types && Tidy(g) && a != b
    requires SimpleWalk(g, [], root, a) && SimpleWalk(g, [], root, b) && Labels(g, root, a) == Labels(g, root, b)
    ensures HasTwin(g, root)
  {
    TakeWalk(g, root, a, 0);
    TakeWalk(g, root, b, 0);
    var n := FirstDifference(a, b);
    SimplePrefix(g, root, a, n);
    SimplePrefix(g, root, b, n);
    var edges := g.edges(End(g, root, a[..n]));
    EndIsKnown(g, root, a[..n]);
    assert edges[a[n]] == edges[b[n]];
    assert Twin(g, root, a[..n], if a[n] < b[n] then a[n] else b[n], if a[n] < b[n] then b[n] else a[n]);
  }

  lemma {:induction false} EndIsKnown(g: TypeGraph, tid: TypeId, walk: seq<nat>)
    requires WellFormed(g) && tid in g.types && IsWalk(g, tid, walk)
    ensures End(g, tid, walk) in g.types
    decreases |walk|
  {
    if walk != [] {
      VisitedStep(g, tid, walk);
      EndIsKnown(g, g.edges(tid)[walk[0]].target, walk[1..]);
    }
  }

  lemma {:induction false} FirstDifference(a: seq<nat>, b: seq<nat>) returns (n: nat)
    requires |a| == |b| && a != b
    ensures n < |a| && a[..n] == b[..n] && a[n] != b[n]
  {
    if a[0] != b[0] {
      n := 0;
    } else {
      assert a == [a[0]] + a[1..] && b == [b[0]] + b[1..];
      var m := FirstDifference(a[1..], b[1..]);
      n := m + 1;
      assert a[..n] == [a[0]] + a[1..][..m] && b[..n] == [b[0]] + b[1..][..m];
    }
  }

  lemma {:induction false} LabelsClean(g: TypeGraph, tid: TypeId, walk: seq<nat>)
    requires WellFormed(g) && tid in g.types && Tidy(g) && IsWalk(g, tid, walk)
    ensures AllClean(Labels(g, tid, walk))
    decreases |walk|
  {
    if walk != [] {
      LabelsClean(g, g.edges(tid)[walk[0]].target, walk[1..]);
    }
  }

  /** Gathering records something twice exactly when the search meets twin edges. */
  lemma RepeatsIffTwin(g: TypeGraph, root: TypeId)
    requires WellFormed(g) && root in g.types && Tidy(g)
    ensures Distinct(Output(g, [], [], root)) <==> !HasTwin(g, root)
  {
    var out := Output(g, [], [], root);
    if walk, i, j :| Twin(g, root, walk, i, j) {
      TwinRepeats(g, root, walk, i, j);
    }
    if a, b :| 0 <= a < b < |out| && out[a] == out[b] {
      var walks := GatherIsPreorder(g, root);
      assert Records(g, [], root, walks[a], out[a]) && Records(g, [], root, walks[b], out[b]);
      assert walks[a] in walks && walks[b] in walks;
      OrderedIsDistinct(walks, a, b);
      var p, q := Labels(g, root, walks[a]), Labels(g, root, walks[b]);
      assert [] + p == p && [] + q == q;
      LabelsClean(g, root, walks[a]);
      LabelsClean(g, root, walks[b]);
      CleanPathsDiffer(p, q);
      PartingTwin(g, root, walks[a], walks[b]);
    }
  }

  // ---------- registries ----------

  /**
   Type names are free of slashes and different for different types.  The
   attribute names of a type are pieces, different from each other, and do not
   start like the steps that name a type.
   */
  ghost predicate TidyRegistry(r: Registry) {
    && (forall t :: t in Types(r) ==> SlashFree(r.name(t)))
    && (forall t, u :: t in Types(r) && u in Types(r) && r.name(t) == r.name(u) ==> t == u)
    && (forall t, i :: t in Types(r) && 0 <= i < |r.attributes(t)| ==> TidyName(r.attributes(t)[i].name))
    && (forall t, i, j :: t in Types(r) && 0 <= i < j < |r.attributes(t)| ==>
         r.attributes(t)[i].name != r.attributes(t)[j].name)
  }

  predicate TidyName(name: string) {
    Piece(name) && (name == "" || name[0] != '$')
  }

  predicate NamesType(r: Registry, e: Edge) {
    e.step == "$" + r.name(e.target)
  }

  predicate FromAttribute(r: Registry, a: Attribute, e: Edge) {
    AttributeEdge(r, a) == [e]
  }

  /** Every edge comes from an attribute, or its step names its target. */
  lemma EdgeOrigin(r: Registry, aggregates: seq<(TypeId, TypeId)>, t: TypeId, e: Edge)
    requires e in Edges(r, aggregates, t)
    ensures NamesType(r, e) || exists i :: 0 <= i < |r.attributes(t)| && FromAttribute(r, r.attributes(t)[i], e)
  {
    var from := EdgesInOrder(r, aggregates, t);
    var n :| 0 <= n < |from| && Edges(r, aggregates, t)[n] == e;
    assert Gives(r, aggregates, t, from[n], e);
    if from[n].AttributeAt? {
      assert FromAttribute(r, r.attributes(t)[from[n].i], e);
    }
  }

  lemma ItemHasSlash(step: string)
    ensures IsItem(step) ==> !SlashFree(step)
  {
    if IsItem(step) {
      assert step[|step| - 4] == step[|step| - 4..][0] == '/';
    }
  }

  lemma TypeStep(name: string)
    requires SlashFree(name)
    ensures SlashFree("$" + name) && CleanStep("$" + name) && ("$" + name)[0] == '$'
  {
    ItemHasSlash("$" + name);
    assert ("$" + name)[0] == '$';
  }

  lemma ItemStep(name: string)
    requires Piece(name)
    ensures CleanStep(name + "/[i]") && !SlashFree(name + "/[i]") && PiecesOf(name + "/[i]") == [name, "[i]"]
  {
    var step := name + "/[i]";
    assert step[..|name|] == name && step[|name|..] == "/[i]" && step[|name|] == '/';
  }

  lemma PlainStep(name: string)
    requires Piece(name)
    ensures CleanStep(name) && PiecesOf(name) == [name]
  {
    ItemHasSlash(name);
  }

  /** What tells an attribute's steps from each other and from those that name a type. */
  lemma AttributeStep(r: Registry, a: Attribute, e: Edge)
    requires FromAttribute(r, a, e) && TidyName(a.name)
    ensures CleanStep(e.step) && PiecesOf(e.step)[0] == a.name && (SlashFree(e.step) ==> e.step == a.name)
  {
    assert e == AttributeEdge(r, a)[0];
    if a.kind.Pointer? {
      PlainStep(a.name);
    } else {
      ItemStep(a.name);
    }
  }

  /** An edge that names a type, or the number of the attribute it comes from. */
  predicate Origin(r: Registry, attributes: seq<Attribute>, e: Edge, i: int) {
    if 0 <= i < |attributes| then FromAttribute(r, attributes[i], e) && TidyName(attributes[i].name)
    else NamesType(r, e) && SlashFree(r.name(e.target))
  }

  lemma OriginOf(r: Registry, aggregates: seq<(TypeId, TypeId)>, t: TypeId, e: Edge) returns (i: int)
    requires Known(r, aggregates) && TidyRegistry(r) && t in Types(r) && e in Edges(r, aggregates, t)
    ensures Origin(r, r.attributes(t), e, i) && e.target in Types(r)
  {
    EdgeOrigin(r, aggregates, t, e);
    EdgeTargets(r, aggregates, t);
    if k :| 0 <= k < |r.attributes(t)| && FromAttribute(r, r.attributes(t)[k], e) {
      i := k;
    } else {
      i := -1;
    }
  }

  lemma OriginIsClean(r: Registry, attributes: seq<Attribute>, e: Edge, i: int)
    requires Origin(r, attributes, e, i)
    ensures CleanStep(e.step)
  {
    if 0 <= i < |attributes| {
      AttributeStep(r, attributes[i], e);
    } else {
      TypeStep(r.name(e.target));
    }
  }

  lemma StepsDiffer(r: Registry, attributes: seq<Attribute>, d: Edge, e: Edge, i: int, j: int)
    requires Origin(r, attributes, d, i) && Origin(r, attributes, e, j) && d.step == e.step
    ensures 0 <= i < |attributes| ==> 0 <= j < |attributes| && attributes[i].name == attributes[j].name
  {
    if 0 <= i < |attributes| {
      AttributeStep(r, attributes[i], d);
      if 0 <= j < |attributes| {
        AttributeStep(r, attributes[j], e);
      } else {
        TypeStep(r.name(e.target));
      }
    }
  }

  lemma TidyEdges(r: Registry, aggregates: seq<(TypeId, TypeId)>, t: TypeId, d: Edge, e: Edge)
    requires Known(r, aggregates) && TidyRegistry(r) && t in Types(r)
    requires d in Edges(r, aggregates, t) && e in Edges(r, aggregates, t)
    ensures CleanStep(d.step) && (d.step == e.step ==> d == e)
  {
    var i := OriginOf(r, aggregates, t, d);
    var j := OriginOf(r, aggregates, t, e);
    OriginIsClean(r, r.attributes(t), d, i);
    if d.step == e.step {
      StepsDiffer(r, r.attributes(t), d, e, i, j);
      StepsDiffer(r, r.attributes(t), e, d, j, i);
      if 0 <= i < |r.attributes(t)| {
        assert i == j;
      } else {
        SameName(r, d, e);
      }
    }
  }

  lemma SameName(r: Registry, d: Edge, e: Edge)
    requires NamesType(r, d) && NamesType(r, e) && d.step == e.step
    ensures r.name(d.target) == r.name(e.target)
  {
    assert d.step[1..] == r.name(d.target) && e.step[1..] == r.name(e.target);
  }

  lemma GraphIsTidy(r: Registry, aggregates: seq<(TypeId, TypeId)>)
    requires Known(r, aggregates) && TidyRegistry(r)
    ensures Tidy(GraphOf(r, aggregates))
  {
    var g := GraphOf(r, aggregates);
    forall t, i, j | t in g.types && 0 <= i < |g.edges(t)| && 0 <= j < |g.edges(t)|
      ensures CleanStep(g.edges(t)[i].step) &&
        (g.edges(t)[i].step == g.edges(t)[j].step ==> g.edges(t)[i] == g.edges(t)[j])
    {
      TidyEdges(r, aggregates, t, g.edges(t)[i], g.edges(t)[j]);
    }
  }

  /**
   What `Gather` appends repeats a record whenever the search meets twin edges, and
   with names that can be told apart in a path only then.
   */
  lemma GatherRepeatsIffTwin(r: Registry, aggregates: seq<(TypeId, TypeId)>, root: TypeId)
    requires Known(r, aggregates) && root in Types(r)
    ensures
      var g := GraphOf(r, aggregates);
      && (HasTwin(g, root) ==> !Distinct(Output(g, [], [], root)))
      && (TidyRegistry(r) ==> (Distinct(Output(g, [], [], root)) <==> !HasTwin(g, root)))
  {
    var g := GraphOf(r, aggregates);
    if walk, i, j :| Twin(g, root, walk, i, j) {
      TwinRepeats(g, root, walk, i, j);
    }
    if TidyRegistry(r) {
      GraphIsTidy(r, aggregates);
      RepeatsIffTwin(g, root);
    }
  }

  // ---------- a pair recorded twice ----------

  lemma {:induction false} EdgeKept(r: Registry, tid: TypeId, aggregates: seq<(TypeId, TypeId)>, n: nat, e: Edge)
    returns (k: nat)
    requires n < |aggregates| && AggregateEdge(r, tid, aggregates[n]) == [e]
    ensures k < |AggregateEdges(r, tid, aggregates)| && AggregateEdges(r, tid, aggregates)[k] == e
    ensures k == |AggregateEdges(r, tid, aggregates[..n])|
    decreases |aggregates|
  {
    var m := |aggregates| - 1;
    if n == m {
      k := |AggregateEdges(r, tid, aggregates[..m])|;
    } else {
      assert aggregates[..m][..n] == aggregates[..n];
      k := EdgeKept(r, tid, aggregates[..m], n, e);
    }
  }

  predicate Joins(p: (TypeId, TypeId), a: TypeId, b: TypeId) {
    p == (a, b) || p == (b, a)
  }

  lemma JoinEdge(r: Registry, p: (TypeId, TypeId), a: TypeId, b: TypeId)
    requires Joins(p, a, b) && a != b
    ensures AggregateEdge(r, a, p) == [Edge("$" + r.name(b), b)]
  {
  }

  lemma TwinAtRoot(g: TypeGraph, a: TypeId, i: nat, j: nat)
    requires i < j < |g.edges(a)| && g.edges(a)[i] == g.edges(a)[j] && g.edges(a)[i].target != a
    ensures Twin(g, a, [], i, j)
  {
    assert Visited(g, a, []) == [a];
  }

  /** Aggregating the same two types twice makes gathering from the first one record the second one twice. */
  lemma PairTwiceRepeats(r: Registry, aggregates: seq<(TypeId, TypeId)>, i: nat, j: nat, a: TypeId, b: TypeId)
    requires Known(r, aggregates) && i < j < |aggregates| && a != b
    requires Joins(aggregates[i], a, b) && Joins(aggregates[j], a, b)
    ensures a in Types(r) && !Distinct(Output(GraphOf(r, aggregates), [], [], a))
  {
    var g := GraphOf(r, aggregates);
    assert KnownPair(r, aggregates[i]);
    JoinEdge(r, aggregates[i], a, b);
    JoinEdge(r, aggregates[j], a, b);
    var k, m := TwoEdges(r, aggregates, i, j, a, Edge("$" + r.name(b), b));
    TwinAtRoot(g, a, k, m);
    TwinRepeats(g, a, [], k, m);
  }

  /** How many edges come before those of the aggregates. */
  function OwnEdges(r: Registry, tid: TypeId): nat {
    |AttributeEdges(r, r.attributes(tid)) + ChildEdges(r, tid, r.registered)|
  }

  lemma AggregateEdgeAt(r: Registry, aggregates: seq<(TypeId, TypeId)>, tid: TypeId, k: nat)
    requires k < |AggregateEdges(r, tid, aggregates)|
    ensures OwnEdges(r, tid) + k < |Edges(r, aggregates, tid)|
    ensures Edges(r, aggregates, tid)[OwnEdges(r, tid) + k] == AggregateEdges(r, tid, aggregates)[k]
  {
    Shifted(AttributeEdges(r, r.attributes(tid)) + ChildEdges(r, tid, r.registered),
      AggregateEdges(r, tid, aggregates), k);
  }

  lemma TwoEdges(r: Registry, aggregates: seq<(TypeId, TypeId)>, i: nat, j: nat, tid: TypeId, e: Edge)
    returns (k: nat, m: nat)
    requires i < j < |aggregates|
    requires AggregateEdge(r, tid, aggregates[i]) == [e] && AggregateEdge(r, tid, aggregates[j]) == [e]
    ensures k < m < |Edges(r, aggregates, tid)|
    ensures Edges(r, aggregates, tid)[k] == Edges(r, aggregates, tid)[m] == e
  {
    var first := EdgeKept(r, tid, aggregates, i, e);
    var second := EdgeKept(r, tid, aggregates, j, e);
    FewerBefore(r, tid, aggregates, i, j);
    AggregateEdgeAt(r, aggregates, tid, first);
    AggregateEdgeAt(r, aggregates, tid, second);
    k, m := OwnEdges(r, tid) + first, OwnEdges(r, tid) + second;
  }

  lemma {:induction false} FewerBefore(r: Registry, tid: TypeId, aggregates: seq<(TypeId, TypeId)>, i: nat, j: nat)
    requires i < j < |aggregates| && AggregateEdge(r, tid, aggregates[i]) != []
    ensures |AggregateEdges(r, tid, aggregates[..i])| < |AggregateEdges(r, tid, aggregates[..j])|
    decreases j
  {
    AggregateEdgesSnoc(r, tid, aggregates, j - 1);
    if i < j - 1 {
      FewerBefore(r, tid, aggregates, i, j - 1);
    }
  }
}
