/** bindings/python/topsort.py: `find_cycles`. */
module FindCycles {
  import opened Graphs
  import opened Sequences
  import opened Rotations

  /** The list holds c, up to rotation. */
  ghost predicate Found<T>(cycles: seq<seq<T>>, c: seq<T>) {
    exists i :: 0 <= i < |cycles| && IsRotation(cycles[i], c)
  }

  /** Simple cycles only, and no two of them rotations of each other. */
  ghost predicate Listed<T(!new)>(g: Graph<T>, cycles: seq<seq<T>>) {
    && (forall i :: 0 <= i < |cycles| ==> SimpleCycle(g, cycles[i]))
    && (forall i, j :: 0 <= i < j < |cycles| ==> !IsRotation(cycles[i], cycles[j]))
  }

  /** Every simple cycle that x reaches has been found. */
  ghost predicate Covered<T(!new)>(g: Graph<T>, cycles: seq<seq<T>>, x: T) {
    forall c, y :: SimpleCycle(g, c) && y in c && Reaches(g, x, y) ==> Found(cycles, c)
  }

  ghost predicate PathFrom<T>(g: Graph<T>, start: T, p: seq<T>) {
    Walk(g, p) && Distinct(p) && p[0] == start
  }

  /** Every cycle that one more edge from the end of p would close has been found. */
  ghost predicate Closed<T>(g: Graph<T>, cycles: seq<seq<T>>, p: seq<T>)
    requires p != []
  {
    forall i :: 0 <= i < |p| && Edge(g, p[|p| - 1], p[i]) ==> Found(cycles, p[i..])
  }

  lemma FoundGrows<T>(cycles: seq<seq<T>>, more: seq<seq<T>>, c: seq<T>)
    requires Found(cycles, c) && cycles <= more
    ensures Found(more, c)
  {
    var i :| 0 <= i < |cycles| && IsRotation(cycles[i], c);
    assert more[i] == cycles[i];
  }

  lemma CoveredGrows<T(!new)>(g: Graph<T>, cycles: seq<seq<T>>, more: seq<seq<T>>, x: T)
    requires Covered(g, cycles, x) && cycles <= more
    ensures Covered(g, more, x)
  {
    forall c, y | SimpleCycle(g, c) && y in c && Reaches(g, x, y)
      ensures Found(more, c)
    {
      FoundGrows(cycles, more, c);
    }
  }

  lemma CoveredBelow<T(!new)>(g: Graph<T>, cycles: seq<seq<T>>, x: T, z: T)
    requires Covered(g, cycles, x) && Reaches(g, x, z)
    ensures Covered(g, cycles, z)
  {
    forall c, y | SimpleCycle(g, c) && y in c && Reaches(g, z, y)
      ensures Found(cycles, c)
    {
      ReachesTrans(g, x, z, y);
    }
  }

  // ---------- exploring all simple paths finds all reachable cycles ----------

  /** From any walk to a cycle, a simple path that meets the cycle only at its end. */
  lemma {:induction false} EntryPath<T>(g: Graph<T>, c: seq<T>, w: seq<T>) returns (p: seq<T>)
    requires Walk(g, w) && w[|w| - 1] in c
    ensures PathFrom(g, w[0], p) && p[|p| - 1] in c
    ensures forall i :: 0 <= i < |p| - 1 ==> p[i] !in c
    decreases |w|
  {
    if i :| 0 <= i < |w| - 1 && w[i] in c {
      WalkSlice(g, w, 0, i + 1);
      p := EntryPath(g, c, w[0..i + 1]);
    } else if i, j :| 0 <= i < j < |w| && w[i] == w[j] {
      WalkSlice(g, w, 0, i + 1);
      var u := w[0..i + 1];
      if j + 1 < |w| {
        WalkSlice(g, w, j + 1, |w|);
        assert Edge(g, w[j], w[j + 1]);
        WalkConcat(g, u, w[j + 1..|w|]);
        u := u + w[j + 1..|w|];
      }
      p := EntryPath(g, c, u);
    } else {
      p := w;
    }
  }

  lemma CycleRotates<T>(g: Graph<T>, c: seq<T>, k: nat)
    requires SimpleCycle(g, c) && k < |c|
    ensures var r := c[k..] + c[..k]; Walk(g, r) && Distinct(r) && Edge(g, r[|r| - 1], r[0])
  {
    var r := c[k..] + c[..k];
    if k > 0 {
      WalkSlice(g, c, k, |c|);
      WalkSlice(g, c, 0, k);
      assert c[k..|c|] == c[k..] && c[0..k] == c[..k];
      WalkConcat(g, c[k..], c[..k]);
      assert Edge(g, c[k - 1], c[k]);
    } else {
      assert r == c;
    }
  }

  /** Enter the cycle, then walk all the way round it. */
  lemma EnterAndGoRound<T>(g: Graph<T>, c: seq<T>, p: seq<T>, k: nat) returns (path: seq<T>)
    requires SimpleCycle(g, c) && p != [] && PathFrom(g, p[0], p) && k < |c| && c[k] == p[|p| - 1]
    requires forall i :: 0 <= i < |p| - 1 ==> p[i] !in c
    ensures |p| <= |path| && PathFrom(g, p[0], path)
    ensures path[|p| - 1..] == c[k..] + c[..k] && Edge(g, path[|path| - 1], path[|p| - 1])
  {
    var n, r := |p| - 1, c[k..] + c[..k];
    CycleRotates(g, c, k);
    assert r[0] == p[n];
    assert forall x :: x in r ==> x in c;
    path := p[0..n] + r;
  }

  lemma ClosedFindsCycle<T(!new)>(g: Graph<T>, cycles: seq<seq<T>>, start: T, c: seq<T>, y: T)
    requires forall p :: PathFrom(g, start, p) ==> Closed(g, cycles, p)
    requires SimpleCycle(g, c) && y in c && Reaches(g, start, y)
    ensures Found(cycles, c)
  {
    var w :| Walk(g, w) && w[0] == start && w[|w| - 1] == y;
    var path, n, k := ClosingPath(g, c, w);
    assert Closed(g, cycles, path);
    RotatedFound(cycles, c, k);
  }

  /** From a walk into a cycle, a simple path that one more edge closes into that cycle. */
  lemma ClosingPath<T>(g: Graph<T>, c: seq<T>, w: seq<T>) returns (path: seq<T>, n: nat, k: nat)
    requires SimpleCycle(g, c) && Walk(g, w) && w[|w| - 1] in c
    ensures PathFrom(g, w[0], path) && n < |path| && k < |c|
    ensures Edge(g, path[|path| - 1], path[n]) && path[n..] == c[k..] + c[..k]
  {
    var p := EntryPath(g, c, w);
    n := |p| - 1;
    k :| 0 <= k < |c| && c[k] == p[n];
    path := EnterAndGoRound(g, c, p, k);
  }

  lemma RotatedFound<T>(cycles: seq<seq<T>>, c: seq<T>, k: nat)
    requires k < |c| && Found(cycles, c[k..] + c[..k])
    ensures Found(cycles, c)
  {
    var r := c[k..] + c[..k];
    assert IsRotation(c, r);
    RotationSymmetric(c, r);
    var i :| 0 <= i < |cycles| && IsRotation(cycles[i], r);
    RotationTransitive(cycles[i], r, c);
  }

  lemma ClosedCovers<T(!new)>(g: Graph<T>, cycles: seq<seq<T>>, start: T)
    requires forall p :: PathFrom(g, start, p) ==> Closed(g, cycles, p)
    ensures Covered(g, cycles, start)
  {
    forall c, y | SimpleCycle(g, c) && y in c && Reaches(g, start, y)
      ensures Found(cycles, c)
    {
      ClosedFindsCycle(g, cycles, start, c, y);
    }
  }

  // ---------- termination of the stack loop ----------

  ghost function AllNodes<T(!new)>(g: Graph<T>): set<T> {
    g.Keys + (set p, c | p in g && c in g[p] :: c)
  }

  lemma PathSize<T(!new)>(g: Graph<T>, p: seq<T>)
    requires Walk(g, p) && Distinct(p) && p[0] in g
    ensures Elements(p) <= AllNodes(g)
    ensures |p| <= |AllNodes(g)|
    ensures |p| == |AllNodes(g)| ==> Elements(p) == AllNodes(g)
  {
    forall i | 0 <= i < |p|
      ensures p[i] in AllNodes(g)
    {
      if i > 0 {
        assert Edge(g, p[i - 1], p[i]);
      }
    }
    DistinctBound(p, AllNodes(g));
  }

  ghost function Pow(b: nat, e: nat): (r: nat)
    ensures b > 0 ==> r > 0
  {
    if e == 0 then 1 else b * Pow(b, e - 1)
  }

  /** The stack's weight: a path still k short of all n elements weighs (b + 1)^k. */
  ghost function Weight<T>(b: nat, n: nat, paths: seq<seq<T>>): nat {
    if paths == [] then 0
    else
      var p := paths[|paths| - 1];
      Pow(b + 1, if |p| <= n then n - |p| else 0) + Weight(b, n, paths[..|paths| - 1])
  }

  ghost function Sum(k: nat, unit: nat): (r: nat) {
    if k == 0 then 0 else unit + Sum(k - 1, unit)
  }

  lemma {:induction false} SumBelow(k: nat, b: nat, unit: nat)
    requires k <= b && unit > 0
    ensures Sum(k, unit) < (b + 1) * unit
  {
    if k == 0 {
      assert (b + 1) * unit == b * unit + unit;
    } else {
      SumBelow(k - 1, b - 1, unit);
      assert (b + 1) * unit == b * unit + unit;
    }
  }

  lemma {:induction false} WeightOfNews<T>(b: nat, n: nat, paths: seq<seq<T>>, news: seq<seq<T>>, size: nat)
    requires size <= n && forall q :: q in news ==> |q| == size
    ensures Weight(b, n, paths + news) == Weight(b, n, paths) + Sum(|news|, Pow(b + 1, n - size))
    decreases |news|
  {
    if news == [] {
      assert paths + news == paths;
    } else {
      var front := news[..|news| - 1];
      assert (paths + news)[..|paths + news| - 1] == paths + front;
      assert news[|news| - 1] in news;
      WeightOfNews(b, n, paths, front, size);
    }
  }

  /** Replacing a path by at most b longer ones makes the stack lighter. */
  lemma WeightDrops<T>(b: nat, n: nat, paths: seq<seq<T>>, path: seq<T>, news: seq<seq<T>>)
    requires |path| <= n && |news| <= b && forall q :: q in news ==> |q| == |path| + 1 <= n
    ensures Weight(b, n, paths + news) < Weight(b, n, paths + [path])
  {
    assert (paths + [path])[..|paths|] == paths;
    assert Weight(b, n, paths + [path]) == Pow(b + 1, n - |path|) + Weight(b, n, paths);
    if news == [] {
      assert paths + news == paths;
    } else {
      assert news[0] in news;
      WeightOfNews(b, n, paths, news, |path| + 1);
      SumBelow(|news|, b, Pow(b + 1, n - |path| - 1));
    }
  }

  lemma {:induction false} BranchBound<T>(g: Graph<T>) returns (b: nat)
    ensures forall p :: p in g ==> |g[p]| <= b
    decreases |g|
  {
    if g == map[] {
      b := 0;
    } else {
      var q :| q in g;
      b := BranchBound(g - {q});
      b := b + |g[q]|;
      forall p | p in g
        ensures |g[p]| <= b
      {
        if p != q {
          assert p in g - {q};
        }
      }
    }
  }

  // ---------- the loops ----------

  /** The duplicate check: is some listed cycle a rotation of this one? */
  method IsDuplicate<T(==)>(cycles: seq<seq<T>>, cycle: seq<T>) returns (is_dup: bool)
    requires cycle != []
    ensures is_dup <==> Found(cycles, cycle)
  {
    is_dup := false;
    for i := 0 to |cycles|
      invariant forall j :: 0 <= j < i ==> !IsRotation(cycles[j], cycle)
    {
      var rotated := IsRotated(cycles[i], cycle);
      if rotated.value {
        return true;
      }
    }
  }

  function IndexOf<T(==)>(s: seq<T>, x: T): (i: nat)
    requires x in s
    ensures i < |s| && s[i] == x && x !in s[..i]
  {
    if s[0] == x then 0 else 1 + IndexOf(s[1..], x)
  }

  lemma ListedSnoc<T(!new)>(g: Graph<T>, cycles: seq<seq<T>>, cycle: seq<T>)
    requires Listed(g, cycles) && SimpleCycle(g, cycle) && !Found(cycles, cycle)
    ensures Listed(g, cycles + [cycle]) && Found(cycles + [cycle], cycle)
  {
    var more := cycles + [cycle];
    RotationReflexive(cycle);
    assert IsRotation(more[|cycles|], cycle);
    forall i, j | 0 <= i < j < |more|
      ensures !IsRotation(more[i], more[j])
    {
      if j == |cycles| {
        assert cycles[i] == more[i];
      }
    }
  }

  /** List the cycle that an edge back to `child` closes, unless it is known. */
  method Record<T(==, !new)>(ghost g: Graph<T>, path: seq<T>, child: T, known: seq<seq<T>>)
    returns (cycles: seq<seq<T>>)
    requires Walk(g, path) && Distinct(path) && child in path && Edge(g, path[|path| - 1], child)
    requires Listed(g, known)
    ensures known <= cycles && Listed(g, cycles)
    ensures forall i :: 0 <= i < |path| && path[i] == child ==> Found(cycles, path[i..])
  {
    var index := IndexOf(path, child);
    var cycle := path[index..];
    cycles := known;
    var is_dup := IsDuplicate(cycles, cycle);
    if !is_dup {
      ListedSnoc(g, cycles, cycle);
      cycles := cycles + [cycle];
    }
  }

  /** q continues the path with one more child. */
  ghost predicate Extends<T>(path: seq<T>, children: seq<T>, q: seq<T>) {
    |q| == |path| + 1 && path < q && q[|path|] in children && q[|path|] !in path
  }

  /** The inner loop: follow every edge from the end of one path. */
  method Expand<T(==, !new)>(ghost g: Graph<T>, path: seq<T>, children: seq<T>,
                             known: seq<seq<T>>, stack: seq<seq<T>>, seen: set<T>)
    returns (cycles: seq<seq<T>>, paths: seq<seq<T>>, visited_nodes: set<T>, ghost news: seq<seq<T>>)
    requires Walk(g, path) && Distinct(path)
    requires path[|path| - 1] in g && children == g[path[|path| - 1]]
    requires Listed(g, known)
    ensures known <= cycles && Listed(g, cycles)
    ensures Closed(g, cycles, path)
    ensures paths == stack + news && |news| <= |children|
    ensures forall q :: q in news ==> Extends(path, children, q)
    ensures forall c :: c in children && c !in path ==> path + [c] in news
    ensures visited_nodes == seen + set c | c in children && c !in path
  {
    cycles, paths, visited_nodes, news := known, stack, seen, [];
    for n := 0 to |children|
      invariant known <= cycles && Listed(g, cycles)
      invariant forall i :: 0 <= i < |path| && path[i] in children[..n] ==> Found(cycles, path[i..])
      invariant paths == stack + news && |news| <= n
      invariant forall q :: q in news ==> Extends(path, children, q)
      invariant forall c :: c in children[..n] && c !in path ==> path + [c] in news
      invariant visited_nodes == seen + set c | c in children[..n] && c !in path
    {
      var child := children[n];
      assert children[..n + 1] == children[..n] + [child];
      if child in path {
        ghost var before := cycles;
        assert Edge(g, path[|path| - 1], child);
        cycles := Record(g, path, child, cycles);
        forall i | 0 <= i < |path| && path[i] in children[..n]
          ensures Found(cycles, path[i..])
        {
          FoundGrows(before, cycles, path[i..]);
        }
      } else {
        paths := paths + [path + [child]];
        news := news + [path + [child]];
        visited_nodes := visited_nodes + {child};
      }
    }
    assert children[..|children|] == children;
  }

  /** Every simple path from the start is dealt with, or continues one on the stack. */
  ghost predicate StillToExplore<T(!new)>(g: Graph<T>, cycles: seq<seq<T>>, start: T, paths: seq<seq<T>>) {
    forall p :: PathFrom(g, start, p) ==> Closed(g, cycles, p) || HasPrefixIn(paths, p)
  }

  ghost predicate HasPrefixIn<T>(paths: seq<seq<T>>, p: seq<T>) {
    exists q :: q in paths && q <= p
  }

  ghost predicate StackFrom<T>(g: Graph<T>, start: T, paths: seq<seq<T>>) {
    start in g && forall q :: q in paths ==> q != [] && PathFrom(g, start, q)
  }

  lemma ExploreStep<T(!new)>(g: Graph<T>, start: T, cycles: seq<seq<T>>, stack: seq<seq<T>>, path: seq<T>,
                             more: seq<seq<T>>, news: seq<seq<T>>)
    requires StillToExplore(g, cycles, start, stack + [path]) && cycles <= more
    requires path != [] && Closed(g, more, path)
    requires forall c :: Edge(g, path[|path| - 1], c) && c !in path ==> path + [c] in news
    ensures StillToExplore(g, more, start, stack + news)
  {
    forall p | PathFrom(g, start, p)
      ensures Closed(g, more, p) || HasPrefixIn(stack + news, p)
    {
      if Closed(g, cycles, p) {
      } else {
        var q :| q in stack + [path] && q <= p;
        if q in stack {
          assert q in stack + news;
        } else if p != path {
          var n := |path|;
          assert p[n - 1] == path[n - 1];
          assert Edge(g, p[n - 1], p[n]);
          assert path + [p[n]] <= p;
          assert path + [p[n]] in stack + news;
        }
      }
    }
  }

  lemma NewsArePaths<T(!new)>(g: Graph<T>, start: T, path: seq<T>, q: seq<T>)
    requires path != [] && PathFrom(g, start, path)
    requires |q| == |path| + 1 && path < q && Edge(g, path[|path| - 1], q[|path|]) && q[|path|] !in path
    ensures PathFrom(g, start, q)
    ensures start in g ==> |q| <= |AllNodes(g)|
  {
    assert q == path + [q[|path|]];
    WalkConcat(g, path, [q[|path|]]);
    if start in g {
      PathSize(g, q);
    }
  }

  /** Explore all simple paths from one start. */
  method ExploreFrom<T(==, !new)>(g: Graph<T>, start: T, known: seq<seq<T>>, seen: set<T>)
    returns (cycles: seq<seq<T>>, visited_nodes: set<T>)
    requires start in g && Listed(g, known)
    ensures known <= cycles && Listed(g, cycles)
    ensures Covered(g, cycles, start)
    ensures forall x :: x in visited_nodes ==> x in seen || Reaches(g, start, x)
  {
    cycles, visited_nodes := known, seen;
    ghost var b := BranchBound(g);
    ghost var n := |AllNodes(g)|;
    var paths := [[start]];
    forall p | PathFrom(g, start, p)
      ensures HasPrefixIn(paths, p)
    {
      assert [start] in paths && [start] <= p;
    }
    while paths != []
      invariant known <= cycles && Listed(g, cycles)
      invariant StackFrom(g, start, paths)
      invariant StillToExplore(g, cycles, start, paths)
      invariant forall x :: x in visited_nodes ==> x in seen || Reaches(g, start, x)
      decreases Weight(b, n, paths)
    {
      cycles, paths, visited_nodes := ExploreOne(g, start, b, cycles, paths, visited_nodes);
    }
    assert forall p :: PathFrom(g, start, p) ==> !HasPrefixIn(paths, p);
    ClosedCovers(g, cycles, start);
  }

  /** Pop one path and expand it. */
  method ExploreOne<T(==, !new)>(g: Graph<T>, start: T, ghost b: nat, known: seq<seq<T>>, stack: seq<seq<T>>,
                                 seen: set<T>)
    returns (cycles: seq<seq<T>>, paths: seq<seq<T>>, visited_nodes: set<T>)
    requires Listed(g, known) && stack != [] && StackFrom(g, start, stack) && StillToExplore(g, known, start, stack)
    requires forall p :: p in g ==> |g[p]| <= b
    ensures known <= cycles && Listed(g, cycles)
    ensures StackFrom(g, start, paths) && StillToExplore(g, cycles, start, paths)
    ensures forall x :: x in visited_nodes ==> x in seen || Reaches(g, start, x)
    ensures Weight(b, |AllNodes(g)|, paths) < Weight(b, |AllNodes(g)|, stack)
  {
    var path := stack[|stack| - 1];
    paths := stack[..|stack| - 1];
    ghost var rest := paths;
    ghost var news: seq<seq<T>> := [];
    assert stack == rest + [path];
    assert path in stack;
    PathSize(g, path);
    var parent := path[|path| - 1];
    cycles, visited_nodes := known, seen;
    if parent in g {
      cycles, paths, visited_nodes, news := Expand(g, path, g[parent], cycles, paths, visited_nodes);
      forall q | q in news
        ensures PathFrom(g, start, q) && |q| <= |AllNodes(g)|
      {
        NewsArePaths(g, start, path, q);
      }
      forall x | x in visited_nodes && x !in seen
        ensures Reaches(g, start, x)
      {
        assert Reaches(g, start, parent);
        ReachesEdge(g, parent, x);
        ReachesTrans(g, start, parent, x);
      }
    }
    assert paths == rest + news;
    forall q | q in paths
      ensures q != [] && PathFrom(g, start, q)
    {
      if q !in news {
        assert q in stack;
      }
    }
    ExploreStep(g, start, known, rest, path, cycles, news);
    WeightDrops(b, |AllNodes(g)|, rest, path, news);
  }

  /** Start nodes that were visited before are skipped; what they reach is covered already. */
  method FindCycles<T(==, !new)>(parent_children: Graph<T>) returns (cycles: seq<seq<T>>)
    ensures AllCyclesOnce(parent_children, cycles)
  {
    ghost var g := parent_children;
    cycles := [];
    var visited_nodes: set<T> := {};
    var todo := parent_children.Keys;
    while todo != {}
      invariant todo <= g.Keys
      invariant Listed(g, cycles)
      invariant forall x :: x in visited_nodes ==> Covered(g, cycles, x)
      invariant forall x :: x in g && x !in todo ==> Covered(g, cycles, x)
    {
      var parent :| parent in todo;
      todo := todo - {parent};
      if parent !in visited_nodes {
        ghost var known, seen := cycles, visited_nodes;
        cycles, visited_nodes := ExploreFrom(parent_children, parent, cycles, visited_nodes);
        CoveredAfter(g, known, cycles, seen, visited_nodes, parent);
        forall x | x in g && x !in todo
          ensures Covered(g, cycles, x)
        {
          if x != parent {
            CoveredGrows(g, known, cycles, x);
          }
        }
      }
    }
    AllCovered(g, cycles);
  }

  lemma CoveredAfter<T(!new)>(g: Graph<T>, known: seq<seq<T>>, cycles: seq<seq<T>>, seen: set<T>, visited: set<T>,
                              start: T)
    requires known <= cycles && Covered(g, cycles, start)
    requires forall x :: x in seen ==> Covered(g, known, x)
    requires forall x :: x in visited ==> x in seen || Reaches(g, start, x)
    ensures forall x :: x in visited ==> Covered(g, cycles, x)
  {
    forall x | x in visited
      ensures Covered(g, cycles, x)
    {
      if x in seen {
        CoveredGrows(g, known, cycles, x);
      } else {
        CoveredBelow(g, cycles, start, x);
      }
    }
  }

  lemma AllCovered<T(!new)>(g: Graph<T>, cycles: seq<seq<T>>)
    requires Listed(g, cycles) && forall x :: x in g ==> Covered(g, cycles, x)
    ensures AllCyclesOnce(g, cycles)
  {
    forall c | SimpleCycle(g, c)
      ensures Found(cycles, c)
    {
      var i := if |c| > 1 then 1 else 0;
      assert Edge(g, c[0], c[i]);
      ReachesSelf(g, c[0]);
      assert Covered(g, cycles, c[0]);
    }
    forall i, j | 0 <= i < |cycles| && 0 <= j < |cycles| && IsRotation(cycles[i], cycles[j])
      ensures i == j
    {
      RotationSymmetric(cycles[i], cycles[j]);
    }
  }

  /** What `FindCycles` promises about its result. */
  ghost predicate AllCyclesOnce<T(!new)>(g: Graph<T>, cycles: seq<seq<T>>) {
    && (forall c :: c in cycles ==> SimpleCycle(g, c))
    && (forall i, j :: 0 <= i < |cycles| && 0 <= j < |cycles| && IsRotation(cycles[i], cycles[j]) ==> i == j)
    && (forall c {:trigger Found(cycles, c)} :: SimpleCycle(g, c) ==> Found(cycles, c))
  }

  /** Every simple cycle matches exactly one of the listed ones. */
  lemma ExactlyOnce<T(!new)>(g: Graph<T>, cycles: seq<seq<T>>, c: seq<T>) returns (i: nat)
    requires AllCyclesOnce(g, cycles) && SimpleCycle(g, c)
    ensures i < |cycles|
    ensures forall j :: 0 <= j < |cycles| ==> (IsRotation(cycles[j], c) <==> i == j)
  {
    assert Found(cycles, c);
    i :| 0 <= i < |cycles| && IsRotation(cycles[i], c);
    forall j | 0 <= j < |cycles| && IsRotation(cycles[j], c)
      ensures i == j
    {
      RotationSymmetric(cycles[j], c);
      RotationTransitive(cycles[i], c, cycles[j]);
    }
  }

  ghost predicate SameCycles<T(!new)>(g: Graph<T>, h: Graph<T>) {
    forall c :: SimpleCycle(g, c) <==> SimpleCycle(h, c)
  }

  ghost predicate AllFound<T>(cycles: seq<seq<T>>, others: seq<seq<T>>) {
    forall c :: c in others ==> Found(cycles, c)
  }

  /** What is listed, and how often, depends only on which cycles there are. */
  lemma SameCyclesSameLists<T(!new)>(g: Graph<T>, h: Graph<T>, s: seq<seq<T>>, t: seq<seq<T>>)
    requires AllCyclesOnce(g, s) && AllCyclesOnce(h, t)
    requires SameCycles(g, h)
    ensures |s| == |t| && (Cyclic(g) ==> s != [])
    ensures AllFound(s, t) && AllFound(t, s)
  {
    NotLonger(g, h, s, t);
    NotLonger(h, g, t, s);
    if c :| SimpleCycle(g, c) {
      assert Found(s, c);
    }
  }

  lemma NotLonger<T(!new)>(g: Graph<T>, h: Graph<T>, s: seq<seq<T>>, t: seq<seq<T>>)
    requires AllCyclesOnce(g, s) && AllCyclesOnce(h, t)
    requires SameCycles(g, h)
    ensures |s| <= |t|
  {
    var matches := Matches(g, h, s, t, |s|);
    forall i, j | 0 <= i < j < |s|
      ensures matches[i] != matches[j]
    {
      if matches[i] == matches[j] {
        RotationSymmetric(t[matches[i]], s[i]);
        RotationTransitive(s[i], t[matches[i]], s[j]);
      }
    }
    DistinctBound(matches, Range(|t|));
  }

  lemma {:induction false} Matches<T(!new)>(g: Graph<T>, h: Graph<T>, s: seq<seq<T>>, t: seq<seq<T>>, n: nat)
    returns (matches: seq<int>)
    requires AllCyclesOnce(g, s) && AllCyclesOnce(h, t) && n <= |s|
    requires SameCycles(g, h)
    ensures |matches| == n
    ensures forall i :: 0 <= i < n ==> 0 <= matches[i] < |t| && IsRotation(t[matches[i]], s[i])
  {
    if n == 0 {
      matches := [];
    } else {
      matches := Matches(g, h, s, t, n - 1);
      assert s[n - 1] in s;
      var i := ExactlyOnce(h, t, s[n - 1]);
      matches := matches + [i];
    }
  }

  ghost function Range(n: nat): (r: set<int>)
    ensures |r| == n && forall i :: i in r <==> 0 <= i < n
  {
    if n == 0 then {} else Range(n - 1) + {n - 1}
  }
}
