/** Directed graphs in the form the dependency tools use them. */
module Graphs {
  import opened Sequences

  /**
   A dictionary from an element to the list of its children.  Elements without
   children need not be keys, lists may repeat a child, and an element may be its
   own child.
   */
  type Graph<T> = map<T, seq<T>>

  /** A graph together with the set of all its elements. */
  datatype Digraph<T> = Digraph(nodes: set<T>, children: Graph<T>)

  predicate Edge<T(==)>(g: Graph<T>, p: T, c: T) {
    p in g && c in g[p]
  }

  ghost predicate WellFormed<T(!new)>(d: Digraph<T>) {
    forall p, c :: Edge(d.children, p, c) ==> p in d.nodes && c in d.nodes
  }

  ghost function Elements<T>(s: seq<T>): set<T> {
    set x | x in s
  }

  /** A walk follows one edge per step; a single element is a walk of length 0. */
  ghost predicate Walk<T>(g: Graph<T>, w: seq<T>) {
    |w| > 0 && forall i, j :: 0 <= i < j < |w| && j == i + 1 ==> Edge(g, w[i], w[j])
  }

  /** A simple cycle; the last element is a parent of the first. */
  ghost predicate SimpleCycle<T>(g: Graph<T>, c: seq<T>) {
    Walk(g, c) && Distinct(c) && Edge(g, c[|c| - 1], c[0])
  }

  ghost predicate Reaches<T(!new)>(g: Graph<T>, x: T, y: T) {
    exists w :: Walk(g, w) && w[0] == x && w[|w| - 1] == y
  }

  /** x lies on a cycle or is reachable from one. */
  ghost predicate BelowCycle<T(!new)>(g: Graph<T>, x: T) {
    exists c, y :: SimpleCycle(g, c) && y in c && Reaches(g, y, x)
  }

  ghost predicate Cyclic<T(!new)>(g: Graph<T>) {
    exists c :: SimpleCycle(g, c)
  }

  ghost predicate WalkTo<T>(d: Digraph<T>, w: seq<T>, x: T, k: nat) {
    Walk(d.children, w) && |w| == k + 1 && w[k] == x && x in d.nodes
  }

  /** Some walk of exactly k edges ends in x. */
  ghost predicate HasWalk<T(!new)>(d: Digraph<T>, x: T, k: nat) {
    exists w :: WalkTo(d, w, x, k)
  }

  /** The longest walk ending in x has k edges. */
  ghost predicate DepthIs<T(!new)>(d: Digraph<T>, x: T, k: nat) {
    HasWalk(d, x, k) && !HasWalk(d, x, k + 1)
  }

  // ---------- walks ----------

  lemma WalkConcat<T>(g: Graph<T>, v: seq<T>, w: seq<T>)
    requires Walk(g, v) && Walk(g, w) && Edge(g, v[|v| - 1], w[0])
    ensures Walk(g, v + w)
  {
    var s := v + w;
    forall i, j | 0 <= i < j < |s| && j == i + 1
      ensures Edge(g, s[i], s[j])
    {
      if j < |v| {
        assert s[i] == v[i] && s[j] == v[j];
      } else if i >= |v| {
        assert s[i] == w[i - |v|] && s[j] == w[j - |v|];
      }
    }
  }

  lemma WalkSlice<T>(g: Graph<T>, w: seq<T>, lo: nat, hi: nat)
    requires Walk(g, w) && lo < hi <= |w|
    ensures Walk(g, w[lo..hi])
  {
    var s := w[lo..hi];
    forall i, j | 0 <= i < j < |s| && j == i + 1
      ensures Edge(g, s[i], s[j])
    {
      assert s[i] == w[lo + i] && s[j] == w[lo + j];
    }
  }

  lemma ReachesTrans<T(!new)>(g: Graph<T>, x: T, y: T, z: T)
    requires Reaches(g, x, y) && Reaches(g, y, z)
    ensures Reaches(g, x, z)
  {
    var v :| Walk(g, v) && v[0] == x && v[|v| - 1] == y;
    var w :| Walk(g, w) && w[0] == y && w[|w| - 1] == z;
    if |w| > 1 {
      WalkSlice(g, w, 1, |w|);
      assert Edge(g, w[0], w[1]);
      WalkConcat(g, v, w[1..]);
      var u := v + w[1..];
      assert Walk(g, u) && u[0] == x && u[|u| - 1] == z;
    }
  }

  lemma ReachesEdge<T(!new)>(g: Graph<T>, x: T, y: T)
    requires Edge(g, x, y)
    ensures Reaches(g, x, y)
  {
    assert Walk(g, [x, y]) && [x, y][0] == x && [x, y][|[x, y]| - 1] == y;
  }

  lemma ReachesSelf<T(!new)>(g: Graph<T>, x: T)
    ensures Reaches(g, x, x)
  {
    assert Walk(g, [x]) && [x][0] == x && [x][|[x]| - 1] == x;
  }

  // ---------- walks of a given length ----------

  lemma HasWalkZero<T(!new)>(d: Digraph<T>, x: T)
    ensures HasWalk(d, x, 0) <==> x in d.nodes
  {
    if x in d.nodes {
      assert WalkTo(d, [x], x, 0);
    }
  }

  lemma HasWalkExtend<T(!new)>(d: Digraph<T>, p: T, x: T, k: nat)
    requires WellFormed(d) && HasWalk(d, p, k) && Edge(d.children, p, x)
    ensures HasWalk(d, x, k + 1)
  {
    var w :| WalkTo(d, w, p, k);
    WalkConcat(d.children, w, [x]);
    assert WalkTo(d, w + [x], x, k + 1);
  }

  lemma HasWalkParent<T(!new)>(d: Digraph<T>, x: T, k: nat) returns (p: T)
    requires WellFormed(d) && HasWalk(d, x, k + 1)
    ensures Edge(d.children, p, x) && HasWalk(d, p, k)
  {
    var w :| WalkTo(d, w, x, k + 1);
    p := w[k];
    assert Edge(d.children, w[k], w[k + 1]);
    WalkSlice(d.children, w, 0, k + 1);
    assert WalkTo(d, w[0..k + 1], p, k);
  }

  lemma {:induction false} HasWalkShorter<T(!new)>(d: Digraph<T>, x: T, j: nat, k: nat)
    requires WellFormed(d) && HasWalk(d, x, k) && j <= k
    ensures HasWalk(d, x, j)
  {
    var w :| WalkTo(d, w, x, k);
    WalkSlice(d.children, w, k - j, k + 1);
    assert WalkTo(d, w[k - j..k + 1], x, j);
  }

  /** An element has at most one depth. */
  lemma DepthUnique<T(!new)>(d: Digraph<T>, x: T, j: nat, k: nat)
    requires WellFormed(d) && DepthIs(d, x, j) && DepthIs(d, x, k)
    ensures j == k
  {
    if j < k {
      HasWalkShorter(d, x, j + 1, k);
    } else if k < j {
      HasWalkShorter(d, x, k + 1, j);
    }
  }

  /** A child lies strictly deeper than its parent. */
  lemma ChildDeeper<T(!new)>(d: Digraph<T>, p: T, c: T, j: nat, k: nat)
    requires WellFormed(d) && Edge(d.children, p, c) && DepthIs(d, p, j) && DepthIs(d, c, k)
    ensures j < k
  {
    HasWalkExtend(d, p, c, j);
    if k <= j {
      HasWalkShorter(d, c, k + 1, j + 1);
    }
  }

  /** A bound on walk lengths gives a depth. */
  lemma DepthExists<T(!new)>(d: Digraph<T>, x: T, n: nat) returns (k: nat)
    requires WellFormed(d) && x in d.nodes && !HasWalk(d, x, n)
    ensures k < n && DepthIs(d, x, k)
  {
    HasWalkZero(d, x);
    k := DepthFrom(d, x, 0, n);
  }

  lemma {:induction false} DepthFrom<T(!new)>(d: Digraph<T>, x: T, j: nat, n: nat) returns (k: nat)
    requires WellFormed(d) && j <= n && HasWalk(d, x, j) && !HasWalk(d, x, n)
    ensures k < n && DepthIs(d, x, k)
    decreases n - j
  {
    if HasWalk(d, x, j + 1) {
      k := DepthFrom(d, x, j + 1, n);
    } else {
      k := j;
    }
  }

  // ---------- cycles and unbounded walks ----------

  lemma DistinctBound<T>(s: seq<T>, bound: set<T>)
    requires Distinct(s) && Elements(s) <= bound
    ensures |s| <= |bound|
    ensures |s| == |bound| ==> Elements(s) == bound
    decreases |s|
  {
    if |s| == 0 {
    } else {
      var last := s[|s| - 1];
      var front := s[..|s| - 1];
      forall x | x in front
        ensures x in bound - {last}
      {
        var i :| 0 <= i < |front| && front[i] == x;
        assert s[i] == x;
      }
      DistinctBound(front, bound - {last});
      assert last in s;
      assert s == front + [last];
      assert Elements(s) == Elements(front) + {last};
      assert (bound - {last}) + {last} == bound;
    }
  }

  lemma {:induction false} DistinctSize<T>(s: seq<T>)
    requires Distinct(s)
    ensures |Elements(s)| == |s|
  {
    if s == [] {
    } else {
      var last := s[|s| - 1];
      var front := s[..|s| - 1];
      DistinctSize(front);
      assert s == front + [last];
      assert last !in front;
      assert Elements(s) == Elements(front) + {last};
    }
  }

  /** A repetition in a walk contains a simple cycle. */
  lemma {:induction false} InnermostRepeat<T>(w: seq<T>, i: nat, j: nat) returns (lo: nat, hi: nat)
    requires i < j < |w| && w[i] == w[j]
    ensures i <= lo < hi <= j && w[lo] == w[hi] && Distinct(w[lo..hi])
    decreases j - i
  {
    var s := w[i..j];
    if Distinct(s) {
      lo, hi := i, j;
    } else {
      var a, b :| 0 <= a < b < |s| && s[a] == s[b];
      lo, hi := InnermostRepeat(w, i + a, i + b);
    }
  }

  lemma RepeatGivesCycle<T>(g: Graph<T>, w: seq<T>, lo: nat, hi: nat)
    requires Walk(g, w) && lo < hi < |w| && w[lo] == w[hi] && Distinct(w[lo..hi])
    ensures SimpleCycle(g, w[lo..hi])
  {
    WalkSlice(g, w, lo, hi);
    assert Edge(g, w[hi - 1], w[hi]);
  }

  lemma LongWalkBelowCycle<T(!new)>(d: Digraph<T>, x: T, k: nat)
    requires WellFormed(d) && k >= |d.nodes| && HasWalk(d, x, k)
    ensures BelowCycle(d.children, x)
  {
    var g := d.children;
    var w :| WalkTo(d, w, x, k);
    if Distinct(w) {
      forall y | y in w
        ensures y in d.nodes
      {
        var i :| 0 <= i < |w| && w[i] == y;
        if i < k {
          assert Edge(g, w[i], w[i + 1]);
        }
      }
      DistinctBound(w, d.nodes);
      assert false;
    } else {
      var i, j :| 0 <= i < j < |w| && w[i] == w[j];
      var lo, hi := InnermostRepeat(w, i, j);
      RepeatGivesCycle(g, w, lo, hi);
      WalkSlice(g, w, lo, |w|);
      var tail := w[lo..|w|];
      assert tail[0] == w[lo] && tail[|tail| - 1] == x;
      assert w[lo..hi][0] == w[lo];
      assert Reaches(g, w[lo], x);
    }
  }

  lemma {:induction false} CycleHasWalk<T(!new)>(d: Digraph<T>, c: seq<T>, i: nat, k: nat)
    requires WellFormed(d) && SimpleCycle(d.children, c) && i < |c|
    ensures HasWalk(d, c[i], k)
    decreases k
  {
    var p := if i == 0 then |c| - 1 else i - 1;
    assert Edge(d.children, c[p], c[i]);
    if k == 0 {
      HasWalkZero(d, c[i]);
    } else {
      CycleHasWalk(d, c, p, k - 1);
      HasWalkExtend(d, c[p], c[i], k - 1);
    }
  }

  lemma {:induction false} WalkCarriesLength<T(!new)>(d: Digraph<T>, w: seq<T>, k: nat)
    requires WellFormed(d) && Walk(d.children, w) && (forall n: nat :: HasWalk(d, w[0], n))
    ensures HasWalk(d, w[|w| - 1], k)
    decreases |w|
  {
    if |w| == 1 {
    } else {
      var n := |w| - 1;
      assert Edge(d.children, w[n - 1], w[n]);
      WalkSlice(d.children, w, 0, n);
      if k == 0 {
        HasWalkZero(d, w[n]);
      } else {
        WalkCarriesLength(d, w[0..n], k - 1);
        HasWalkExtend(d, w[n - 1], w[n], k - 1);
      }
    }
  }

  lemma BelowCycleHasWalk<T(!new)>(d: Digraph<T>, x: T, k: nat)
    requires WellFormed(d) && BelowCycle(d.children, x)
    ensures HasWalk(d, x, k)
  {
    var c, y :| SimpleCycle(d.children, c) && y in c && Reaches(d.children, y, x);
    var i :| 0 <= i < |c| && c[i] == y;
    forall n: nat
      ensures HasWalk(d, y, n)
    {
      CycleHasWalk(d, c, i, n);
    }
    var w :| Walk(d.children, w) && w[0] == y && w[|w| - 1] == x;
    WalkCarriesLength(d, w, k);
  }

  /** Being on or below a cycle is having walks of every length; otherwise there is a depth. */
  lemma BelowCycleOrDepth<T(!new)>(d: Digraph<T>, x: T)
    requires WellFormed(d) && x in d.nodes
    ensures BelowCycle(d.children, x) <==> forall k: nat :: HasWalk(d, x, k)
    ensures BelowCycle(d.children, x) <==> !exists k: nat :: DepthIs(d, x, k)
    ensures !BelowCycle(d.children, x) ==> exists k: nat :: k < |d.nodes| && DepthIs(d, x, k)
  {
    if BelowCycle(d.children, x) {
      forall k: nat
        ensures HasWalk(d, x, k)
      {
        BelowCycleHasWalk(d, x, k);
      }
    } else {
      if HasWalk(d, x, |d.nodes|) {
        LongWalkBelowCycle(d, x, |d.nodes|);
      }
      var k := DepthExists(d, x, |d.nodes|);
    }
  }

  ghost predicate HasParentIn<T>(g: Graph<T>, s: set<T>, x: T) {
    exists p :: p in s && Edge(g, p, x)
  }

  ghost predicate ParentClosed<T>(g: Graph<T>, s: set<T>) {
    forall x {:trigger HasParentIn(g, s, x)} :: x in s ==> HasParentIn(g, s, x)
  }

  /** A set in which everything has a parent inside lies below a cycle. */
  lemma {:induction false} ParentClosedHasWalk<T(!new)>(d: Digraph<T>, s: set<T>, x: T, k: nat)
    requires WellFormed(d) && s <= d.nodes && x in s
    requires ParentClosed(d.children, s)
    ensures HasWalk(d, x, k)
    decreases k
  {
    if k == 0 {
      HasWalkZero(d, x);
    } else {
      assert HasParentIn(d.children, s, x);
      var p :| p in s && Edge(d.children, p, x);
      ParentClosedHasWalk(d, s, p, k - 1);
      HasWalkExtend(d, p, x, k - 1);
    }
  }

  lemma ParentClosedBelowCycle<T(!new)>(d: Digraph<T>, s: set<T>)
    requires WellFormed(d) && s <= d.nodes
    requires ParentClosed(d.children, s)
    ensures forall x :: x in s ==> BelowCycle(d.children, x)
  {
    forall x | x in s
      ensures BelowCycle(d.children, x)
    {
      ParentClosedHasWalk(d, s, x, |d.nodes|);
      LongWalkBelowCycle(d, x, |d.nodes|);
    }
  }

  lemma CyclicIffBelow<T(!new)>(d: Digraph<T>)
    requires WellFormed(d)
    ensures Cyclic(d.children) <==> exists x :: x in d.nodes && BelowCycle(d.children, x)
  {
    if Cyclic(d.children) {
      var c :| SimpleCycle(d.children, c);
      assert Edge(d.children, c[|c| - 1], c[0]);
      ReachesSelf(d.children, c[0]);
      assert c[0] in d.nodes && BelowCycle(d.children, c[0]);
    }
  }
}
