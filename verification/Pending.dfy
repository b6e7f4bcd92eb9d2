/** The two dictionaries shared by the sorts of bindings/python/topsort.py. */
module Pending {
  import opened Graphs

  /** Every child still listed, once per listing. */
  ghost function PendingChildren<T>(children: Graph<T>): multiset<T> {
    if children == map[] then multiset{}
    else
      var p :| p in children;
      multiset(children[p]) + PendingChildren(children - {p})
  }

  lemma {:induction false} PendingRemove<T>(children: Graph<T>, q: T)
    requires q in children
    ensures PendingChildren(children) == multiset(children[q]) + PendingChildren(children - {q})
    decreases |children|
  {
    var p :| p in children &&
      PendingChildren(children) == multiset(children[p]) + PendingChildren(children - {p});
    if p != q {
      PendingRemove(children - {p}, q);
      PendingRemove(children - {q}, p);
      assert children - {p} - {q} == children - {q} - {p};
    }
  }

  /** An element is pending exactly when some listed parent has it as a child. */
  lemma {:induction false} PendingIffEdge<T>(children: Graph<T>, x: T)
    ensures x in PendingChildren(children) <==> exists p :: p in children && x in children[p]
    decreases |children|
  {
    if children != map[] {
      var p :| p in children &&
        PendingChildren(children) == multiset(children[p]) + PendingChildren(children - {p});
      PendingIffEdge(children - {p}, x);
      if x in PendingChildren(children) {
        if x !in children[p] {
          var q :| q in children - {p} && x in (children - {p})[q];
          assert q in children && x in children[q];
        }
      } else {
        forall q | q in children
          ensures x !in children[q]
        {
          if q != p {
            assert q in children - {p} && x !in (children - {p})[q];
          }
        }
      }
    }
  }

  /**
   `num_parents` counts, for every element not yet output, its parents that are
   still in `children`, with multiplicity; and every element mentioned is counted.
   */
  ghost predicate Consistent<T(!new)>(num_parents: map<T, int>, children: Graph<T>) {
    && children.Keys <= num_parents.Keys
    && (forall p, c :: Edge(children, p, c) ==> c in num_parents)
    && (forall x :: x in num_parents ==> num_parents[x] == PendingChildren(children)[x])
  }

  /** The dictionary after `children.setdefault(p, []).append(c)`. */
  function Grown<T(==)>(children: Graph<T>, p: T, c: T): (grown: Graph<T>) {
    children[p := (if p in children then children[p] else []) + [c]]
  }

  lemma RearrangeSum<T>(a: multiset<T>, b: multiset<T>, c: multiset<T>)
    ensures a + c + b == a + b + c
  {
  }

  lemma PendingSplit<T>(children: Graph<T>, p: T)
    ensures PendingChildren(children) ==
      multiset(if p in children then children[p] else []) + PendingChildren(children - {p})
  {
    if p in children {
      PendingRemove(children, p);
    } else {
      assert children - {p} == children;
    }
  }

  lemma PushChild<T>(children: Graph<T>, p: T, c: T)
    ensures PendingChildren(Grown(children, p, c)) == PendingChildren(children) + multiset{c}
  {
    var before := if p in children then children[p] else [];
    var grown := Grown(children, p, c);
    PendingSplit(children, p);
    PendingSplit(grown, p);
    assert grown - {p} == children - {p};
    assert multiset(grown[p]) == multiset(before) + multiset{c};
    RearrangeSum(multiset(before), PendingChildren(children - {p}), multiset{c});
  }

  // ---------- the graph a list of pairs describes ----------

  function PairGraph<T(==)>(pairlist: seq<(T, T)>): (g: Graph<T>)
  {
    if pairlist == [] then map[]
    else
      var g := PairGraph(pairlist[..|pairlist| - 1]);
      var (parent, child) := pairlist[|pairlist| - 1];
      Grown(g, parent, child)
  }

  ghost function PairNodes<T>(pairlist: seq<(T, T)>): set<T> {
    (set pair | pair in pairlist :: pair.0) + (set pair | pair in pairlist :: pair.1)
  }

  ghost function PairDigraph<T>(pairlist: seq<(T, T)>): Digraph<T> {
    Digraph(PairNodes(pairlist), PairGraph(pairlist))
  }

  /** The edges of the graph are exactly the pairs. */
  lemma {:induction false} PairEdges<T(!new)>(pairlist: seq<(T, T)>, p: T, c: T)
    ensures Edge(PairGraph(pairlist), p, c) <==> (p, c) in pairlist
  {
    if pairlist != [] {
      var front := pairlist[..|pairlist| - 1];
      assert pairlist == front + [pairlist[|pairlist| - 1]];
      PairEdges(front, p, c);
      var (parent, child) := pairlist[|pairlist| - 1];
      if p == parent {
        assert PairGraph(pairlist)[p] == (if p in PairGraph(front) then PairGraph(front)[p] else []) + [child];
      }
    }
  }

  lemma PairDigraphWellFormed<T(!new)>(pairlist: seq<(T, T)>)
    ensures WellFormed(PairDigraph(pairlist))
  {
    forall p, c | Edge(PairGraph(pairlist), p, c)
      ensures p in PairNodes(pairlist) && c in PairNodes(pairlist)
    {
      PairEdges(pairlist, p, c);
      var pair := (p, c);
      assert pair in pairlist && pair.0 == p && pair.1 == c;
    }
  }

  function ChildrenOf<T>(pairlist: seq<(T, T)>): (s: seq<T>)
    ensures |s| == |pairlist| && forall i :: 0 <= i < |s| ==> s[i] == pairlist[i].1
  {
    if pairlist == [] then [] else ChildrenOf(pairlist[..|pairlist| - 1]) + [pairlist[|pairlist| - 1].1]
  }

  /** Duplicate pairs count: a child is pending once for every pair that names it. */
  lemma {:induction false} PairGraphCounts<T(!new)>(pairlist: seq<(T, T)>)
    ensures PendingChildren(PairGraph(pairlist)) == multiset(ChildrenOf(pairlist))
  {
    if pairlist != [] {
      var front := pairlist[..|pairlist| - 1];
      var (parent, child) := pairlist[|pairlist| - 1];
      PairGraphCounts(front);
      PushChild(PairGraph(front), parent, child);
      assert PairGraph(pairlist) == Grown(PairGraph(front), parent, child);
      assert ChildrenOf(pairlist) == ChildrenOf(front) + [child];
    }
  }

  lemma PairNodesSnoc<T>(pairlist: seq<(T, T)>, n: nat)
    requires n < |pairlist|
    ensures PairNodes(pairlist[..n + 1]) == PairNodes(pairlist[..n]) + {pairlist[n].0, pairlist[n].1}
  {
    assert pairlist[..n + 1] == pairlist[..n] + [pairlist[n]];
    assert pairlist[n] in pairlist[..n + 1];
    assert forall x :: x in PairNodes(pairlist[..n + 1]) <==>
      x in PairNodes(pairlist[..n]) + {pairlist[n].0, pairlist[n].1};
  }

  /** Counting one more pair keeps the dictionaries consistent. */
  lemma CountStep<T(!new)>(counts: map<T, int>, lists: Graph<T>, parent: T, child: T,
                           counts': map<T, int>, lists': Graph<T>)
    requires Consistent(counts, lists)
    requires lists' == Grown(lists, parent, child)
    requires counts'.Keys == counts.Keys + {parent, child}
    requires forall x :: x in counts' ==>
      counts'[x] == (if x in counts then counts[x] else 0) + (if x == child then 1 else 0)
    ensures Consistent(counts', lists')
  {
    PushChild(lists, parent, child);
    forall x | x in counts'
      ensures counts'[x] == PendingChildren(lists')[x]
    {
      if x !in counts {
        PendingIffEdge(lists, x);
        assert forall p :: p in lists && x in lists[p] ==> Edge(lists, p, x);
      }
    }
    forall p, c | Edge(lists', p, c)
      ensures c in counts'
    {
      assert Edge(lists, p, c) || c == child;
    }
  }

  /** One round of the counting loop: the pair's child gains a parent, its parent gains a child. */
  method CountPair<T(==, !new)>(counts: map<T, int>, lists: Graph<T>, parent: T, child: T)
    returns (num_parents: map<T, int>, children: Graph<T>)
    requires Consistent(counts, lists)
    ensures num_parents.Keys == counts.Keys + {parent, child}
    ensures children == Grown(lists, parent, child)
    ensures Consistent(num_parents, children)
  {
    num_parents, children := counts, lists;
    if parent !in num_parents {
      num_parents := num_parents[parent := 0];
    }
    if child !in num_parents {
      num_parents := num_parents[child := 0];
    }
    num_parents := num_parents[child := num_parents[child] + 1];
    if parent !in children {
      children := children[parent := []];
    }
    children := children[parent := children[parent] + [child]];
    CountStep(counts, lists, parent, child, num_parents, children);
  }

  /** The counting loop that opens `topsort` and `topsort_levels`. */
  method CountParents<T(==, !new)>(pairlist: seq<(T, T)>)
    returns (num_parents: map<T, int>, children: Graph<T>)
    ensures num_parents.Keys == PairNodes(pairlist)
    ensures children == PairGraph(pairlist)
    ensures Consistent(num_parents, children)
  {
    num_parents, children := map[], map[];
    for n := 0 to |pairlist|
      invariant num_parents.Keys == PairNodes(pairlist[..n])
      invariant children == PairGraph(pairlist[..n])
      invariant Consistent(num_parents, children)
    {
      var (parent, child) := pairlist[n];
      PairNodesSnoc(pairlist, n);
      assert pairlist[..n + 1][..n] == pairlist[..n];
      num_parents, children := CountPair(num_parents, children, parent, child);
    }
    assert pairlist[..|pairlist|] == pairlist;
  }
}
