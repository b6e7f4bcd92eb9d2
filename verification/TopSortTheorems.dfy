/** What the two sorts of bindings/python/topsort.py promise, and how they agree. */
module TopSortTheorems {
  import opened Graphs
  import opened Sequences
  import opened Pending
  import opened TopSort
  import opened FindCycles

  /** Being below a cycle is inherited by children. */
  lemma BelowCycleChild<T(!new)>(g: Graph<T>, p: T, c: T)
    requires BelowCycle(g, p) && Edge(g, p, c)
    ensures BelowCycle(g, c)
  {
    var cycle, y :| SimpleCycle(g, cycle) && y in cycle && Reaches(g, y, p);
    ReachesEdge(g, p, c);
    ReachesTrans(g, y, p, c);
  }

  /** Dependency order: every parent of an answered element is answered, and earlier. */
  lemma ParentsComeFirst<T(!new)>(d: Digraph<T>, answer: seq<T>, p: T, j: nat) returns (i: nat)
    requires WellFormed(d) && SortedByDepth(d, answer)
    requires j < |answer| && Edge(d.children, p, answer[j])
    ensures i < j && answer[i] == p
  {
    var c := answer[j];
    assert c in Elements(answer);
    if BelowCycle(d.children, p) {
      BelowCycleChild(d.children, p, c);
    }
    assert p in Elements(answer);
    i :| 0 <= i < |answer| && answer[i] == p;
    BelowCycleOrDepth(d, p);
    BelowCycleOrDepth(d, c);
    var k: nat :| DepthIs(d, p, k);
    var m: nat :| DepthIs(d, c, m);
    ChildDeeper(d, p, c, k, m);
  }

  /** `topsort` fails exactly on cyclic input, and a normal answer is a permutation of all elements. */
  lemma SortSucceedsIffAcyclic<T(!new)>(pairlist: seq<(T, T)>, answer: seq<T>, end: Ending<T>)
    requires SortedByDepth(PairDigraph(pairlist), answer)
    requires EndsCorrectly(PairDigraph(pairlist), Elements(answer), end)
    ensures end.CycleError? <==> Cyclic(PairGraph(pairlist))
    ensures end.Finished? <==> Elements(answer) == PairNodes(pairlist)
    ensures end.Finished? ==> |answer| == |PairNodes(pairlist)|
    ensures end.Finished? ==>
      forall i, j :: 0 <= i < |answer| && 0 <= j < |answer| && (answer[i], answer[j]) in pairlist ==> i < j
    ensures end.CycleError? ==>
      forall x :: x in end.num_parents <==> x in PairNodes(pairlist) && BelowCycle(PairGraph(pairlist), x)
  {
    var d := PairDigraph(pairlist);
    PairDigraphWellFormed(pairlist);
    DistinctSize(answer);
    CyclicIffBelow(d);
    if end.Finished? {
      forall i, j | 0 <= i < |answer| && 0 <= j < |answer| && (answer[i], answer[j]) in pairlist
        ensures i < j
      {
        PairEdges(pairlist, answer[i], answer[j]);
        var k := ParentsComeFirst(d, answer, answer[i], j);
      }
    } else {
      var x :| x in d.nodes && BelowCycle(d.children, x);
      assert x !in Elements(answer);
    }
  }

  // ---------- the comment on the failing branch ----------

  /**
   Every left-over element has a left-over parent.  (The source's comment says
   "at least one child"; `CommentHoldsIff` says when that is so, and
   `LeftOverWithoutChild` gives a list of pairs for which it is not.)
   */
  lemma LeftOverHasParent<T(!new)>(d: Digraph<T>, done: set<T>, end: Ending<T>, x: T) returns (p: T)
    requires WellFormed(d) && EndsCorrectly(d, done, end) && done == Sortable(d)
    requires end.CycleError? && x in end.num_parents
    ensures p in end.num_parents && Edge(end.children, p, x)
    ensures end.num_parents[x] > 0
  {
    BelowCycleHasWalk(d, x, |d.nodes| + 1);
    p := HasWalkParent(d, x, |d.nodes|);
    LongWalkBelowCycle(d, p, |d.nodes|);
    assert p !in done;
    assert Edge(end.children, p, x);
    Unpend(end.num_parents, end.children, x);
    assert HasParentIn(end.children, end.num_parents.Keys, x);
  }

  predicate HasChild<T(==)>(g: Graph<T>, x: T) {
    x in g && g[x] != []
  }

  ghost predicate AllHaveChild<T>(num_parents: map<T, int>, children: Graph<T>) {
    forall x :: x in num_parents ==> HasChild(children, x)
  }

  /** The comment is right about a CycleError exactly when no element without a child can be reached from a cycle. */
  lemma CommentHoldsIff<T(!new)>(d: Digraph<T>, end: Ending<T>)
    requires WellFormed(d) && EndsCorrectly(d, Sortable(d), end) && end.CycleError?
    ensures AllHaveChild(end.num_parents, end.children)
      <==> forall x :: x in d.nodes && !HasChild(d.children, x) ==> !BelowCycle(d.children, x)
  {
    forall x
      ensures x in end.num_parents <==> x in d.nodes && BelowCycle(d.children, x)
      ensures x in end.num_parents ==> (HasChild(end.children, x) <==> HasChild(d.children, x))
    {
    }
  }

  /** For a list of pairs: when no element that is never a parent is reachable from a cycle. */
  lemma CommentHoldsIffOnPairs<T(!new)>(pairlist: seq<(T, T)>, answer: seq<T>, end: Ending<T>)
    requires SortedByDepth(PairDigraph(pairlist), answer)
    requires EndsCorrectly(PairDigraph(pairlist), Elements(answer), end) && end.CycleError?
    ensures AllHaveChild(end.num_parents, end.children) <==>
      forall x :: x in PairNodes(pairlist) && (forall c :: (x, c) !in pairlist) ==> !BelowCycle(PairGraph(pairlist), x)
  {
    var d := PairDigraph(pairlist);
    PairDigraphWellFormed(pairlist);
    CommentHoldsIff(d, end);
    forall x
      ensures HasChild(d.children, x) <==> exists c :: (x, c) in pairlist
    {
      if HasChild(d.children, x) {
        var c := d.children[x][0];
        PairEdges(pairlist, x, c);
      }
      if c :| (x, c) in pairlist {
        PairEdges(pairlist, x, c);
      }
    }
  }

  lemma LeftOverWithoutChild(answer: seq<int>, end: Ending<int>)
    requires SortedByDepth(PairDigraph([(1, 2), (2, 1), (2, 3)]), answer)
    requires EndsCorrectly(PairDigraph([(1, 2), (2, 1), (2, 3)]), Elements(answer), end)
    ensures end.CycleError? && 3 in end.num_parents && 3 !in end.children
  {
    ExampleGraph();
    assert [(1, 2), (2, 1), (2, 3)][2] in [(1, 2), (2, 1), (2, 3)];
    assert 3 in PairNodes([(1, 2), (2, 1), (2, 3)]);
    BelowIsLeftOver(PairDigraph([(1, 2), (2, 1), (2, 3)]), answer, end);
  }

  lemma BelowIsLeftOver(d: Digraph<int>, answer: seq<int>, end: Ending<int>)
    requires d.children == map[1 := [2], 2 := [1, 3]] && 3 in d.nodes
    requires SortedByDepth(d, answer) && EndsCorrectly(d, Elements(answer), end)
    ensures end.CycleError? && 3 in end.num_parents && 3 !in end.children
  {
    ExampleBelowCycle();
    assert 3 !in Elements(answer);
  }

  lemma PairGraphSnoc<T>(front: seq<(T, T)>, parent: T, child: T)
    ensures PairGraph(front + [(parent, child)]) == Grown(PairGraph(front), parent, child)
  {
    assert (front + [(parent, child)])[..|front|] == front;
  }

  lemma ExampleGraph()
    ensures PairGraph([(1, 2), (2, 1), (2, 3)]) == map[1 := [2], 2 := [1, 3]]
  {
    var none: seq<(int, int)>, nil: seq<int> := [], [];
    assert nil + [2] == [2] && nil + [1] == [1] && [1] + [3] == [1, 3];
    PairGraphSnoc(none, 1, 2);
    assert none + [(1, 2)] == [(1, 2)];
    assert PairGraph([(1, 2)]) == map[1 := [2]];
    PairGraphSnoc([(1, 2)], 2, 1);
    assert [(1, 2)] + [(2, 1)] == [(1, 2), (2, 1)];
    PairGraphSnoc([(1, 2), (2, 1)], 2, 3);
    assert [(1, 2), (2, 1)] + [(2, 3)] == [(1, 2), (2, 1), (2, 3)];
  }

  lemma ExampleBelowCycle()
    ensures BelowCycle(map[1 := [2], 2 := [1, 3]], 3)
  {
    var g := map[1 := [2], 2 := [1, 3]];
    assert 1 in g[2] by { assert g[2][0] == 1; }
    assert 3 in g[2] by { assert g[2][1] == 3; }
    assert 2 in g[1] by { assert g[1][0] == 2; }
    assert SimpleCycle(g, [1, 2]);
    assert 2 in [1, 2] by { assert [1, 2][1] == 2; }
    ReachesEdge(g, 2, 3);
  }

  // ---------- the two sorts agree ----------

  /** Both sorts end the same way: normally, or with the same left-over dictionaries. */
  lemma SameEnding<T(!new)>(d: Digraph<T>, done: set<T>, e: Ending<T>, f: Ending<T>)
    requires EndsCorrectly(d, done, e) && EndsCorrectly(d, done, f)
    ensures e == f
  {
    if e.CycleError? {
      forall x | x in e.num_parents
        ensures e.num_parents[x] == f.num_parents[x]
      {
        assert e.num_parents[x] == PendingChildren(e.children)[x];
      }
      assert e.num_parents == f.num_parents;
    }
  }

  /** How many elements the first k levels hold. */
  function Offset<T>(levels: seq<seq<T>>, k: nat): nat
    requires k <= |levels|
  {
    if k == 0 then 0 else Offset(levels, k - 1) + |levels[k - 1]|
  }

  ghost function Above<T>(levels: seq<seq<T>>, k: nat): set<T>
    requires k <= |levels|
  {
    if k == 0 then {} else Above(levels, k - 1) + Elements(levels[k - 1])
  }

  lemma {:induction false} AboveIsShallower<T(!new)>(d: Digraph<T>, levels: seq<seq<T>>, k: nat)
    requires LevelsByDepth(d, levels) && k <= |levels|
    ensures forall x :: x in Above(levels, k) <==> exists m: nat :: m < k && DepthIs(d, x, m)
    decreases k
  {
    if k == 0 {
    } else {
      AboveIsShallower(d, levels, k - 1);
      forall x
        ensures x in Above(levels, k) <==> exists m: nat :: m < k && DepthIs(d, x, m)
      {
        assert x in levels[k - 1] <==> DepthIs(d, x, k - 1);
      }
    }
  }

  lemma LevelIsNew<T(!new)>(d: Digraph<T>, levels: seq<seq<T>>, k: nat)
    requires WellFormed(d) && LevelsByDepth(d, levels) && k < |levels|
    ensures Above(levels, k) !! Elements(levels[k])
  {
    AboveIsShallower(d, levels, k);
    forall x | x in levels[k]
      ensures x !in Above(levels, k)
    {
      if x in Above(levels, k) {
        var m: nat :| m < k && DepthIs(d, x, m);
        DepthUnique(d, x, m, k);
      }
    }
  }

  lemma {:induction false} AboveSize<T(!new)>(d: Digraph<T>, levels: seq<seq<T>>, k: nat)
    requires WellFormed(d) && LevelsByDepth(d, levels) && k <= |levels|
    ensures |Above(levels, k)| == Offset(levels, k)
    decreases k
  {
    if k == 0 {
    } else {
      AboveSize(d, levels, k - 1);
      DistinctSize(levels[k - 1]);
      LevelIsNew(d, levels, k - 1);
    }
  }

  /** A set of elements that only shallow elements precede is a prefix of the answer. */
  lemma ShallowIsPrefix<T(!new)>(d: Digraph<T>, answer: seq<T>, s: set<T>, k: nat)
    requires WellFormed(d) && SortedByDepth(d, answer)
    requires forall x :: x in s <==> exists m: nat :: m < k && DepthIs(d, x, m)
    ensures |s| <= |answer| && Elements(answer[..|s|]) == s
  {
    forall x | x in s
      ensures x in answer
    {
      var m: nat :| m < k && DepthIs(d, x, m);
      HasWalkShorter(d, x, 0, m);
      HasWalkZero(d, x);
      BelowCycleOrDepth(d, x);
      assert x in Elements(answer);
    }
    DistinctSize(answer);
    assert s <= Elements(answer);
    SubsetSize(s, Elements(answer));
    var front := answer[..|s|];
    forall i | 0 <= i < |s|
      ensures answer[i] in s
    {
      if answer[i] !in s {
        SizeBefore(d, answer, s, k, i);
      }
    }
    DistinctBound(front, s);
  }

  lemma SizeBefore<T(!new)>(d: Digraph<T>, answer: seq<T>, s: set<T>, k: nat, i: nat)
    requires WellFormed(d) && SortedByDepth(d, answer) && i < |answer| && s <= Elements(answer)
    requires forall x :: x in s <==> exists m: nat :: m < k && DepthIs(d, x, m)
    requires answer[i] !in s
    ensures |s| <= i
  {
    assert answer[i] in Elements(answer);
    BelowCycleOrDepth(d, answer[i]);
    var n: nat :| DepthIs(d, answer[i], n);
    assert k <= n;
    forall x | x in s
      ensures x in Elements(answer[..i])
    {
      var m: nat :| m < k && DepthIs(d, x, m);
      var j :| 0 <= j < |answer| && answer[j] == x;
      assert j < i;
      assert answer[..i][j] == x;
    }
    DistinctSize(answer[..i]);
    SubsetSize(s, Elements(answer[..i]));
  }

  /** The elements of the first k levels are the first elements of the answer. */
  lemma LevelPrefix<T(!new)>(d: Digraph<T>, answer: seq<T>, levels: seq<seq<T>>, k: nat)
    requires WellFormed(d) && SortedByDepth(d, answer) && LevelsByDepth(d, levels) && k <= |levels|
    ensures Offset(levels, k) <= |answer|
    ensures Elements(answer[..Offset(levels, k)]) == Above(levels, k)
  {
    AboveIsShallower(d, levels, k);
    AboveSize(d, levels, k);
    ShallowIsPrefix(d, answer, Above(levels, k), k);
  }

  /**
   `topsort` and `topsort_levels` compute the same thing: cutting the answer
   after every depth gives, element for element, the levels in their order.
   */
  lemma AnswerCutsIntoLevels<T(!new)>(d: Digraph<T>, answer: seq<T>, levels: seq<seq<T>>, k: nat)
    requires WellFormed(d) && SortedByDepth(d, answer) && LevelsByDepth(d, levels)
    requires k < |levels|
    ensures Offset(levels, k) <= Offset(levels, k + 1) <= |answer|
    ensures multiset(answer[Offset(levels, k)..Offset(levels, k + 1)]) == multiset(levels[k])
  {
    LevelPrefix(d, answer, levels, k);
    LevelPrefix(d, answer, levels, k + 1);
    LevelIsNew(d, levels, k);
    CutIsLevel(answer, levels, k);
  }

  lemma CutIsLevel<T>(answer: seq<T>, levels: seq<seq<T>>, k: nat)
    requires Distinct(answer) && k < |levels| && Distinct(levels[k])
    requires Offset(levels, k + 1) <= |answer|
    requires Elements(answer[..Offset(levels, k)]) == Above(levels, k)
    requires Elements(answer[..Offset(levels, k + 1)]) == Above(levels, k + 1)
    requires Above(levels, k) !! Elements(levels[k])
    ensures multiset(answer[Offset(levels, k)..Offset(levels, k + 1)]) == multiset(levels[k])
  {
    var lo, hi := Offset(levels, k), Offset(levels, k + 1);
    BlockElements(answer, lo, hi, Above(levels, k), Elements(levels[k]));
    DistinctSameElements(answer[lo..hi], levels[k]);
  }

  lemma BlockElements<T>(s: seq<T>, lo: nat, hi: nat, above: set<T>, level: set<T>)
    requires Distinct(s) && lo <= hi <= |s| && above !! level
    requires Elements(s[..lo]) == above && Elements(s[..hi]) == above + level
    ensures Distinct(s[lo..hi]) && Elements(s[lo..hi]) == level
  {
    var block := s[lo..hi];
    assert s[..hi] == s[..lo] + block;
    forall x | x in block
      ensures x !in above
    {
      var i :| 0 <= i < |block| && block[i] == x;
      assert s[lo + i] == x;
    }
    forall x
      ensures x in block <==> x in level
    {
      assert x in s[..hi] <==> x in Elements(s[..hi]);
      assert x in s[..lo] <==> x in Elements(s[..lo]);
    }
  }

  /** The cuts cover the whole answer. */
  lemma CutsCoverAnswer<T(!new)>(d: Digraph<T>, answer: seq<T>, levels: seq<seq<T>>)
    requires WellFormed(d) && SortedByDepth(d, answer) && LevelsByDepth(d, levels)
    ensures Offset(levels, |levels|) == |answer|
  {
    var n := |levels|;
    AboveIsShallower(d, levels, n);
    AboveSize(d, levels, n);
    ShallowIsPrefix(d, answer, Above(levels, n), n);
    forall x | x in answer
      ensures x in Above(levels, n)
    {
      assert x in Elements(answer);
      BelowCycleOrDepth(d, x);
      var m: nat :| DepthIs(d, x, m);
      assert m < n;
    }
    DistinctSize(answer);
    SubsetSize(Elements(answer), Above(levels, n));
  }

  lemma {:induction false} DistinctSameElements<T>(s: seq<T>, t: seq<T>)
    requires Distinct(s) && Distinct(t) && Elements(s) == Elements(t)
    ensures multiset(s) == multiset(t)
  {
    DistinctCount(s);
    DistinctCount(t);
    forall x
      ensures multiset(s)[x] == multiset(t)[x]
    {
      assert x in s <==> x in Elements(s);
    }
  }

  lemma {:induction false} DistinctCount<T>(s: seq<T>)
    requires Distinct(s)
    ensures forall x :: multiset(s)[x] == if x in s then 1 else 0
  {
    if s == [] {
    } else {
      var front, last := s[..|s| - 1], s[|s| - 1];
      DistinctCount(front);
      assert s == front + [last];
      assert last !in front;
    }
  }

  // ---------- the cycles in a CycleError ----------

  lemma CycleIsLeftOver<T(!new)>(d: Digraph<T>, end: Ending<T>, c: seq<T>)
    requires WellFormed(d) && EndsCorrectly(d, Sortable(d), end) && end.CycleError?
    requires SimpleCycle(d.children, c)
    ensures SimpleCycle(end.children, c)
  {
    forall i | 0 <= i < |c|
      ensures c[i] in end.children && end.children[c[i]] == d.children[c[i]]
    {
      var n := if i + 1 < |c| then i + 1 else 0;
      assert Edge(d.children, c[i], c[n]);
      ReachesSelf(d.children, c[i]);
      assert c[i] in c;
      assert BelowCycle(d.children, c[i]);
      assert c[i] !in Sortable(d);
    }
    forall i, j | 0 <= i < j < |c| && j == i + 1
      ensures Edge(end.children, c[i], c[j])
    {
      assert Edge(d.children, c[i], c[j]);
    }
  }

  /** The `children` dictionary a CycleError carries has exactly the cycles of the input, at least one. */
  lemma CycleErrorKeepsCycles<T(!new)>(d: Digraph<T>, end: Ending<T>)
    requires WellFormed(d) && EndsCorrectly(d, Sortable(d), end) && end.CycleError?
    ensures SameCycles(end.children, d.children)
    ensures Cyclic(end.children)
  {
    assert SameCycles(end.children, d.children) by {
      forall c
        ensures SimpleCycle(end.children, c) <==> SimpleCycle(d.children, c)
      {
        SameCycle(d, end, c);
      }
    }
    assert Cyclic(d.children);
  }

  lemma SameCycle<T(!new)>(d: Digraph<T>, end: Ending<T>, c: seq<T>)
    requires WellFormed(d) && EndsCorrectly(d, Sortable(d), end) && end.CycleError?
    ensures SimpleCycle(end.children, c) <==> SimpleCycle(d.children, c)
  {
    if SimpleCycle(d.children, c) {
      CycleIsLeftOver(d, end, c);
    }
  }

  /** `find_cycles` on the dictionary of a CycleError lists the cycles of the input, and at least one. */
  lemma CycleErrorListsCycles<T(!new)>(d: Digraph<T>, end: Ending<T>, ofError: seq<seq<T>>, ofInput: seq<seq<T>>)
    requires WellFormed(d) && EndsCorrectly(d, Sortable(d), end) && end.CycleError?
    requires AllCyclesOnce(end.children, ofError) && AllCyclesOnce(d.children, ofInput)
    ensures 1 <= |ofError| == |ofInput|
    ensures AllFound(ofError, ofInput) && AllFound(ofInput, ofError)
  {
    assert SameCycles(end.children, d.children) && Cyclic(end.children) by {
      CycleErrorKeepsCycles(d, end);
    }
    SameCyclesSameLists(end.children, d.children, ofError, ofInput);
  }
}
