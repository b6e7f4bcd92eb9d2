/** bindings/python/topsort.py: `topsort`, `topsort_levels`, `topsort_levels_core`. */
module TopSort {
  import opened Wrappers
  import opened Graphs
  import opened Sequences
  import opened Pending

  /** What a sort ends with: a normal end, or the CycleError and the dictionaries it carries. */
  datatype Ending<T> = Finished | CycleError(num_parents: map<T, int>, children: Graph<T>)

  /** Elements that were output are gone from both dictionaries; the rest is as it was. */
  ghost predicate Remaining<T(!new)>(d: Digraph<T>, done: set<T>, num_parents: map<T, int>, children: Graph<T>) {
    && num_parents.Keys == d.nodes - done
    && children == d.children - done
    && Consistent(num_parents, children)
  }

  /** The left-over elements are those on or below a cycle, with the edges among them. */
  ghost predicate EndsCorrectly<T(!new)>(d: Digraph<T>, done: set<T>, end: Ending<T>) {
    && (end.Finished? <==> !Cyclic(d.children))
    && (end.Finished? ==> done == d.nodes)
    && (end.CycleError? ==> Remaining(d, done, end.num_parents, end.children))
  }

  /** The elements that do not lie on or below a cycle. */
  ghost function Sortable<T(!new)>(d: Digraph<T>): set<T> {
    set x | x in d.nodes && !BelowCycle(d.children, x)
  }

  /** What `topsort` computes: the elements not below a cycle, each once, by increasing depth. */
  ghost predicate SortedByDepth<T(!new)>(d: Digraph<T>, answer: seq<T>) {
    && Distinct(answer)
    && Elements(answer) == Sortable(d)
    && (forall i, j, k, m :: 0 <= i <= j < |answer| && DepthIs(d, answer[i], k) && DepthIs(d, answer[j], m) ==> k <= m)
  }

  /** What `topsort_levels` yields: level k holds the elements of depth k, each once. */
  ghost predicate LevelsByDepth<T(!new)>(d: Digraph<T>, levels: seq<seq<T>>) {
    && (forall k :: 0 <= k < |levels| ==> Distinct(levels[k]) && levels[k] != [])
    && (forall k, x :: 0 <= k < |levels| ==> (x in levels[k] <==> DepthIs(d, x, k)))
    && (forall x, k: nat :: DepthIs(d, x, k) ==> k < |levels|)
  }

  // ---------- one step of the algorithm ----------

  lemma Unpend<T(!new)>(num_parents: map<T, int>, children: Graph<T>, x: T)
    requires Consistent(num_parents, children) && x in num_parents
    ensures num_parents[x] >= 0
    ensures num_parents[x] == 0 <==> !HasParentIn(children, num_parents.Keys, x)
  {
    PendingIffEdge(children, x);
    if p :| p in children && x in children[p] {
      assert Edge(children, p, x);
    }
  }

  /** An element none of whose parents remain has only parents that are done. */
  lemma ParentsDone<T(!new)>(d: Digraph<T>, done: set<T>, num_parents: map<T, int>, children: Graph<T>, x: T, p: T)
    requires WellFormed(d) && Remaining(d, done, num_parents, children)
    requires x in num_parents && num_parents[x] == 0 && Edge(d.children, p, x)
    ensures p in done
  {
    if p !in done {
      assert Edge(children, p, x);
      Unpend(num_parents, children, x);
      assert false;
    }
  }

  /** When no remaining element is free of remaining parents, all of them lie below a cycle. */
  lemma StuckBelowCycle<T(!new)>(d: Digraph<T>, done: set<T>, num_parents: map<T, int>, children: Graph<T>)
    requires WellFormed(d) && Remaining(d, done, num_parents, children)
    requires forall x :: x in num_parents ==> num_parents[x] != 0
    ensures forall x :: x in num_parents ==> BelowCycle(d.children, x)
  {
    var s := num_parents.Keys;
    forall x | x in s
      ensures HasParentIn(d.children, s, x)
    {
      Unpend(num_parents, children, x);
      var p :| p in s && Edge(children, p, x);
      assert Edge(d.children, p, x);
    }
    ParentClosedBelowCycle(d, s);
  }

  lemma EndIsCorrect<T(!new)>(d: Digraph<T>, done: set<T>, num_parents: map<T, int>, children: Graph<T>)
    requires WellFormed(d) && Remaining(d, done, num_parents, children) && done <= d.nodes
    requires forall x :: x in done ==> !BelowCycle(d.children, x)
    requires forall x :: x in num_parents ==> num_parents[x] != 0
    ensures EndsCorrectly(d, done, if num_parents == map[] then Finished else CycleError(num_parents, children))
    ensures forall x :: x in d.nodes ==> (x in done <==> !BelowCycle(d.children, x))
  {
    StuckBelowCycle(d, done, num_parents, children);
    CyclicIffBelow(d);
    if num_parents == map[] {
      assert d.nodes - done == {};
      assert forall x :: x in d.nodes && x !in done ==> x in d.nodes - done;
    } else {
      var x :| x in num_parents;
      assert x in d.nodes;
    }
  }

  /** The elements without a parent, in whatever order the dictionary lists them. */
  method Parentless<T(==)>(num_parents: map<T, int>) returns (s: seq<T>)
    ensures Distinct(s)
    ensures forall x :: x in s <==> x in num_parents && num_parents[x] == 0
  {
    s := [];
    var keys := num_parents.Keys;
    while keys != {}
      invariant keys <= num_parents.Keys
      invariant Distinct(s)
      invariant forall x :: x in s <==> x in num_parents && x !in keys && num_parents[x] == 0
    {
      var x :| x in keys;
      keys := keys - {x};
      if num_parents[x] == 0 {
        s := s + [x];
      }
    }
  }

  function Kids<T(==)>(children: Graph<T>, p: T): (kids: seq<T>) {
    if p in children then children[p] else []
  }

  /** No KeyError: the children of an element about to be removed are counted, and not the element itself. */
  lemma KidsAreCounted<T(!new)>(num_parents: map<T, int>, children: Graph<T>, parent: T)
    requires Consistent(num_parents, children)
    requires parent in num_parents && num_parents[parent] == 0
    ensures forall x :: x in Kids(children, parent) ==> x in num_parents - {parent}
    ensures forall x :: x in num_parents ==> multiset(Kids(children, parent))[x] <= num_parents[x]
  {
    if parent in children {
      PendingRemove(children, parent);
      forall x | x in children[parent]
        ensures x in num_parents - {parent}
      {
        assert Edge(children, parent, x);
        assert x in multiset(children[parent]);
      }
    }
  }

  lemma RemovalIsConsistent<T(!new)>(num_parents: map<T, int>, children: Graph<T>, parent: T, num_parents': map<T, int>)
    requires Consistent(num_parents, children)
    requires parent in num_parents && num_parents[parent] == 0
    requires num_parents'.Keys == num_parents.Keys - {parent}
    requires forall x :: x in num_parents' ==> num_parents'[x] == num_parents[x] - multiset(Kids(children, parent))[x]
    ensures Consistent(num_parents', children - {parent})
  {
    if parent in children {
      PendingRemove(children, parent);
    } else {
      assert children - {parent} == children;
    }
    forall p, c | Edge(children - {parent}, p, c)
      ensures c in num_parents'
    {
      assert Edge(children, p, c);
      if c == parent {
        PendingIffEdge(children, c);
        assert false;
      }
    }
  }

  lemma PrefixCounts<T>(s: seq<T>, j: nat)
    requires j < |s|
    ensures multiset(s[..j + 1]) == multiset(s[..j]) + multiset{s[j]}
    ensures multiset(s[..j + 1]) <= multiset(s)
    ensures forall x :: x in s[..j + 1] <==> x in s[..j] || x == s[j]
  {
    assert s[..j + 1] == s[..j] + [s[j]];
    assert s == s[..j + 1] + s[j + 1..];
  }

  /** Before its turn a child's count is positive, so it has not been queued. */
  lemma StillPending<T>(kids: seq<T>, j: nat, counts: map<T, int>, num_parents: map<T, int>)
    requires j < |kids| && kids[j] in counts && kids[j] in num_parents
    requires multiset(kids)[kids[j]] <= counts[kids[j]]
    requires num_parents[kids[j]] == counts[kids[j]] - multiset(kids[..j])[kids[j]]
    ensures num_parents[kids[j]] > 0
  {
    PrefixCounts(kids, j);
    assert multiset(kids[..j + 1])[kids[j]] <= multiset(kids)[kids[j]];
  }

  lemma NewsStep<T>(kids: seq<T>, j: nat, num_parents: map<T, int>, news: seq<T>)
    requires j < |kids| && (forall x :: x in kids ==> x in num_parents) && num_parents[kids[j]] > 0
    requires forall x :: x in news <==> x in kids[..j] && num_parents[x] == 0
    ensures kids[j] !in news
    ensures
      var child := kids[j];
      var num_parents' := num_parents[child := num_parents[child] - 1];
      var news' := if num_parents'[child] == 0 then news + [child] else news;
      forall x :: x in news' <==> x in kids[..j + 1] && num_parents'[x] == 0
  {
    PrefixCounts(kids, j);
  }

  /** The counts after the first j children have lost a parent. */
  ghost function Lowered<T>(counts: map<T, int>, kids: seq<T>, j: nat): (m: map<T, int>)
    requires j <= |kids| && forall x :: x in kids ==> x in counts
    ensures m.Keys == counts.Keys
  {
    if j == 0 then counts
    else
      var m := Lowered(counts, kids, j - 1);
      m[kids[j - 1] := m[kids[j - 1]] - 1]
  }

  /** The elements whose count this brings to zero, in order. */
  ghost function Freed<T>(counts: map<T, int>, kids: seq<T>, j: nat): seq<T>
    requires j <= |kids| && forall x :: x in kids ==> x in counts
  {
    if j == 0 then []
    else
      var child := kids[j - 1];
      Freed(counts, kids, j - 1) + if Lowered(counts, kids, j)[child] == 0 then [child] else []
  }

  lemma {:induction false} LoweredCounts<T>(counts: map<T, int>, kids: seq<T>, j: nat)
    requires j <= |kids| && forall x :: x in kids ==> x in counts
    ensures forall x :: x in counts ==> Lowered(counts, kids, j)[x] == counts[x] - multiset(kids[..j])[x]
  {
    if j > 0 {
      LoweredCounts(counts, kids, j - 1);
      PrefixCounts(kids, j - 1);
    }
  }

  lemma LoweredIsPositive<T>(counts: map<T, int>, kids: seq<T>, j: nat)
    requires j < |kids| && forall x :: x in kids ==> x in counts
    requires multiset(kids)[kids[j]] <= counts[kids[j]]
    ensures Lowered(counts, kids, j)[kids[j]] > 0
  {
    LoweredCounts(counts, kids, j);
    StillPending(kids, j, counts, Lowered(counts, kids, j));
  }

  ghost predicate FreesOnce<T(!new)>(kids: seq<T>, j: nat, num_parents: map<T, int>, news: seq<T>) {
    && j <= |kids| && (forall x :: x in kids ==> x in num_parents)
    && Distinct(news)
    && (forall x :: x in news <==> x in kids[..j] && num_parents[x] == 0)
  }

  lemma FreedStep<T(!new)>(kids: seq<T>, j: nat, num_parents: map<T, int>, news: seq<T>)
    requires FreesOnce(kids, j, num_parents, news) && j < |kids| && num_parents[kids[j]] > 0
    ensures
      var num_parents' := num_parents[kids[j] := num_parents[kids[j]] - 1];
      FreesOnce(kids, j + 1, num_parents', news + if num_parents'[kids[j]] == 0 then [kids[j]] else [])
  {
    NewsStep(kids, j, num_parents, news);
    assert news + [] == news;
  }

  lemma FreedNext<T(!new)>(counts: map<T, int>, kids: seq<T>, j: nat)
    requires 0 < j <= |kids| && (forall x :: x in kids ==> x in counts)
    requires multiset(kids)[kids[j - 1]] <= counts[kids[j - 1]]
    requires FreesOnce(kids, j - 1, Lowered(counts, kids, j - 1), Freed(counts, kids, j - 1))
    ensures FreesOnce(kids, j, Lowered(counts, kids, j), Freed(counts, kids, j))
  {
    LoweredIsPositive(counts, kids, j - 1);
    FreedStep(kids, j - 1, Lowered(counts, kids, j - 1), Freed(counts, kids, j - 1));
  }

  lemma {:induction false} FreedOnce<T(!new)>(counts: map<T, int>, kids: seq<T>, j: nat)
    requires j <= |kids| && (forall x :: x in kids ==> x in counts)
    requires forall x :: x in counts ==> multiset(kids)[x] <= counts[x]
    ensures FreesOnce(kids, j, Lowered(counts, kids, j), Freed(counts, kids, j))
  {
    if j > 0 {
      FreedOnce(counts, kids, j - 1);
      FreedNext(counts, kids, j);
    }
  }

  lemma AllFreed<T(!new)>(counts: map<T, int>, kids: seq<T>)
    requires forall x :: x in kids ==> x in counts
    requires forall x :: x in counts ==> multiset(kids)[x] <= counts[x]
    ensures
      var num_parents, news := Lowered(counts, kids, |kids|), Freed(counts, kids, |kids|);
      && (forall x :: x in counts ==> num_parents[x] == counts[x] - multiset(kids)[x])
      && Distinct(news)
      && (forall x :: x in news <==> x in kids && num_parents[x] == 0)
  {
    LoweredCounts(counts, kids, |kids|);
    FreedOnce(counts, kids, |kids|);
    assert kids[..|kids|] == kids;
  }

  // ---------- topsort ----------

  /** The inner loop of `topsort`: count down the children and queue those that reach zero. */
  method KnockDown<T(==, !new)>(counts: map<T, int>, kids: seq<T>, queue: seq<T>)
    returns (num_parents: map<T, int>, answer: seq<T>, ghost news: seq<T>)
    requires forall x :: x in kids ==> x in counts
    requires forall x :: x in counts ==> multiset(kids)[x] <= counts[x]
    ensures num_parents.Keys == counts.Keys
    ensures forall x :: x in counts ==> num_parents[x] == counts[x] - multiset(kids)[x]
    ensures answer == queue + news && Distinct(news)
    ensures forall x :: x in news <==> x in kids && num_parents[x] == 0
  {
    num_parents, answer := counts, queue;
    for j := 0 to |kids|
      invariant num_parents == Lowered(counts, kids, j)
      invariant answer == queue + Freed(counts, kids, j)
    {
      var child := kids[j];
      num_parents := num_parents[child := num_parents[child] - 1];
      if num_parents[child] == 0 {
        answer := answer + [child];
      }
    }
    news := Freed(counts, kids, |kids|);
    AllFreed(counts, kids);
  }

  /** The queue: depths never decrease along it, and what waits is at most one level deeper. */
  ghost predicate Layered<T(!new)>(d: Digraph<T>, answer: seq<T>, next: nat, depths: seq<nat>) {
    && |depths| == |answer|
    && (forall k :: 0 <= k < |answer| ==> DepthIs(d, answer[k], depths[k]))
    && (forall i, k :: 0 <= i <= k < |answer| ==> depths[i] <= depths[k])
    && (forall i, k :: next <= i < |answer| && 0 <= k < |answer| ==> depths[k] <= depths[i] + 1)
  }

  ghost predicate Queue<T(!new)>(d: Digraph<T>, answer: seq<T>, next: nat, num_parents: map<T, int>, children: Graph<T>)
    requires next <= |answer|
  {
    && Distinct(answer)
    && Elements(answer) <= d.nodes
    && Remaining(d, Elements(answer[..next]), num_parents, children)
    && (forall x :: x in num_parents ==> (num_parents[x] == 0 <==> x in answer[next..]))
  }

  /** An element freed by its last parent lies exactly one level below that parent. */
  lemma FreedDepth<T(!new)>(d: Digraph<T>, done: set<T>, num_parents: map<T, int>, children: Graph<T>,
                            parent: T, depth: nat, x: T)
    requires WellFormed(d) && Remaining(d, done, num_parents, children)
    requires DepthIs(d, parent, depth) && Edge(d.children, parent, x)
    requires forall p :: p in done ==> !HasWalk(d, p, depth + 1)
    requires x in num_parents && num_parents[x] == 0
    ensures DepthIs(d, x, depth + 1)
  {
    HasWalkExtend(d, parent, x, depth);
    if HasWalk(d, x, depth + 2) {
      var p := HasWalkParent(d, x, depth + 1);
      ParentsDone(d, done, num_parents, children, x, p);
    }
  }

  lemma InitialDepth<T(!new)>(d: Digraph<T>, num_parents: map<T, int>, x: T)
    requires WellFormed(d) && Remaining(d, {}, num_parents, d.children)
    requires x in num_parents && num_parents[x] == 0
    ensures DepthIs(d, x, 0)
  {
    HasWalkZero(d, x);
    if HasWalk(d, x, 1) {
      var p := HasWalkParent(d, x, 0);
      ParentsDone(d, {}, num_parents, d.children, x, p);
    }
  }

  lemma QueueRemaining<T(!new)>(d: Digraph<T>, answer: seq<T>, next: nat, num_parents: map<T, int>, children: Graph<T>,
                                num_parents': map<T, int>, news: seq<T>)
    requires next < |answer| && Remaining(d, Elements(answer[..next]), num_parents, children)
    requires answer[next] in num_parents && num_parents[answer[next]] == 0
    requires num_parents'.Keys == num_parents.Keys - {answer[next]}
    requires forall x :: x in num_parents' ==>
      num_parents'[x] == num_parents[x] - multiset(Kids(children, answer[next]))[x]
    ensures Remaining(d, Elements((answer + news)[..next + 1]), num_parents', children - {answer[next]})
  {
    var parent := answer[next];
    var done := Elements(answer[..next]);
    RemovalIsConsistent(num_parents, children, parent, num_parents');
    assert (answer + news)[..next + 1] == answer[..next] + [parent];
    assert Elements(answer[..next] + [parent]) == done + {parent};
    assert children - {parent} == d.children - (done + {parent});
  }

  lemma QueueStep<T(!new)>(d: Digraph<T>, answer: seq<T>, next: nat, num_parents: map<T, int>, children: Graph<T>,
                           num_parents': map<T, int>, news: seq<T>)
    requires next < |answer| && Queue(d, answer, next, num_parents, children)
    requires num_parents'.Keys == num_parents.Keys - {answer[next]}
    requires forall x :: x in num_parents' ==>
      num_parents'[x] == num_parents[x] - multiset(Kids(children, answer[next]))[x]
    requires forall x :: x in num_parents' ==> num_parents'[x] >= 0
    requires Distinct(news)
    requires forall x :: x in news <==> x in Kids(children, answer[next]) && x in num_parents' && num_parents'[x] == 0
    ensures Queue(d, answer + news, next + 1, num_parents', children - {answer[next]})
  {
    var parent := answer[next];
    assert parent in answer[next..];
    QueueRemaining(d, answer, next, num_parents, children, num_parents', news);
    assert (answer + news)[next + 1..] == answer[next + 1..] + news;
    assert forall x :: x in num_parents' ==> (num_parents'[x] == 0 <==> x in answer[next + 1..] + news);
    assert forall x :: x in news ==> x !in answer;
    DistinctConcat(answer, news);
  }

  lemma LayeredStep<T(!new)>(d: Digraph<T>, answer: seq<T>, next: nat, depths: seq<nat>,
                             num_parents: map<T, int>, children: Graph<T>, news: seq<T>) returns (depths': seq<nat>)
    requires WellFormed(d) && next < |answer| && Layered(d, answer, next, depths)
    requires Queue(d, answer + news, next + 1, num_parents, children)
    requires forall x :: x in news ==> Edge(d.children, answer[next], x) && x in num_parents
    ensures Layered(d, answer + news, next + 1, depths')
  {
    var depth := depths[next];
    var answer' := answer + news;
    var done := Elements(answer'[..next + 1]);
    depths' := depths + seq(|news|, _ => depth + 1);
    forall p | p in done
      ensures !HasWalk(d, p, depth + 1)
    {
      var i :| 0 <= i < next + 1 && answer'[i] == p;
      assert answer[i] == p && depths[i] <= depth;
      if HasWalk(d, p, depth + 1) {
        HasWalkShorter(d, p, depths[i] + 1, depth + 1);
      }
    }
    forall k | |answer| <= k < |answer'|
      ensures DepthIs(d, answer'[k], depths'[k])
    {
      var x := news[k - |answer|];
      assert x in news && answer'[k] == x;
      assert x in answer'[next + 1..] by { assert answer'[next + 1..][k - next - 1] == x; }
      FreedDepth(d, done, num_parents, children, answer[next], depth, x);
    }
  }

  lemma InitialQueue<T(!new)>(d: Digraph<T>, num_parents: map<T, int>, answer: seq<T>) returns (depths: seq<nat>)
    requires WellFormed(d) && num_parents.Keys == d.nodes && Consistent(num_parents, d.children)
    requires Distinct(answer)
    requires forall x :: x in answer <==> x in num_parents && num_parents[x] == 0
    ensures Queue(d, answer, 0, num_parents, d.children)
    ensures Layered(d, answer, 0, depths)
  {
    depths := seq(|answer|, _ => 0);
    assert answer[..0] == [];
    assert answer[0..] == answer;
    assert d.children - {} == d.children;
    assert Remaining(d, {}, num_parents, d.children);
    forall x | x in answer
      ensures DepthIs(d, x, 0)
    {
      InitialDepth(d, num_parents, x);
    }
  }

  /** The body of the main loop: output `answer[next]` and count down its children. */
  method Release<T(==, !new)>(ghost d: Digraph<T>, counts: map<T, int>, lists: Graph<T>, queue: seq<T>, next: nat,
                              ghost depths: seq<nat>)
    returns (num_parents: map<T, int>, children: Graph<T>, answer: seq<T>, ghost depths': seq<nat>)
    requires WellFormed(d) && next < |queue| && Queue(d, queue, next, counts, lists)
    requires Layered(d, queue, next, depths)
    ensures queue <= answer && Queue(d, answer, next + 1, num_parents, children)
    ensures Layered(d, answer, next + 1, depths')
    ensures |num_parents| < |counts|
  {
    var parent := queue[next];
    ghost var news: seq<T> := [];
    assert parent in queue[next..];
    KidsAreCounted(counts, lists, parent);
    num_parents, children, answer := counts - {parent}, lists, queue;
    if parent in children {
      num_parents, answer, news := KnockDown(num_parents, children[parent], answer);
      children := children - {parent};
    } else {
      assert lists - {parent} == lists;
    }
    QueueStep(d, queue, next, counts, lists, num_parents, news);
    assert answer == queue + news;
    depths' := LayeredStep(d, queue, next, depths, num_parents, children, news);
    assert |num_parents.Keys| == |counts.Keys - {parent}|;
  }

  method TopSort<T(==, !new)>(pairlist: seq<(T, T)>) returns (answer: seq<T>, end: Ending<T>)
    ensures SortedByDepth(PairDigraph(pairlist), answer)
    ensures EndsCorrectly(PairDigraph(pairlist), Elements(answer), end)
  {
    ghost var d := PairDigraph(pairlist);
    PairDigraphWellFormed(pairlist);
    var num_parents, children := CountParents(pairlist);
    answer := Parentless(num_parents);
    ghost var depths := InitialQueue(d, num_parents, answer);
    var next := 0;
    while next < |answer|
      invariant next <= |answer|
      invariant Queue(d, answer, next, num_parents, children)
      invariant Layered(d, answer, next, depths)
      decreases |num_parents|
    {
      num_parents, children, answer, depths := Release(d, num_parents, children, answer, next, depths);
      next := next + 1;
    }
    FinishSort(d, answer, depths, num_parents, children);
    end := if num_parents != map[] then CycleError(num_parents, children) else Finished;
  }

  lemma FinishSort<T(!new)>(d: Digraph<T>, answer: seq<T>, depths: seq<nat>, num_parents: map<T, int>,
                            children: Graph<T>)
    requires WellFormed(d) && Queue(d, answer, |answer|, num_parents, children)
    requires Layered(d, answer, |answer|, depths)
    ensures SortedByDepth(d, answer)
    ensures EndsCorrectly(d, Elements(answer),
                          if num_parents == map[] then Finished else CycleError(num_parents, children))
  {
    assert answer[..|answer|] == answer;
    forall x | x in answer
      ensures !BelowCycle(d.children, x)
    {
      var i :| 0 <= i < |answer| && answer[i] == x;
      BelowCycleOrDepth(d, x);
      assert DepthIs(d, x, depths[i]);
    }
    EndIsCorrect(d, Elements(answer), num_parents, children);
    forall i, j, k, m | 0 <= i <= j < |answer| && DepthIs(d, answer[i], k) && DepthIs(d, answer[j], m)
      ensures k <= m
    {
      DepthUnique(d, answer[i], k, depths[i]);
      DepthUnique(d, answer[j], m, depths[j]);
    }
  }

  // ---------- topsort_levels ----------

  /** The inner loop of `topsort_levels_core`: count down the children of one element; KeyError if one has no count. */
  method CountDown<T(==)>(counts: map<T, int>, kids: seq<T>) returns (num_parents: map<T, int>, failed: bool)
    ensures failed <==> exists x :: x in kids && x !in counts
    ensures !failed ==> num_parents.Keys == counts.Keys
    ensures !failed ==> forall x :: x in counts ==> num_parents[x] == counts[x] - multiset(kids)[x]
  {
    num_parents, failed := counts, false;
    for j := 0 to |kids|
      invariant num_parents.Keys == counts.Keys
      invariant forall x :: x in kids[..j] ==> x in counts
      invariant forall x :: x in counts ==> num_parents[x] == counts[x] - multiset(kids[..j])[x]
    {
      if kids[j] !in num_parents {
        return num_parents, true;
      }
      PrefixCounts(kids, j);
      num_parents := num_parents[kids[j] := num_parents[kids[j]] - 1];
    }
    assert kids[..|kids|] == kids;
  }

  lemma ElementsSnoc<T>(s: seq<T>, i: nat)
    requires i < |s|
    ensures Elements(s[..i + 1]) == Elements(s[..i]) + {s[i]}
  {
    assert s[..i + 1] == s[..i] + [s[i]];
  }

  /** Count down for every element of a level; when counts and lists match, its elements are parentless throughout. */
  method RemoveLevel<T(==, !new)>(counts: map<T, int>, lists: Graph<T>, level: seq<T>)
    returns (num_parents: map<T, int>, children: Graph<T>, failed: bool)
    requires Distinct(level) && forall x :: x in level ==> x in counts
    ensures !failed ==> num_parents.Keys == counts.Keys - Elements(level) && children == lists - Elements(level)
    ensures Consistent(counts, lists) && (forall x :: x in level ==> counts[x] == 0) ==>
      !failed && Consistent(num_parents, children)
  {
    ghost var matching := Consistent(counts, lists) && forall x :: x in level ==> counts[x] == 0;
    num_parents, children, failed := counts, lists, false;
    assert lists - Elements(level[..0]) == lists;
    for i := 0 to |level|
      invariant num_parents.Keys == counts.Keys - Elements(level[..i])
      invariant children == lists - Elements(level[..i])
      invariant matching ==> Consistent(num_parents, children)
      invariant matching ==> forall k :: i <= k < |level| ==> level[k] in num_parents && num_parents[level[k]] == 0
    {
      assert level[i] in level && level[i] !in level[..i];
      num_parents, children, failed := RemoveOne(num_parents, children, level[i]);
      if failed {
        return;
      }
      ElementsSnoc(level, i);
    }
    assert level[..|level|] == level;
  }

  lemma FewerKeys<T>(counts: map<T, int>, num_parents: map<T, int>, level: seq<T>)
    requires num_parents.Keys == counts.Keys - Elements(level)
    requires forall x :: x in level ==> x in counts
    ensures level != [] ==> |num_parents| < |counts|
  {
    if level != [] {
      assert level[0] in Elements(level) && level[0] in counts.Keys;
      SubsetSize(num_parents.Keys, counts.Keys - {level[0]});
    }
  }

  method RemoveOne<T(==, !new)>(counts: map<T, int>, lists: Graph<T>, level_parent: T)
    returns (num_parents: map<T, int>, children: Graph<T>, failed: bool)
    requires level_parent in counts
    ensures !failed ==> num_parents.Keys == counts.Keys - {level_parent} && children == lists - {level_parent}
    ensures Consistent(counts, lists) && counts[level_parent] == 0 ==>
      && !failed && Consistent(num_parents, children)
      && forall x :: x in num_parents && counts[x] == 0 ==> num_parents[x] == 0
  {
    ghost var matching := Consistent(counts, lists) && counts[level_parent] == 0;
    if matching {
      KidsAreCounted(counts, lists, level_parent);
    }
    num_parents, children, failed := counts - {level_parent}, lists, false;
    if level_parent in children {
      num_parents, failed := CountDown(num_parents, children[level_parent]);
      if failed {
        return;
      }
      children := children - {level_parent};
    } else {
      assert lists - {level_parent} == lists;
    }
    if matching {
      RemovalIsConsistent(counts, lists, level_parent, num_parents);
    }
  }

  /** After k levels exactly the elements with a walk of k edges are left. */
  ghost predicate LevelsSoFar<T(!new)>(d: Digraph<T>, levels: seq<seq<T>>, num_parents: map<T, int>, children: Graph<T>)
  {
    && num_parents.Keys <= d.nodes
    && Remaining(d, d.nodes - num_parents.Keys, num_parents, children)
    && (forall x :: x in num_parents <==> HasWalk(d, x, |levels|))
    && (forall k :: 0 <= k < |levels| ==> Distinct(levels[k]) && levels[k] != [])
    && (forall k, x :: 0 <= k < |levels| ==> (x in levels[k] <==> DepthIs(d, x, k)))
  }

  lemma LevelIsDepth<T(!new)>(d: Digraph<T>, levels: seq<seq<T>>, num_parents: map<T, int>, children: Graph<T>, x: T)
    requires WellFormed(d) && LevelsSoFar(d, levels, num_parents, children) && x in num_parents
    ensures num_parents[x] == 0 <==> !HasWalk(d, x, |levels| + 1)
  {
    var done := d.nodes - num_parents.Keys;
    if num_parents[x] == 0 {
      if HasWalk(d, x, |levels| + 1) {
        var p := HasWalkParent(d, x, |levels|);
        assert p in num_parents;
        ParentsDone(d, done, num_parents, children, x, p);
      }
    } else {
      Unpend(num_parents, children, x);
      var p :| p in num_parents.Keys && Edge(children, p, x);
      HasWalkExtend(d, p, x, |levels|);
    }
  }

  lemma LevelsStep<T(!new)>(d: Digraph<T>, levels: seq<seq<T>>, num_parents: map<T, int>, children: Graph<T>,
                            level: seq<T>, num_parents': map<T, int>, children': Graph<T>)
    requires WellFormed(d) && LevelsSoFar(d, levels, num_parents, children)
    requires Distinct(level) && level != []
    requires forall x :: x in level <==> x in num_parents && num_parents[x] == 0
    requires Consistent(num_parents', children')
    requires num_parents'.Keys == num_parents.Keys - Elements(level)
    requires children' == children - Elements(level)
    ensures LevelsSoFar(d, levels + [level], num_parents', children')
  {
    var k := |levels|;
    var levels' := levels + [level];
    forall x
      ensures x in level <==> DepthIs(d, x, k)
      ensures x in num_parents' <==> HasWalk(d, x, k + 1)
    {
      if x in num_parents {
        LevelIsDepth(d, levels, num_parents, children, x);
      } else if HasWalk(d, x, k + 1) {
        HasWalkShorter(d, x, k, k + 1);
      }
    }
    assert children' == d.children - (d.nodes - num_parents'.Keys);
    assert num_parents'.Keys == d.nodes - (d.nodes - num_parents'.Keys);
    forall j, x | 0 <= j < |levels'|
      ensures x in levels'[j] <==> DepthIs(d, x, j)
    {
      if j < k {
        assert levels'[j] == levels[j];
      }
    }
  }

  lemma FinishLevels<T(!new)>(d: Digraph<T>, levels: seq<seq<T>>, num_parents: map<T, int>, children: Graph<T>,
                              level: seq<T>)
    requires WellFormed(d) && LevelsSoFar(d, levels, num_parents, children)
    requires level == [] && forall x :: x in level <==> x in num_parents && num_parents[x] == 0
    ensures LevelsByDepth(d, levels)
    ensures EndsCorrectly(d, Sortable(d), if num_parents == map[] then Finished else CycleError(num_parents, children))
  {
    forall x | x in num_parents
      ensures num_parents[x] != 0
    {
      assert x !in level;
    }
    forall x, k: nat | DepthIs(d, x, k)
      ensures x in d.nodes && k < |levels| && !BelowCycle(d.children, x)
    {
      HasWalkShorter(d, x, 0, k);
      HasWalkZero(d, x);
      BelowCycleOrDepth(d, x);
      if |levels| <= k {
        HasWalkShorter(d, x, |levels|, k);
        StuckBelowCycle(d, d.nodes - num_parents.Keys, num_parents, children);
      }
    }
    forall x | x in d.nodes - num_parents.Keys
      ensures !BelowCycle(d.children, x)
    {
      BelowCycleOrDepth(d, x);
    }
    EndIsCorrect(d, d.nodes - num_parents.Keys, num_parents, children);
    assert d.nodes - num_parents.Keys == Sortable(d);
  }

  /** When the counts match the lists, the levels so far are those of the graph. */
  ghost predicate Tracked<T(!new)>(d: Digraph<T>, matching: bool, levels: seq<seq<T>>, num_parents: map<T, int>,
                                   children: Graph<T>)
  {
    matching ==> WellFormed(d) && LevelsSoFar(d, levels, num_parents, children)
  }

  /** One round of the generator: `level` has been offered, so its elements go. */
  method AdvanceLevel<T(==, !new)>(ghost d: Digraph<T>, ghost matching: bool, ghost levels: seq<seq<T>>,
                                   counts: map<T, int>, lists: Graph<T>, level: seq<T>)
    returns (num_parents: map<T, int>, children: Graph<T>, failed: bool)
    requires Distinct(level) && level != [] && Tracked(d, matching, levels, counts, lists)
    requires forall x :: x in level <==> x in counts && counts[x] == 0
    ensures !failed ==> num_parents.Keys == counts.Keys - Elements(level) && children == lists - Elements(level)
    ensures !failed ==> |num_parents| < |counts|
    ensures matching ==> !failed
    ensures !failed ==> Tracked(d, matching, levels + [level], num_parents, children)
  {
    num_parents, children, failed := RemoveLevel(counts, lists, level);
    if failed {
      return;
    }
    FewerKeys(counts, num_parents, level);
    if matching {
      LevelsStep(d, levels, counts, lists, level, num_parents, children);
    }
  }

  /** The elements of all levels together. */
  ghost function Yielded<T>(levels: seq<seq<T>>): set<T> {
    if levels == [] then {} else Yielded(levels[..|levels| - 1]) + Elements(levels[|levels| - 1])
  }

  /** No level is empty, and no element comes twice. */
  ghost predicate OnceEach<T>(levels: seq<seq<T>>) {
    && (forall k :: 0 <= k < |levels| ==> Distinct(levels[k]) && levels[k] != [])
    && (forall k :: 0 <= k < |levels| ==> Yielded(levels[..k]) !! Elements(levels[k]))
  }

  lemma OnceMore<T>(levels: seq<seq<T>>, level: seq<T>)
    requires OnceEach(levels) && Distinct(level) && level != [] && Yielded(levels) !! Elements(level)
    ensures OnceEach(levels + [level]) && Yielded(levels + [level]) == Yielded(levels) + Elements(level)
  {
    var longer := levels + [level];
    assert longer[..|levels|] == levels;
    forall k | 0 <= k < |longer|
      ensures Yielded(longer[..k]) !! Elements(longer[k])
    {
      assert longer[..k] == levels[..k];
    }
  }

  /** What is left after some levels, and how the generator ends with it. */
  ghost predicate LeftAfter<T>(counts: map<T, int>, lists: Graph<T>, levels: seq<seq<T>>, end: Ending<T>) {
    && (end.Finished? ==> Yielded(levels) == counts.Keys)
    && (end.CycleError? ==>
         && end.num_parents.Keys == counts.Keys - Yielded(levels) && end.num_parents.Keys != {}
         && end.children == lists - Yielded(levels)
         && forall x :: x in end.num_parents ==> end.num_parents[x] != 0)
  }

  ghost predicate Remainder<T>(counts: map<T, int>, lists: Graph<T>, levels: seq<seq<T>>,
                               num_parents: map<T, int>, children: Graph<T>) {
    && OnceEach(levels) && Yielded(levels) <= counts.Keys
    && num_parents.Keys == counts.Keys - Yielded(levels) && children == lists - Yielded(levels)
  }

  lemma RemainderStep<T>(counts: map<T, int>, lists: Graph<T>, levels: seq<seq<T>>, num_parents: map<T, int>,
                         children: Graph<T>, level: seq<T>, num_parents': map<T, int>, children': Graph<T>)
    requires Remainder(counts, lists, levels, num_parents, children)
    requires Distinct(level) && level != [] && forall x :: x in level ==> x in num_parents
    ensures OnceEach(levels + [level]) && Yielded(levels + [level]) <= counts.Keys
    ensures num_parents'.Keys == num_parents.Keys - Elements(level) && children' == children - Elements(level) ==>
      Remainder(counts, lists, levels + [level], num_parents', children')
  {
    OnceMore(levels, level);
    assert children - Elements(level) == lists - Yielded(levels + [level]);
  }

  lemma StartTracked<T(!new)>(counts: map<T, int>, lists: Graph<T>)
    ensures Tracked(Digraph(counts.Keys, lists), Consistent(counts, lists), [], counts, lists)
    ensures Remainder(counts, lists, [], counts, lists)
  {
    assert lists - {} == lists;
    if Consistent(counts, lists) {
      StartLevels(counts, lists);
    }
  }

  lemma TrackedEnds<T(!new)>(d: Digraph<T>, matching: bool, levels: seq<seq<T>>, num_parents: map<T, int>,
                             children: Graph<T>)
    requires Tracked(d, matching, levels, num_parents, children)
    requires forall x :: x in num_parents ==> num_parents[x] != 0
    ensures matching ==> LevelsByDepth(d, levels)
    ensures matching ==>
      EndsCorrectly(d, Sortable(d), if num_parents != map[] then CycleError(num_parents, children) else Finished)
  {
    if matching {
      FinishLevels(d, levels, num_parents, children, []);
    }
  }

  lemma RemainderEnds<T>(counts: map<T, int>, lists: Graph<T>, levels: seq<seq<T>>, num_parents: map<T, int>,
                         children: Graph<T>)
    requires Remainder(counts, lists, levels, num_parents, children)
    requires forall x :: x in num_parents ==> num_parents[x] != 0
    ensures LeftAfter(counts, lists, levels,
                      if num_parents != map[] then CycleError(num_parents, children) else Finished)
  {
    assert num_parents != map[] ==> num_parents.Keys != {};
    assert counts.Keys == (counts.Keys - Yielded(levels)) + Yielded(levels);
    assert num_parents == map[] ==> num_parents.Keys + Yielded(levels) == Yielded(levels);
  }

  /**
   The generator, run to its end, for any two dictionaries: the levels it yields,
   and how it ends; None is a KeyError.  When the counts match the lists there is
   none, and the levels are those of the graph.
   */
  method TopSortLevelsCore<T(==, !new)>(counts: map<T, int>, lists: Graph<T>)
    returns (levels: seq<seq<T>>, end: Option<Ending<T>>)
    ensures OnceEach(levels) && Yielded(levels) <= counts.Keys
    ensures end.Some? ==> LeftAfter(counts, lists, levels, end.value)
    ensures Consistent(counts, lists) ==>
      var d := Digraph(counts.Keys, lists);
      end.Some? && LevelsByDepth(d, levels) && EndsCorrectly(d, Sortable(d), end.value)
  {
    ghost var d, matching := Digraph(counts.Keys, lists), Consistent(counts, lists);
    var num_parents, children := counts, lists;
    levels := [];
    StartTracked(counts, lists);
    var level_parents := Parentless(num_parents);
    while level_parents != []
      invariant Tracked(d, matching, levels, num_parents, children)
      invariant Remainder(counts, lists, levels, num_parents, children)
      invariant Distinct(level_parents)
      invariant forall x :: x in level_parents <==> x in num_parents && num_parents[x] == 0
      decreases |num_parents|
    {
      ghost var counts0, lists0 := num_parents, children;
      var failed;
      num_parents, children, failed := AdvanceLevel(d, matching, levels, num_parents, children, level_parents);
      RemainderStep(counts, lists, levels, counts0, lists0, level_parents, num_parents, children);
      levels := levels + [level_parents];
      if failed {
        return levels, None;
      }
      level_parents := Parentless(num_parents);
    }
    assert forall x :: x in num_parents ==> x !in level_parents;
    TrackedEnds(d, matching, levels, num_parents, children);
    RemainderEnds(counts, lists, levels, num_parents, children);
    end := Some(if num_parents != map[] then CycleError(num_parents, children) else Finished);
  }

  lemma SubsetSize<T>(a: set<T>, b: set<T>)
    requires a <= b
    ensures |a| <= |b|
  {
    assert b == a + (b - a);
  }

  lemma StartLevels<T(!new)>(num_parents: map<T, int>, children: Graph<T>)
    requires Consistent(num_parents, children)
    ensures WellFormed(Digraph(num_parents.Keys, children))
    ensures LevelsSoFar(Digraph(num_parents.Keys, children), [], num_parents, children)
  {
    var d := Digraph(num_parents.Keys, children);
    assert children - (d.nodes - num_parents.Keys) == children;
    forall x
      ensures x in num_parents <==> HasWalk(d, x, 0)
    {
      HasWalkZero(d, x);
    }
  }

  method TopSortLevels<T(==, !new)>(pairlist: seq<(T, T)>) returns (levels: seq<seq<T>>, end: Ending<T>)
    ensures LevelsByDepth(PairDigraph(pairlist), levels)
    ensures EndsCorrectly(PairDigraph(pairlist), Sortable(PairDigraph(pairlist)), end)
  {
    var num_parents, children := CountParents(pairlist);
    var ending;
    levels, ending := TopSortLevelsCore(num_parents, children);
    end := ending.value;
  }
}
