/**
 bindings/python/rad_util.py: `permutations`.

 The recursion takes the first item off, permutes the others, and inserts the
 item at every position of every result.  Items may be equal to each other: the
 results are then still all rearrangements, and still n! of them, but the same
 rearrangement is listed more than once.
 */
module Permutations {
  import opened Sequences

  function Insert<T>(s: seq<T>, i: nat, item: T): (r: seq<T>)
    requires i <= |s|
    ensures |r| == |s| + 1
  {
    s[..i] + [item] + s[i..]
  }

  /** The item inserted at each of the first n positions. */
  function Insertions<T>(s: seq<T>, item: T, n: nat): (r: seq<seq<T>>)
    requires n <= |s| + 1
    ensures |r| == n && forall i :: 0 <= i < n ==> r[i] == Insert(s, i, item)
  {
    if n == 0 then [] else Insertions(s, item, n - 1) + [Insert(s, n - 1, item)]
  }

  function InsertInAll<T>(subs: seq<seq<T>>, item: T, n: nat): seq<seq<T>>
    requires forall k :: 0 <= k < |subs| ==> |subs[k]| + 1 == n
  {
    if subs == [] then []
    else InsertInAll(subs[..|subs| - 1], item, n) + Insertions(subs[|subs| - 1], item, n)
  }

  /** What the source computes: the first item at every position of every permutation of the others. */
  function Perms<T>(s: seq<T>): (r: seq<seq<T>>)
    ensures forall k :: 0 <= k < |r| ==> |r[k]| == |s|
  {
    if |s| <= 1 then [s]
    else
      var r := InsertInAll(Perms(s[1..]), s[0], |s|);
      LengthsFit(Perms(s[1..]), s[0], |s|);
      r
  }

  lemma {:induction false} LengthsFit<T>(subs: seq<seq<T>>, item: T, n: nat)
    requires forall k :: 0 <= k < |subs| ==> |subs[k]| + 1 == n
    ensures forall k :: 0 <= k < |InsertInAll(subs, item, n)| ==> |InsertInAll(subs, item, n)[k]| == n
  {
    if subs != [] {
      LengthsFit(subs[..|subs| - 1], item, n);
    }
  }

  /** Everything in the result comes from inserting the item somewhere. */
  lemma {:induction false} ComesFrom<T>(subs: seq<seq<T>>, item: T, n: nat, t: seq<T>) returns (k: nat, i: nat)
    requires forall k :: 0 <= k < |subs| ==> |subs[k]| + 1 == n
    requires t in InsertInAll(subs, item, n)
    ensures k < |subs| && i < n && t == Insert(subs[k], i, item)
  {
    var m := |subs| - 1;
    var last := Insertions(subs[m], item, n);
    if t in last {
      k := m;
      i :| 0 <= i < |last| && last[i] == t;
    } else {
      k, i := ComesFrom(subs[..m], item, n, t);
    }
  }

  /** And every such insertion is in the result. */
  lemma {:induction false} IsInserted<T>(subs: seq<seq<T>>, item: T, n: nat, k: nat, i: nat)
    requires forall k :: 0 <= k < |subs| ==> |subs[k]| + 1 == n
    requires k < |subs| && i < n
    ensures Insert(subs[k], i, item) in InsertInAll(subs, item, n)
  {
    var m := |subs| - 1;
    if k == m {
      assert Insertions(subs[m], item, n)[i] == Insert(subs[m], i, item);
    } else {
      IsInserted(subs[..m], item, n, k, i);
    }
  }

  lemma InsertBag<T>(s: seq<T>, i: nat, item: T)
    requires i <= |s|
    ensures multiset(Insert(s, i, item)) == multiset(s) + multiset{item}
  {
    assert s == s[..i] + s[i..];
  }

  lemma RemoveFirstOccurrence<T>(t: seq<T>, item: T) returns (i: nat, rest: seq<T>)
    requires item in t
    ensures i < |t| && |rest| == |t| - 1 && t == Insert(rest, i, item)
    ensures multiset(rest) == multiset(t) - multiset{item}
  {
    i :| 0 <= i < |t| && t[i] == item;
    rest := t[..i] + t[i + 1..];
    assert t == Insert(rest, i, item);
    InsertBag(rest, i, item);
  }

  /** The results are the rearrangements of the list: nothing is lost or invented, and none is missing. */
  lemma {:induction false} PermsAreRearrangements<T>(s: seq<T>, t: seq<T>)
    ensures t in Perms(s) <==> multiset(t) == multiset(s)
    decreases |s|
  {
    if |s| <= 1 {
      SmallRearrangements(s, t);
    } else {
      var item, rest := s[0], s[1..];
      assert s == [item] + rest;
      assert multiset(s) == multiset{item} + multiset(rest);
      if t in Perms(s) {
        var k, i := ComesFrom(Perms(rest), item, |s|, t);
        PermsAreRearrangements(rest, Perms(rest)[k]);
        InsertBag(Perms(rest)[k], i, item);
      } else if multiset(t) == multiset(s) {
        var i, other := RemoveFromRearrangement(t, item, rest);
        PermsAreRearrangements(rest, other);
        InsertedIsListed(Perms(rest), item, |s|, other, i);
      }
    }
  }

  lemma RemoveFromRearrangement<T>(t: seq<T>, item: T, rest: seq<T>) returns (i: nat, other: seq<T>)
    requires multiset(t) == multiset{item} + multiset(rest)
    ensures |other| == |rest| && i <= |rest| && t == Insert(other, i, item)
    ensures multiset(other) == multiset(rest)
  {
    assert item in multiset(t);
    i, other := RemoveFirstOccurrence(t, item);
    assert |multiset(t)| == |t| && |multiset(rest)| == |rest|;
  }

  lemma InsertedIsListed<T>(subs: seq<seq<T>>, item: T, n: nat, sub: seq<T>, i: nat)
    requires forall k :: 0 <= k < |subs| ==> |subs[k]| + 1 == n
    requires sub in subs && i < n && |sub| + 1 == n
    ensures Insert(sub, i, item) in InsertInAll(subs, item, n)
  {
    var k :| 0 <= k < |subs| && subs[k] == sub;
    IsInserted(subs, item, n, k, i);
  }

  lemma SmallRearrangements<T>(s: seq<T>, t: seq<T>)
    requires |s| <= 1
    ensures t == s <==> multiset(t) == multiset(s)
  {
    if multiset(t) == multiset(s) {
      assert |t| == |multiset(t)| == |s|;
      if |s| == 1 {
        assert t == [t[0]] && s == [s[0]];
        assert t[0] in multiset(s);
      }
    }
  }

  function Factorial(n: nat): (f: nat)
    ensures f > 0
  {
    if n == 0 then 1 else n * Factorial(n - 1)
  }

  lemma Distribute(n: nat, m: nat)
    ensures n * (m + 1) == n * m + n
  {
  }

  lemma {:induction false} InsertInAllSize<T>(subs: seq<seq<T>>, item: T, n: nat)
    requires forall k :: 0 <= k < |subs| ==> |subs[k]| + 1 == n
    ensures |InsertInAll(subs, item, n)| == n * |subs|
  {
    if subs != [] {
      var m := |subs| - 1;
      InsertInAllSize(subs[..m], item, n);
      Distribute(n, m);
    }
  }

  lemma PermsCountStep<T>(s: seq<T>, f: nat)
    requires |s| > 1 && |Perms(s[1..])| == f
    ensures |Perms(s)| == |s| * f
  {
    InsertInAllSize(Perms(s[1..]), s[0], |s|);
  }

  /** There are n! results. */
  lemma {:induction false} PermsCount<T>(s: seq<T>)
    ensures |Perms(s)| == Factorial(|s|)
    decreases |s|
  {
    if |s| <= 1 {
      assert Factorial(1) == 1 * Factorial(0);
    } else {
      var rest := s[1..];
      assert |rest| == |s| - 1;
      PermsCount(rest);
      PermsCountStep(s, Factorial(|rest|));
    }
  }

  /** Inserting a new item keeps apart what was apart. */
  lemma InsertInjective<T>(a: seq<T>, i: nat, b: seq<T>, j: nat, item: T)
    requires i <= |a| && j <= |b| && item !in a && item !in b
    requires Insert(a, i, item) == Insert(b, j, item)
    ensures i == j && a == b
  {
    var t := Insert(a, i, item);
    OnlyThere(a, i, item, j);
    assert t[j] == item;
    assert a == t[..i] + t[i + 1..];
    assert b == t[..j] + t[j + 1..];
  }

  lemma OnlyThere<T>(a: seq<T>, i: nat, item: T, j: nat)
    requires i <= |a| && item !in a && j <= |a|
    ensures Insert(a, i, item)[j] == item <==> i == j
  {
    if j < i {
      assert Insert(a, i, item)[j] == a[j];
    } else if i < j {
      assert Insert(a, i, item)[j] == a[j - 1];
    }
  }

  lemma InsertionsDistinct<T>(s: seq<T>, item: T, n: nat)
    requires n <= |s| + 1 && item !in s
    ensures Distinct(Insertions(s, item, n))
  {
    var last := Insertions(s, item, n);
    forall i, j | 0 <= i < j < |last|
      ensures last[i] != last[j]
    {
      if last[i] == last[j] {
        InsertInjective(s, i, s, j, item);
      }
    }
  }

  lemma InsertionsApart<T>(subs: seq<seq<T>>, s: seq<T>, item: T, n: nat, t: seq<T>)
    requires (forall k :: 0 <= k < |subs| ==> |subs[k]| + 1 == n && item !in subs[k]) && s !in subs
    requires n <= |s| + 1 && item !in s && t in InsertInAll(subs, item, n)
    ensures t !in Insertions(s, item, n)
  {
    var k, i := ComesFrom(subs, item, n, t);
    if j :| 0 <= j < n && Insertions(s, item, n)[j] == t {
      InsertInjective(subs[k], i, s, j, item);
    }
  }

  lemma {:induction false} InsertInAllDistinct<T>(subs: seq<seq<T>>, item: T, n: nat)
    requires forall k :: 0 <= k < |subs| ==> |subs[k]| + 1 == n && item !in subs[k]
    requires Distinct(subs)
    ensures Distinct(InsertInAll(subs, item, n))
  {
    if subs != [] {
      var m := |subs| - 1;
      var earlier, last := InsertInAll(subs[..m], item, n), Insertions(subs[m], item, n);
      InsertInAllDistinct(subs[..m], item, n);
      InsertionsDistinct(subs[m], item, n);
      forall t | t in last
        ensures t !in earlier
      {
        if t in earlier {
          InsertionsApart(subs[..m], subs[m], item, n, t);
        }
      }
      DistinctConcat(earlier, last);
    }
  }

  /** For pairwise distinct items no permutation is listed twice. */
  lemma {:induction false} PermsDistinct<T>(s: seq<T>)
    requires Distinct(s)
    ensures Distinct(Perms(s))
    decreases |s|
  {
    if |s| > 1 {
      var item, rest := s[0], s[1..];
      PermsDistinct(rest);
      forall k | 0 <= k < |Perms(rest)|
        ensures item !in Perms(rest)[k]
      {
        PermsAreRearrangements(rest, Perms(rest)[k]);
        assert item !in multiset(rest);
      }
      InsertInAllDistinct(Perms(rest), item, |s|);
    }
  }

  lemma InsertInAllSnoc<T>(subs: seq<seq<T>>, item: T, n: nat, k: nat)
    requires k < |subs| && forall j :: 0 <= j < |subs| ==> |subs[j]| + 1 == n
    ensures InsertInAll(subs[..k + 1], item, n) == InsertInAll(subs[..k], item, n) + Insertions(subs[k], item, n)
  {
    assert subs[..k + 1][..k] == subs[..k];
  }

  /** The inner loop: insert the item at every position of one list. */
  method AppendInsertions<T>(before: seq<seq<T>>, sub_list: seq<T>, item: T) returns (out_lists: seq<seq<T>>)
    ensures out_lists == before + Insertions(sub_list, item, |sub_list| + 1)
  {
    out_lists := before;
    for i := 0 to |sub_list| + 1
      invariant out_lists == before + Insertions(sub_list, item, i)
    {
      var new_list := Insert(sub_list, i, item);
      out_lists := out_lists + [new_list];
    }
  }

  /** The outer loop. */
  method InsertEverywhere<T>(sub_lists: seq<seq<T>>, item: T, n: nat) returns (out_lists: seq<seq<T>>)
    requires forall k :: 0 <= k < |sub_lists| ==> |sub_lists[k]| + 1 == n
    ensures out_lists == InsertInAll(sub_lists, item, n)
  {
    out_lists := [];
    for k := 0 to |sub_lists|
      invariant out_lists == InsertInAll(sub_lists[..k], item, n)
    {
      out_lists := AppendInsertions(out_lists, sub_lists[k], item);
      InsertInAllSnoc(sub_lists, item, n, k);
    }
    assert sub_lists[..|sub_lists|] == sub_lists;
  }

  /** The source's recursion. */
  method ListPermutations<T>(input_list: seq<T>) returns (out_lists: seq<seq<T>>)
    ensures out_lists == Perms(input_list)
    decreases |input_list|
  {
    if |input_list| > 1 {
      var sub_lists := ListPermutations(input_list[1..]);
      out_lists := InsertEverywhere(sub_lists, input_list[0], |input_list|);
    } else {
      out_lists := [input_list];
    }
  }
}
