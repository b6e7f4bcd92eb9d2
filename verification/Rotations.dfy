/** bindings/python/rad_util.py: `is_rotated`. */
module Rotations {
  import opened Wrappers

  predicate IsRotation<T(==)>(a: seq<T>, b: seq<T>) {
    exists k :: 0 <= k < |a| && b == a[k..] + a[..k]
  }

  lemma RotationSymmetric<T>(a: seq<T>, b: seq<T>)
    requires IsRotation(a, b)
    ensures IsRotation(b, a)
  {
    var k :| 0 <= k < |a| && b == a[k..] + a[..k];
    var m := if k == 0 then 0 else |a| - k;
    assert a == b[m..] + b[..m];
  }

  lemma RotateTwice<T>(a: seq<T>, k: nat, m: nat, b: seq<T>)
    requires k < |a| && m < |a| && b == a[k..] + a[..k]
    ensures k + m < |a| ==> b[m..] + b[..m] == a[k + m..] + a[..k + m]
    ensures |a| <= k + m ==> b[m..] + b[..m] == a[k + m - |a|..] + a[..k + m - |a|]
  {
    if k + m < |a| {
      assert b[m..] == a[k + m..] + a[..k];
      assert b[..m] == a[k..k + m];
      assert a[..k + m] == a[..k] + a[k..k + m];
    } else {
      var n := k + m - |a|;
      assert b[m..] == a[n..k];
      assert b[..m] == a[k..] + a[..n];
      assert a[n..] == a[n..k] + a[k..];
    }
  }

  lemma RotationTransitive<T>(a: seq<T>, b: seq<T>, c: seq<T>)
    requires IsRotation(a, b) && IsRotation(b, c)
    ensures IsRotation(a, c)
  {
    var k :| 0 <= k < |a| && b == a[k..] + a[..k];
    var m :| 0 <= m < |b| && c == b[m..] + b[..m];
    RotateTwice(a, k, m, b);
  }

  lemma RotationReflexive<T>(a: seq<T>)
    requires a != []
    ensures IsRotation(a, a)
  {
    assert a == a[0..] + a[..0];
  }

  /** None stands for the IndexError that two empty lists cause. */
  method IsRotated<T(==)>(seq1: seq<T>, seq2: seq<T>) returns (r: Option<bool>)
    ensures r.None? <==> seq1 == [] && seq2 == []
    ensures r.Some? ==> (r.value <==> IsRotation(seq1, seq2))
  {
    if |seq1| != |seq2| {
      return Some(false);
    }
    if seq2 == [] {
      return None;
    }
    var start_indexes: seq<nat> := [];
    var head_item := seq2[0];
    for index1 := 0 to |seq1|
      invariant forall k: nat :: k in start_indexes <==> k < index1 && seq1[k] == head_item
    {
      if seq1[index1] == head_item {
        start_indexes := start_indexes + [index1];
      }
    }
    var double_seq1 := seq1 + seq1;
    assert forall j :: 0 <= j < |start_indexes| ==> start_indexes[j] in start_indexes;
    for i := 0 to |start_indexes|
      invariant forall j :: 0 <= j < |start_indexes| ==> start_indexes[j] < |seq1|
      invariant forall j :: 0 <= j < i ==> seq2 != seq1[start_indexes[j]..] + seq1[..start_indexes[j]]
    {
      var index1 := start_indexes[i];
      assert index1 in start_indexes;
      assert double_seq1[index1..index1 + |seq1|] == seq1[index1..] + seq1[..index1];
      if double_seq1[index1..index1 + |seq1|] == seq2 {
        return Some(true);
      }
    }
    forall k: nat | k < |seq1|
      ensures seq2 != seq1[k..] + seq1[..k]
    {
      if k !in start_indexes {
        assert (seq1[k..] + seq1[..k])[0] == seq1[k];
      }
    }
    return Some(false);
  }
}
