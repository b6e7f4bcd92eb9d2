/** utils/grid.py: the binary searches of `TimelineDataRange` and `TimelineEvent`, and the windows cut with them. */
module Timeline {
  // ---------- bisection ----------

  /** How many positions between l and u a bisection tries before it tries i. */
  function Rounds(i: int, l: int, u: int): (n: nat)
    requires l <= i <= u
    decreases u - l
  {
    var mid := (l + u) / 2;
    if i == mid then 0
    else if i < mid then 1 + Rounds(i, l, mid - 1)
    else 1 + Rounds(i, mid + 1, u)
  }

  ghost predicate NoneBelow(hits: set<int>, r: int) {
    forall i :: i in hits ==> r <= i
  }

  ghost predicate NoneAbove(hits: set<int>, r: int) {
    forall i :: i in hits ==> i <= r
  }

  /** Of some of n positions a bisection tries the lowest one first. */
  ghost predicate FirstTried(n: nat, hits: set<int>) {
    forall i, j :: i in hits && j in hits && NoneBelow(hits, i) && 0 <= i < j < n ==>
      Rounds(i, 0, n - 1) < Rounds(j, 0, n - 1)
  }

  /** It tries the highest one first. */
  ghost predicate LastTried(n: nat, hits: set<int>) {
    forall i, j :: i in hits && j in hits && NoneAbove(hits, j) && 0 <= i < j < n ==>
      Rounds(j, 0, n - 1) < Rounds(i, 0, n - 1)
  }

  /** Of the positions at the start the lowest, and of those at the end the highest. */
  ghost predicate EndsTried(n: nat, starts: set<int>, ends: set<int>) {
    FirstTried(n, starts) && LastTried(n, ends)
  }

  lemma Lowest(hits: set<int>, r: int) returns (i: int)
    requires r in hits && forall k :: k in hits ==> 0 <= k
    ensures i in hits && NoneBelow(hits, i)
    decreases r
  {
    if k :| k in hits && k < r {
      i := Lowest(hits, k);
    } else {
      i := r;
    }
  }

  lemma Highest(n: nat, hits: set<int>, r: int) returns (i: int)
    requires r in hits && forall k :: k in hits ==> k < n
    ensures i in hits && NoneAbove(hits, i)
    decreases n - r
  {
    if k :| k in hits && k > r {
      i := Highest(n, hits, k);
    } else {
      i := r;
    }
  }

  /** What it means for the ends that r is the one tried first of all. */
  lemma TriedFirst(n: nat, hits: set<int>, r: int)
    requires 0 <= r < n && r in hits && forall i :: i in hits ==> 0 <= i < n
    requires forall i :: i in hits && i != r ==> Rounds(r, 0, n - 1) < Rounds(i, 0, n - 1)
    ensures FirstTried(n, hits) <==> NoneBelow(hits, r)
    ensures LastTried(n, hits) <==> NoneAbove(hits, r)
  {
    var lowest := Lowest(hits, r);
    var highest := Highest(n, hits, r);
  }

  // ---------- ranges ----------

  datatype Range = Range(start: int, end: int)

  /** Proper ranges in increasing order, each of which may begin where the one before it ends. */
  ghost predicate Ordered(ranges: seq<Range>) {
    && (forall i :: 0 <= i < |ranges| ==> ranges[i].start <= ranges[i].end)
    && (forall i, j :: 0 <= i < j < |ranges| ==> ranges[i].end <= ranges[j].start)
  }

  ghost predicate Apart(ranges: seq<Range>) {
    forall i, j :: 0 <= i < j < |ranges| ==> ranges[i].end != ranges[j].start
  }

  predicate Contains(r: Range, key: int) {
    r.start <= key <= r.end
  }

  /** The range and the window have a point in common. */
  predicate Meets(r: Range, start: int, end: int) {
    r.start <= end && start <= r.end
  }

  /** They have more than an end in common. */
  predicate Overlaps(r: Range, start: int, end: int) {
    r.start < end && start < r.end
  }

  predicate Hit(ranges: seq<Range>, key: int) {
    exists i :: 0 <= i < |ranges| && Contains(ranges[i], key)
  }

  predicate SomeInside(ranges: seq<Range>, start: int, end: int) {
    exists i :: 0 <= i < |ranges| && start < ranges[i].start && ranges[i].end < end
  }

  /** The bounds keep every range that overlaps the window. */
  ghost predicate Shows(ranges: seq<Range>, start: int, end: int, lo: int, hi: int) {
    forall i :: 0 <= i < |ranges| && Overlaps(ranges[i], start, end) ==> lo <= i < hi
  }

  /** They keep every range that meets it. */
  ghost predicate Covers(ranges: seq<Range>, start: int, end: int, lo: int, hi: int) {
    forall i :: 0 <= i < |ranges| && Meets(ranges[i], start, end) ==> lo <= i < hi
  }

  /** They keep no other range. */
  ghost predicate OnlyMeeting(ranges: seq<Range>, start: int, end: int, lo: int, hi: int) {
    forall i :: 0 <= i < |ranges| && lo <= i < hi ==> Meets(ranges[i], start, end)
  }

  /** When nothing is lost: an end of the window must lie in a range, unless no range lies inside it. */
  predicate WillCover(ranges: seq<Range>, start: int, end: int) {
    Hit(ranges, start) || Hit(ranges, end) || !SomeInside(ranges, start, end)
  }

  /** When nothing is added: if only one end lies in a range, no range may lie beyond the other end. */
  predicate WillBeTight(ranges: seq<Range>, start: int, end: int) {
    && (Hit(ranges, end) && !Hit(ranges, start) ==> forall i :: 0 <= i < |ranges| ==> start <= ranges[i].end)
    && (Hit(ranges, start) && !Hit(ranges, end) ==> forall i :: 0 <= i < |ranges| ==> ranges[i].start <= end)
  }

  /** The range that the binary search between l and u finds, or -1. */
  function Seek(ranges: seq<Range>, key: int, l: int, u: int): (r: int)
    requires 0 <= l <= u + 1 <= |ranges|
    ensures r == -1 || (l <= r <= u && Contains(ranges[r], key))
    decreases u + 1 - l
  {
    if l > u then -1
    else
      var i := (l + u) / 2;
      if Contains(ranges[i], key) then i
      else if key < ranges[i].start then Seek(ranges, key, l, i - 1)
      else Seek(ranges, key, i + 1, u)
  }

  ghost predicate Finds(ranges: seq<Range>, key: int, r: int) {
    && -1 <= r < |ranges| && (r == -1 <==> !Hit(ranges, key))
    && (r >= 0 ==> Contains(ranges[r], key))
  }

  /** In ordered ranges it misses no key. */
  lemma {:induction false} SeekFinds(ranges: seq<Range>, key: int, l: int, u: int)
    requires Ordered(ranges) && 0 <= l <= u + 1 <= |ranges|
    requires forall i :: 0 <= i < l ==> ranges[i].end < key
    requires forall i :: u < i < |ranges| ==> key < ranges[i].start
    ensures Seek(ranges, key, l, u) == -1 ==> forall i :: 0 <= i < |ranges| ==> !Contains(ranges[i], key)
    decreases u + 1 - l
  {
    if l <= u {
      var i := (l + u) / 2;
      if key < ranges[i].start {
        SeekFinds(ranges, key, l, i - 1);
      } else if ranges[i].end < key {
        SeekFinds(ranges, key, i + 1, u);
      }
    }
  }

  lemma SeekMeans(ranges: seq<Range>, key: int)
    ensures Ordered(ranges) ==> Finds(ranges, key, Seek(ranges, key, 0, |ranges| - 1))
  {
    if Ordered(ranges) {
      SeekFinds(ranges, key, 0, |ranges| - 1);
    }
  }

  /** Ranges that begin after the key come after position j, and ranges that end before it come before j. */
  ghost predicate Parted(ranges: seq<Range>, key: int, j: int) {
    forall i :: 0 <= i < |ranges| ==> (key < ranges[i].start ==> j < i) && (ranges[i].end < key ==> i < j)
  }

  lemma HitParts(ranges: seq<Range>, key: int, j: int)
    requires Ordered(ranges) && 0 <= j < |ranges| && Contains(ranges[j], key)
    ensures Parted(ranges, key, j)
  {
  }

  /** Of all such positions the search finds the one that a bisection tries first. */
  lemma {:induction false} SeekIsFirstTried(ranges: seq<Range>, key: int, l: int, u: int, j: int)
    requires 0 <= l <= j <= u < |ranges| && Parted(ranges, key, j)
    ensures
      var r := Seek(ranges, key, l, u);
      l <= r <= u && (r != j ==> Rounds(r, l, u) < Rounds(j, l, u))
    decreases u - l
  {
    var i := (l + u) / 2;
    if key < ranges[i].start {
      SeekIsFirstTried(ranges, key, l, i - 1, j);
    } else if ranges[i].end < key {
      SeekIsFirstTried(ranges, key, i + 1, u, j);
    }
  }

  function HitsAt(ranges: seq<Range>, key: int): set<int> {
    set i | 0 <= i < |ranges| && Contains(ranges[i], key)
  }

  /** The search passes over no range on one side of it exactly when the one at that end is tried first. */
  lemma HitsTried(ranges: seq<Range>, key: int)
    ensures
      var r, hits := Seek(ranges, key, 0, |ranges| - 1), HitsAt(ranges, key);
      Ordered(ranges) && r >= 0 ==>
        && (FirstTried(|ranges|, hits) <==> NoneBelow(hits, r))
        && (LastTried(|ranges|, hits) <==> NoneAbove(hits, r))
  {
    var n, r := |ranges| - 1, Seek(ranges, key, 0, |ranges| - 1);
    if Ordered(ranges) && r >= 0 {
      forall i | i in HitsAt(ranges, key)
        ensures r != i ==> Rounds(r, 0, n) < Rounds(i, 0, n)
      {
        HitParts(ranges, key, i);
        SeekIsFirstTried(ranges, key, 0, n, i);
      }
      TriedFirst(|ranges|, HitsAt(ranges, key), r);
    }
  }

  /** Where no ranges touch, no two of them contain the same key. */
  lemma ApartTried(ranges: seq<Range>, key: int)
    requires Ordered(ranges) && Apart(ranges)
    ensures EndsTried(|ranges|, HitsAt(ranges, key), HitsAt(ranges, key))
  {
  }

  lemma MissTried(ranges: seq<Range>, key: int)
    ensures !Hit(ranges, key) ==>
      EndsTried(|ranges|, HitsAt(ranges, key), HitsAt(ranges, key))
  {
  }

  /** The bounds begin at the range found for the start and end after the one found for the end. */
  predicate CutBy(ranges: seq<Range>, s: int, e: int, lo: int, hi: int) {
    lo == (if s == -1 then 0 else s) && hi == if e >= 0 then e + 1 else if s >= 0 then |ranges| else 0
  }

  predicate CutBySeeks(ranges: seq<Range>, start: int, end: int, lo: int, hi: int) {
    CutBy(ranges, Seek(ranges, start, 0, |ranges| - 1), Seek(ranges, end, 0, |ranges| - 1), lo, hi)
  }

  class TimelineDataRange {
    var ranges: seq<Range>

    constructor ()
      ensures ranges == []
    {
      ranges := [];
    }

    method AddRange(r: Range)
      modifies this
      ensures ranges == old(ranges) + [r]
    {
      ranges := ranges + [r];
    }

    /** For any ranges one that contains the key, or -1; in ordered ranges -1 means that none does. */
    method Search(key: int) returns (r: int)
      ensures r == Seek(ranges, key, 0, |ranges| - 1)
      ensures Ordered(ranges) ==> Finds(ranges, key, r)
    {
      SeekMeans(ranges, key);
      var l, u := 0, |ranges| - 1;
      while l <= u
        invariant 0 <= l <= u + 1 <= |ranges|
        invariant Seek(ranges, key, l, u) == Seek(ranges, key, 0, |ranges| - 1)
        decreases u - l
      {
        var i := (l + u) / 2;
        if ranges[i].start <= key && key <= ranges[i].end {
          return i;
        } else if key < ranges[i].start {
          u := i - 1;
        } else {
          l := i + 1;
        }
      }
      return -1;
    }

    /** A window whose ends are in the wrong order keeps at most a range that contains both of them, if both are hit. */
    method GetRangesBounds(start: int, end: int) returns (lo: int, hi: int)
      ensures CutBySeeks(ranges, start, end, lo, hi)
      ensures Ordered(ranges) && start <= end ==>
        && 0 <= lo <= hi <= |ranges|
        && (Shows(ranges, start, end, lo, hi) <==> WillCover(ranges, start, end))
        && (OnlyMeeting(ranges, start, end, lo, hi) <==> WillBeTight(ranges, start, end))
      ensures Ordered(ranges) && start <= end ==>
        (Covers(ranges, start, end, lo, hi) <==>
          WillCover(ranges, start, end) && EndsTried(|ranges|, HitsAt(ranges, start), HitsAt(ranges, end)))
      ensures Ordered(ranges) && start > end && Hit(ranges, start) && Hit(ranges, end) ==>
        forall i :: 0 <= i < |ranges| && lo <= i < hi ==> Contains(ranges[i], start) && Contains(ranges[i], end)
    {
      var s := Search(start);
      var e := Search(end);
      if s == -1 && e == -1 {
        lo, hi := 0, 0;
      } else if s == -1 {
        lo, hi := 0, e + 1;
      } else if e == -1 {
        lo, hi := s, |ranges|;
      } else {
        lo, hi := s, e + 1;
      }
      assert CutBySeeks(ranges, start, end, lo, hi);
      RangesWindow(ranges, start, end, lo, hi);
    }
  }

  /** What a search that finds a range says of every other one. */
  lemma FoundFacts(ranges: seq<Range>, key: int, r: int)
    requires Ordered(ranges) && 0 <= r < |ranges| && Contains(ranges[r], key)
    ensures forall i :: 0 <= i < r ==> ranges[i].end <= key
    ensures forall i :: r < i < |ranges| ==> key <= ranges[i].start
    ensures forall i :: 0 <= i <= r ==> ranges[i].start <= key
    ensures forall i :: r <= i < |ranges| ==> key <= ranges[i].end
  {
  }

  /** What the bounds made of the results of the two searches keep. */
  lemma BoundsFacts(ranges: seq<Range>, start: int, end: int, s: int, e: int, lo: int, hi: int)
    requires Ordered(ranges) && start <= end && Finds(ranges, start, s) && Finds(ranges, end, e)
    requires start == end ==> s == e
    requires CutBy(ranges, s, e, lo, hi)
    ensures 0 <= lo <= hi <= |ranges|
    ensures Shows(ranges, start, end, lo, hi) <==> WillCover(ranges, start, end)
    ensures OnlyMeeting(ranges, start, end, lo, hi) <==> WillBeTight(ranges, start, end)
    ensures Covers(ranges, start, end, lo, hi) <==>
      && WillCover(ranges, start, end)
      && (s >= 0 ==> NoneBelow(HitsAt(ranges, start), s))
      && (e >= 0 ==> NoneAbove(HitsAt(ranges, end), e))
  {
    if s >= 0 {
      FoundFacts(ranges, start, s);
    }
    if e >= 0 {
      FoundFacts(ranges, end, e);
    }
    forall i | 0 <= i < |ranges|
      ensures Contains(ranges[i], start) <==> i in HitsAt(ranges, start)
      ensures Contains(ranges[i], end) <==> i in HitsAt(ranges, end)
    {
    }
    if s == -1 && e == -1 {
      MissFacts(ranges, start, end);
    }
  }

  /** All that holds of the bounds in ordered ranges. */
  lemma RangesWindow(ranges: seq<Range>, start: int, end: int, lo: int, hi: int)
    requires CutBySeeks(ranges, start, end, lo, hi)
    ensures Ordered(ranges) && start <= end ==>
      && 0 <= lo <= hi <= |ranges|
      && (Shows(ranges, start, end, lo, hi) <==> WillCover(ranges, start, end))
      && (OnlyMeeting(ranges, start, end, lo, hi) <==> WillBeTight(ranges, start, end))
    ensures Ordered(ranges) && start <= end ==>
      (Covers(ranges, start, end, lo, hi) <==>
        WillCover(ranges, start, end) && EndsTried(|ranges|, HitsAt(ranges, start), HitsAt(ranges, end)))
    ensures Ordered(ranges) && start > end && Hit(ranges, start) && Hit(ranges, end) ==>
      forall i :: 0 <= i < |ranges| && lo <= i < hi ==> Contains(ranges[i], start) && Contains(ranges[i], end)
  {
    var s, e := Seek(ranges, start, 0, |ranges| - 1), Seek(ranges, end, 0, |ranges| - 1);
    SeekMeans(ranges, start);
    SeekMeans(ranges, end);
    if Ordered(ranges) && start <= end {
      HitsTried(ranges, start);
      HitsTried(ranges, end);
      MissTried(ranges, start);
      MissTried(ranges, end);
      BoundsFacts(ranges, start, end, s, e, lo, hi);
    } else if Ordered(ranges) && s >= 0 && e >= 0 {
      FoundFacts(ranges, start, s);
      FoundFacts(ranges, end, e);
    }
  }

  /** Without a hit the ranges that meet the window are those inside it. */
  lemma MissFacts(ranges: seq<Range>, start: int, end: int)
    requires Ordered(ranges) && start <= end && !Hit(ranges, start) && !Hit(ranges, end)
    ensures forall i :: 0 <= i < |ranges| ==>
      (Meets(ranges[i], start, end) <==> start < ranges[i].start && ranges[i].end < end)
    ensures forall i :: 0 <= i < |ranges| ==>
      (Overlaps(ranges[i], start, end) <==> start < ranges[i].start && ranges[i].end < end)
  {
    assert forall i :: 0 <= i < |ranges| ==> !Contains(ranges[i], start) && !Contains(ranges[i], end);
  }

  /** Between two ends that miss every range lies one that the empty window leaves out. */
  lemma InsideIsMissed(ranges: seq<Range>)
    requires ranges == [Range(2, 3)]
    ensures Ordered(ranges) && Meets(ranges[0], 1, 5) && !WillCover(ranges, 1, 5) && !Covers(ranges, 1, 5, 0, 0)
  {
    assert SomeInside(ranges, 1, 5) by { assert 1 < ranges[0].start && ranges[0].end < 5; }
  }

  /** A start that misses every range lets the window begin with ranges that end before it. */
  lemma EarlierIsKept(ranges: seq<Range>)
    requires ranges == [Range(0, 1), Range(4, 5)]
    ensures Ordered(ranges) && WillCover(ranges, 2, 4) && !WillBeTight(ranges, 2, 4)
    ensures !Meets(ranges[0], 2, 4) && !OnlyMeeting(ranges, 2, 4, 0, 2)
  {
    assert Contains(ranges[1], 4);
    assert !Contains(ranges[0], 2) && !Contains(ranges[1], 2);
    assert !(2 <= ranges[0].end);
  }

  // ---------- events ----------

  ghost predicate Sorted(stamps: seq<int>) {
    forall i, j :: 0 <= i < j < |stamps| ==> stamps[i] <= stamps[j]
  }

  ghost predicate OnlyOnce(stamps: seq<int>, key: int) {
    forall i, j :: 0 <= i < j < |stamps| && stamps[i] == key ==> stamps[j] != key
  }

  /** Where the binary search between l and u ends: among equal stamps, at the first one that it tries. */
  function Probe(stamps: seq<int>, key: int, l: int, u: int): (r: int)
    requires 0 <= l <= u + 1 <= |stamps|
    ensures l <= r <= u + 1
    decreases u + 1 - l
  {
    if l > u then l
    else
      var i := (l + u) / 2;
      if key == stamps[i] then i
      else if key < stamps[i] then Probe(stamps, key, l, i - 1)
      else Probe(stamps, key, i + 1, u)
  }

  /** Nothing after key comes before r, nothing before key at r, and key is there exactly if it is anywhere. */
  ghost predicate Lands(stamps: seq<int>, key: int, r: int) {
    && 0 <= r <= |stamps|
    && (r < |stamps| ==> key <= stamps[r])
    && (forall i :: 0 <= i < r ==> stamps[i] <= key)
    && (key in stamps <==> r < |stamps| && stamps[r] == key)
  }

  lemma {:induction false} ProbeFinds(stamps: seq<int>, key: int, l: int, u: int)
    requires Sorted(stamps) && 0 <= l <= u + 1 <= |stamps|
    requires forall i :: 0 <= i < l ==> stamps[i] < key
    requires forall i :: u < i < |stamps| ==> key < stamps[i]
    ensures Lands(stamps, key, Probe(stamps, key, l, u))
    decreases u + 1 - l
  {
    if l <= u {
      var i := (l + u) / 2;
      if key < stamps[i] {
        ProbeFinds(stamps, key, l, i - 1);
      } else if key > stamps[i] {
        ProbeFinds(stamps, key, i + 1, u);
      }
    } else {
      assert forall i :: 0 <= i < |stamps| ==> stamps[i] != key;
    }
  }

  lemma ProbeMeans(stamps: seq<int>, key: int)
    ensures Sorted(stamps) ==> Lands(stamps, key, Probe(stamps, key, 0, |stamps| - 1))
  {
    if Sorted(stamps) {
      ProbeFinds(stamps, key, 0, |stamps| - 1);
    }
  }

  /** The window keeps every event strictly between its ends. */
  ghost predicate KeepsInside(stamps: seq<int>, start: int, end: int, lo: int, hi: int) {
    forall i :: 0 <= i < |stamps| && start < stamps[i] < end ==> lo <= i < hi
  }

  /** It keeps those at its ends too. */
  ghost predicate KeepsAll(stamps: seq<int>, start: int, end: int, lo: int, hi: int) {
    forall i :: 0 <= i < |stamps| && start <= stamps[i] <= end ==> lo <= i < hi
  }

  /** Nothing before the start is in it, and after the end at most its last event. */
  ghost predicate AtMostOneMore(stamps: seq<int>, start: int, end: int, lo: int, hi: int) {
    forall i :: 0 <= i < |stamps| && lo <= i < hi ==> start <= stamps[i] && (stamps[i] <= end || i == hi - 1)
  }

  ghost predicate NothingLater(stamps: seq<int>, end: int, lo: int, hi: int) {
    forall i :: 0 <= i < |stamps| && lo <= i < hi ==> stamps[i] <= end
  }

  /** An event lies at the end, or none after it. */
  ghost predicate EndIsMet(stamps: seq<int>, end: int) {
    end in stamps || forall i :: 0 <= i < |stamps| ==> stamps[i] <= end
  }

  /** The window that `get_events_bounds` cuts keeps every event from its start to its end. */
  ghost predicate Keeps(stamps: seq<int>, start: int, end: int) {
    var last := |stamps| - 1;
    KeepsAll(stamps, start, end, Probe(stamps, start, 0, last), Probe(stamps, end, 0, last) + 1)
  }

  /** Strictly between the ends nothing is lost, and at them nothing that is the only event of its time. */
  lemma WindowKeeps(stamps: seq<int>, start: int, end: int, lo: nat, hi: nat)
    requires Sorted(stamps) && Lands(stamps, start, lo) && hi > 0 && Lands(stamps, end, hi - 1)
    ensures KeepsInside(stamps, start, end, lo, hi)
    ensures OnlyOnce(stamps, start) && OnlyOnce(stamps, end) ==> KeepsAll(stamps, start, end, lo, hi)
  {
    forall i | hi <= i < |stamps|
      ensures end <= stamps[i]
    {
      assert stamps[hi - 1] <= stamps[i];
    }
    if OnlyOnce(stamps, start) {
      assert forall i :: 0 <= i < lo ==> stamps[i] != start;
    }
    if OnlyOnce(stamps, end) {
      assert forall i :: hi <= i < |stamps| ==> stamps[i] != end;
    }
  }

  function EventsAt(stamps: seq<int>, key: int): set<int> {
    set i | 0 <= i < |stamps| && stamps[i] == key
  }

  /** Of equal stamps the search stops at the one that a bisection tries first. */
  lemma {:induction false} ProbeIsFirstTried(stamps: seq<int>, key: int, l: int, u: int, j: int)
    requires Sorted(stamps) && 0 <= l <= j <= u < |stamps| && stamps[j] == key
    ensures
      var r := Probe(stamps, key, l, u);
      r <= u && stamps[r] == key && (r != j ==> Rounds(r, l, u) < Rounds(j, l, u))
    decreases u - l
  {
    var i := (l + u) / 2;
    if key < stamps[i] {
      ProbeIsFirstTried(stamps, key, l, i - 1, j);
    } else if key > stamps[i] {
      ProbeIsFirstTried(stamps, key, i + 1, u, j);
    }
  }

  /** The search passes over no event of that time on one side exactly when the one at that end is tried first. */
  lemma EventsTried(stamps: seq<int>, key: int)
    requires Sorted(stamps)
    ensures
      var r, events := Probe(stamps, key, 0, |stamps| - 1), EventsAt(stamps, key);
      && (FirstTried(|stamps|, events) <==> NoneBelow(events, r))
      && (LastTried(|stamps|, events) <==> NoneAbove(events, r))
  {
    var n, r, events := |stamps| - 1, Probe(stamps, key, 0, |stamps| - 1), EventsAt(stamps, key);
    forall i | i in events
      ensures r in events && (r != i ==> Rounds(r, 0, n) < Rounds(i, 0, n))
    {
      ProbeIsFirstTried(stamps, key, 0, n, i);
    }
    if r in events {
      TriedFirst(|stamps|, events, r);
    }
  }

  /**
   When a window keeps all events: among those at its start the bisection must come
   to the first one first, and among those at its end to the last one.
   */
  lemma KeepsIffTried(stamps: seq<int>, start: int, end: int)
    requires Sorted(stamps) && start <= end
    ensures Keeps(stamps, start, end) <==> EndsTried(|stamps|, EventsAt(stamps, start), EventsAt(stamps, end))
  {
    EventsTried(stamps, start);
    EventsTried(stamps, end);
    ProbeMeans(stamps, start);
    ProbeMeans(stamps, end);
    WindowCuts(stamps, start, end, Probe(stamps, start, 0, |stamps| - 1), Probe(stamps, end, 0, |stamps| - 1));
  }

  /** The events that a window loses are those at its ends that the searches pass over. */
  lemma WindowCuts(stamps: seq<int>, start: int, end: int, lo: nat, e: nat)
    requires Sorted(stamps) && start <= end && Lands(stamps, start, lo) && Lands(stamps, end, e)
    ensures KeepsAll(stamps, start, end, lo, e + 1) <==>
      NoneBelow(EventsAt(stamps, start), lo) && NoneAbove(EventsAt(stamps, end), e)
  {
    forall i | e < i < |stamps|
      ensures end <= stamps[i]
    {
      assert stamps[e] <= stamps[i];
    }
    forall i | 0 <= i < |stamps|
      ensures stamps[i] == start <==> i in EventsAt(stamps, start)
      ensures stamps[i] == end <==> i in EventsAt(stamps, end)
    {
    }
  }

  /** A window of one instant keeps all its events exactly when there are no two of them. */
  lemma InstantKeepsIffOnlyOnce(stamps: seq<int>, at: int)
    requires Sorted(stamps)
    ensures Keeps(stamps, at, at) <==> OnlyOnce(stamps, at)
  {
    var r := Probe(stamps, at, 0, |stamps| - 1);
    ProbeMeans(stamps, at);
    WindowKeeps(stamps, at, at, r, r + 1);
  }

  /** Every window keeps all its events exactly when no two events have the same time. */
  lemma AllWindowsKeepIffDistinct(stamps: seq<int>)
    requires Sorted(stamps)
    ensures (forall start, end :: start <= end ==> Keeps(stamps, start, end)) <==> forall t :: OnlyOnce(stamps, t)
  {
    if forall start, end :: start <= end ==> Keeps(stamps, start, end) {
      forall t
        ensures OnlyOnce(stamps, t)
      {
        InstantKeepsIffOnlyOnce(stamps, t);
      }
    }
    if forall t :: OnlyOnce(stamps, t) {
      forall start, end | start <= end
        ensures Keeps(stamps, start, end)
      {
        ProbeMeans(stamps, start);
        ProbeMeans(stamps, end);
        WindowKeeps(stamps, start, end, Probe(stamps, start, 0, |stamps| - 1), Probe(stamps, end, 0, |stamps| - 1) + 1);
      }
    }
  }

  /** Which later event they add: the one the search for the end stops at, if no event lies there. */
  lemma WindowAdds(stamps: seq<int>, start: int, end: int, lo: nat, hi: nat)
    requires Sorted(stamps) && Lands(stamps, start, lo) && hi > 0 && Lands(stamps, end, hi - 1)
    ensures AtMostOneMore(stamps, start, end, lo, hi)
    ensures start <= end ==> (NothingLater(stamps, end, lo, hi) <==> EndIsMet(stamps, end))
  {
    forall i | lo <= i < |stamps|
      ensures start <= stamps[i]
    {
      assert stamps[lo] <= stamps[i];
    }
    if start <= end && hi <= |stamps| {
      assert lo < hi || stamps[hi - 1] == start;
    }
  }

  /** Of three events at one time the window from that time to itself keeps the middle one only. */
  lemma EqualStampsAreCut()
    ensures Probe([1, 1, 1], 1, 0, 2) == 1 && !KeepsAll([1, 1, 1], 1, 1, 1, 2)
  {
    assert [1, 1, 1][0] == 1;
  }

  /** The bounds begin where the search for the start ends and end after the event where that for the end does. */
  predicate CutByProbes(stamps: seq<int>, start: int, end: int, lo: int, hi: int) {
    lo == Probe(stamps, start, 0, |stamps| - 1) && hi == Probe(stamps, end, 0, |stamps| - 1) + 1
  }

  /** All that holds of the window of sorted events. */
  lemma EventsWindow(stamps: seq<int>, start: int, end: int, lo: nat, hi: nat)
    requires CutByProbes(stamps, start, end, lo, hi)
    ensures Sorted(stamps) ==>
      && KeepsInside(stamps, start, end, lo, hi) && AtMostOneMore(stamps, start, end, lo, hi)
      && (start <= end ==>
           (KeepsAll(stamps, start, end, lo, hi) <==>
             EndsTried(|stamps|, EventsAt(stamps, start), EventsAt(stamps, end))))
      && (start == end ==> (KeepsAll(stamps, start, end, lo, hi) <==> OnlyOnce(stamps, start)))
      && (OnlyOnce(stamps, start) && OnlyOnce(stamps, end) ==> KeepsAll(stamps, start, end, lo, hi))
      && (start <= end ==> (NothingLater(stamps, end, lo, hi) <==> EndIsMet(stamps, end)))
  {
    if Sorted(stamps) {
      ProbeMeans(stamps, start);
      ProbeMeans(stamps, end);
      WindowKeeps(stamps, start, end, lo, hi);
      WindowAdds(stamps, start, end, lo, hi);
      if start <= end {
        KeepsIffTried(stamps, start, end);
      }
      if start == end {
        InstantKeepsIffOnlyOnce(stamps, start);
      }
    }
  }

  class TimelineEvent {
    /** The `at` of every event. */
    var stamps: seq<int>

    constructor ()
      ensures stamps == []
    {
      stamps := [];
    }

    method AddEvent(at: int)
      modifies this
      ensures stamps == old(stamps) + [at]
    {
      stamps := stamps + [at];
    }

    /** In sorted events the index of one at the key, or of the first one after it. */
    method Search(key: int) returns (r: nat)
      ensures r == Probe(stamps, key, 0, |stamps| - 1)
      ensures Sorted(stamps) ==> Lands(stamps, key, r)
    {
      ProbeMeans(stamps, key);
      var l, u := 0, |stamps| - 1;
      while l <= u
        invariant 0 <= l <= u + 1 <= |stamps|
        invariant Probe(stamps, key, l, u) == Probe(stamps, key, 0, |stamps| - 1)
        decreases u - l
      {
        var i := (l + u) / 2;
        if key == stamps[i] {
          return i;
        } else if key < stamps[i] {
          u := i - 1;
        } else {
          l := i + 1;
        }
      }
      return l;
    }

    /**
     In sorted events the window keeps every event strictly inside it, and those at
     its ends too unless the bisection comes to the wrong one of several; it adds at
     most the first later event.
     */
    method GetEventsBounds(start: int, end: int) returns (lo: nat, hi: nat)
      ensures CutByProbes(stamps, start, end, lo, hi)
      ensures Sorted(stamps) ==>
        && KeepsInside(stamps, start, end, lo, hi) && AtMostOneMore(stamps, start, end, lo, hi)
        && (start <= end ==>
             (KeepsAll(stamps, start, end, lo, hi) <==>
               EndsTried(|stamps|, EventsAt(stamps, start), EventsAt(stamps, end))))
        && (start == end ==> (KeepsAll(stamps, start, end, lo, hi) <==> OnlyOnce(stamps, start)))
        && (OnlyOnce(stamps, start) && OnlyOnce(stamps, end) ==> KeepsAll(stamps, start, end, lo, hi))
        && (start <= end ==> (NothingLater(stamps, end, lo, hi) <==> EndIsMet(stamps, end)))
    {
      var s := Search(start);
      var e := Search(end);
      lo, hi := s, e + 1;
      assert CutByProbes(stamps, start, end, lo, hi);
      EventsWindow(stamps, start, end, lo, hi);
    }
  }
}
