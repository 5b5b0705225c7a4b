/** Half-open intervals of integer nanoseconds (or sectors) and the time they share with a window.
    Every accounting result of the project reduces to counting, for each point of a window,
    how many intervals cover it. */
module Intervals {

  datatype Interval = Interval(start: int, end: int)

  function Max(a: int, b: int): int {
    if a < b then b else a
  }

  function Min(a: int, b: int): int {
    if b < a then b else a
  }

  /** Length of the part of `s` inside the window [lo, hi). */
  function Overlap(s: Interval, lo: int, hi: int): nat {
    Max(0, Min(s.end, hi) - Max(s.start, lo))
  }

  /** How many points of the window lie at or after `start` and before `end`. */
  ghost function PointsIn(start: int, end: int, lo: int, hi: int): nat
    decreases hi - lo
  {
    if hi <= lo then 0 else PointsIn(start, end, lo, hi - 1) + if start <= hi - 1 < end then 1 else 0
  }

  lemma {:induction false} OverlapCountsPoints(s: Interval, lo: int, hi: int)
    ensures Overlap(s, lo, hi) == PointsIn(s.start, s.end, lo, hi)
    decreases hi - lo
  {
    if lo < hi {
      OverlapCountsPoints(s, lo, hi - 1);
    }
  }

  function TotalOverlap(ss: seq<Interval>, lo: int, hi: int): nat {
    if ss == [] then 0 else TotalOverlap(ss[..|ss| - 1], lo, hi) + Overlap(ss[|ss| - 1], lo, hi)
  }

  predicate Covers(s: Interval, p: int) {
    s.start <= p < s.end
  }

  /** How many of the intervals contain the point `p`. */
  function Covering(ss: seq<Interval>, p: int): nat {
    if ss == [] then 0
    else Covering(ss[..|ss| - 1], p) + if Covers(ss[|ss| - 1], p) then 1 else 0
  }

  /** No point lies in both (an empty interval is disjoint from everything). */
  predicate Disjoint(a: Interval, b: Interval) {
    Max(a.start, b.start) >= Min(a.end, b.end)
  }

  ghost predicate PairwiseDisjoint(ss: seq<Interval>) {
    forall i, j :: 0 <= i < j < |ss| ==> Disjoint(ss[i], ss[j])
  }

  /** Cutting a window in two splits the shared time. */
  lemma {:induction false} TotalOverlapSplits(ss: seq<Interval>, lo: int, mid: int, hi: int)
    requires lo <= mid <= hi
    ensures TotalOverlap(ss, lo, hi) == TotalOverlap(ss, lo, mid) + TotalOverlap(ss, mid, hi)
  {
    if ss != [] {
      TotalOverlapSplits(ss[..|ss| - 1], lo, mid, hi);
    }
  }

  lemma {:induction false} TotalOverlapAtPoint(ss: seq<Interval>, p: int)
    ensures TotalOverlap(ss, p, p + 1) == Covering(ss, p)
  {
    if ss != [] {
      TotalOverlapAtPoint(ss[..|ss| - 1], p);
    }
  }

  lemma {:induction false} EmptyWindow(ss: seq<Interval>, lo: int, hi: int)
    requires hi <= lo
    ensures TotalOverlap(ss, lo, hi) == 0
  {
    if ss != [] {
      EmptyWindow(ss[..|ss| - 1], lo, hi);
    }
  }

  lemma {:induction false} DropLastPoint(ss: seq<Interval>, lo: int, hi: int)
    requires lo < hi
    ensures TotalOverlap(ss, lo, hi) == TotalOverlap(ss, lo, hi - 1) + Covering(ss, hi - 1)
  {
    TotalOverlapSplits(ss, lo, hi - 1, hi);
    TotalOverlapAtPoint(ss, hi - 1);
  }

  /** If no point of the window is covered more than `k` times, the shared time is at most `k` windows. */
  lemma {:induction false} TotalOverlapAtMost(ss: seq<Interval>, lo: int, hi: int, k: nat)
    requires lo <= hi
    requires forall p :: lo <= p < hi ==> Covering(ss, p) <= k
    ensures TotalOverlap(ss, lo, hi) <= k * (hi - lo)
    decreases hi - lo
  {
    if lo == hi {
      EmptyWindow(ss, lo, hi);
    } else {
      TotalOverlapAtMost(ss, lo, hi - 1, k);
      DropLastPoint(ss, lo, hi);
      assert k * (hi - lo) == k * (hi - 1 - lo) + k;
    }
  }

  /** If every point of the window is covered exactly once, the shared time is the whole window. */
  lemma {:induction false} TotalOverlapExact(ss: seq<Interval>, lo: int, hi: int)
    requires lo <= hi
    requires forall p :: lo <= p < hi ==> Covering(ss, p) == 1
    ensures TotalOverlap(ss, lo, hi) == hi - lo
    decreases hi - lo
  {
    if lo == hi {
      EmptyWindow(ss, lo, hi);
    } else {
      TotalOverlapExact(ss, lo, hi - 1);
      DropLastPoint(ss, lo, hi);
    }
  }

  /** Two families that cover every point of a window equally often share equal time with it;
      and if one covers each point at least as often, equal totals force equal coverage. */
  lemma {:induction false} CompareCoverage(a: seq<Interval>, b: seq<Interval>, lo: int, hi: int)
    requires lo <= hi
    requires forall p :: lo <= p < hi ==> Covering(a, p) <= Covering(b, p)
    ensures TotalOverlap(a, lo, hi) <= TotalOverlap(b, lo, hi)
    ensures TotalOverlap(a, lo, hi) == TotalOverlap(b, lo, hi) ==>
              forall p :: lo <= p < hi ==> Covering(a, p) == Covering(b, p)
    decreases hi - lo
  {
    if lo == hi {
      EmptyWindow(a, lo, hi);
      EmptyWindow(b, lo, hi);
    } else {
      CompareCoverage(a, b, lo, hi - 1);
      DropLastPoint(a, lo, hi);
      DropLastPoint(b, lo, hi);
    }
  }

  lemma {:induction false} NotCovering(ss: seq<Interval>, p: int)
    ensures Covering(ss, p) == 0 <==> forall i :: 0 <= i < |ss| ==> !Covers(ss[i], p)
  {
    if ss != [] {
      NotCovering(ss[..|ss| - 1], p);
      assert forall i :: 0 <= i < |ss| - 1 ==> ss[..|ss| - 1][i] == ss[i];
    }
  }

  lemma {:induction false} DisjointCoveredOnce(ss: seq<Interval>, p: int)
    requires PairwiseDisjoint(ss)
    ensures Covering(ss, p) <= 1
  {
    if ss != [] {
      var front, last := ss[..|ss| - 1], ss[|ss| - 1];
      DisjointCoveredOnce(front, p);
      NotCovering(front, p);
      if Covers(last, p) {
        forall i | 0 <= i < |front| ensures !Covers(front[i], p) {
          assert Disjoint(ss[i], ss[|ss| - 1]);
        }
      }
    }
  }

  lemma {:induction false} CoveredTwice(ss: seq<Interval>, i: nat, j: nat, p: int)
    requires i < j < |ss| && Covers(ss[i], p) && Covers(ss[j], p)
    ensures Covering(ss, p) >= 2
  {
    var front := ss[..|ss| - 1];
    if j < |front| {
      CoveredTwice(front, i, j, p);
    } else {
      NotCovering(front, p);
      assert front[i] == ss[i];
    }
  }

  /** Pairwise disjointness means: no point is covered twice. */
  lemma DisjointIffCoveredOnce(ss: seq<Interval>)
    ensures PairwiseDisjoint(ss) <==> forall p :: Covering(ss, p) <= 1
  {
    if PairwiseDisjoint(ss) {
      forall p ensures Covering(ss, p) <= 1 {
        DisjointCoveredOnce(ss, p);
      }
    } else {
      var i, j :| 0 <= i < j < |ss| && !Disjoint(ss[i], ss[j]);
      CoveredTwice(ss, i, j, Max(ss[i].start, ss[j].start));
    }
  }
}
