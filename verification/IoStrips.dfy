/** Merging I/O requests of one device into strips for the sector chart. */
module IoStrips {
  import opened Intervals
  import opened StableSort

  /** A request covers the sectors [start, start + length). */
  datatype Request = Request(start: int, length: nat)

  datatype Strip = Strip(start: int, length: nat, color: int)

  function StartOf(r: Request): int { r.start }

  function SumLengths(rs: seq<Request>): nat {
    if rs == [] then 0 else SumLengths(rs[..|rs| - 1]) + rs[|rs| - 1].length
  }

  function SumStrips(ss: seq<Strip>): nat {
    if ss == [] then 0 else SumStrips(ss[..|ss| - 1]) + ss[|ss| - 1].length
  }

  function End(s: Strip): int { s.start + s.length }

  // ---------------------------------------------------------------- the merge, step by step

  /** A request joins the growing strip or starts the next one. */
  function Extend(ss: seq<Strip>, r: Request, threshold: int): (ss': seq<Strip>)
    requires ss != []
    ensures ss' != []
  {
    var last := ss[|ss| - 1];
    if r.start <= End(last) + threshold
    then ss[..|ss| - 1] + [Strip(last.start, last.length + r.length, last.color)]
    else ss + [Strip(r.start, r.length, (last.color + 1) % 2)]
  }

  /** Strips of the first requests in sorted order; the last strip is the one still growing. */
  function Grow(rs: seq<Request>, threshold: int): (ss: seq<Strip>)
    requires rs != []
    ensures ss != []
  {
    var r := rs[|rs| - 1];
    if |rs| == 1 then [Strip(r.start, r.length, 0)]
    else Extend(Grow(rs[..|rs| - 1], threshold), r, threshold)
  }

  /** The growing strip is only kept when it has a sector. */
  function Finish(ss: seq<Strip>): seq<Strip>
    requires ss != []
  {
    if ss[|ss| - 1].length > 0 then ss else ss[..|ss| - 1]
  }

  /** The loop over the sorted requests. */
  method MergeSorted(sorted: seq<Request>, threshold: int) returns (strips: seq<Strip>)
    requires sorted != []
    ensures strips == Finish(Grow(sorted, threshold))
  {
    strips := [];
    var start, length: nat, color := sorted[0].start, sorted[0].length, 0;
    var end := start + length;
    assert sorted[..1] == [sorted[0]];
    var i := 1;
    while i < |sorted|
      invariant 1 <= i <= |sorted|
      invariant end == start + length
      invariant Grow(sorted[..i], threshold) == strips + [Strip(start, length, color)]
    {
      var seg := sorted[i];
      assert sorted[..i + 1][..i] == sorted[..i];
      if seg.start <= end + threshold {
        length := length + seg.length;
        end := start + length;
      } else {
        strips := strips + [Strip(start, length, color)];
        start, length, color := seg.start, seg.length, (color + 1) % 2;
        end := start + length;
      }
      i := i + 1;
    }
    assert sorted[..i] == sorted;
    if length > 0 {
      strips := strips + [Strip(start, length, color)];
    }
  }

  method MergeSegments(requests: seq<Request>, threshold: int) returns (strips: seq<Strip>, sorted: seq<Request>)
    ensures SortedBy(sorted, StartOf) && multiset(sorted) == multiset(requests)
    ensures strips == if requests == [] then [] else Finish(Grow(sorted, threshold))
  {
    if |requests| == 0 {
      return [], [];
    }
    sorted := Sort(requests, StartOf);
    strips := MergeSorted(sorted, threshold);
  }

  // ---------------------------------------------------------------- strips as groups of requests

  /** The strip is made of the requests from `i` up to `j`: it starts with the first and is as long as all of them, and
      each further one starts at most the threshold beyond what came before it. */
  ghost predicate IsGroup(sorted: seq<Request>, threshold: int, i: nat, j: nat, s: Strip) {
    && i < j <= |sorted| && s.start == sorted[i].start && s.length == SumLengths(sorted[i..j])
    && forall k :: i < k < j ==> sorted[k].start <= s.start + SumLengths(sorted[i..k]) + threshold
  }

  /** The requests, in groups that begin at the places `at`, make the strips: a group ends where the next request starts
      more than the threshold beyond it, and colours alternate. */
  ghost predicate AreGroups(sorted: seq<Request>, threshold: int, at: seq<nat>, ss: seq<Strip>) {
    && ss != [] && |at| == |ss| + 1 && at[0] == 0 && at[|ss|] == |sorted|
    && forall k: nat :: k < |ss| ==> IsGroupAt(sorted, threshold, at, ss, k)
  }

  ghost predicate IsGroupAt(sorted: seq<Request>, threshold: int, at: seq<nat>, ss: seq<Strip>, k: nat)
    requires |at| == |ss| + 1 && k < |ss|
  {
    && IsGroup(sorted, threshold, at[k], at[k + 1], ss[k])
    && (k > 0 ==> ss[k].start > ss[k - 1].start + ss[k - 1].length + threshold)
    && ss[k].color == k % 2
  }

  lemma GroupBefore(front: seq<Request>, r: Request, threshold: int, i: nat, j: nat, s: Strip)
    requires IsGroup(front, threshold, i, j, s)
    ensures IsGroup(front + [r], threshold, i, j, s)
  {
    var rs := front + [r];
    SliceBefore(front, r, i, j);
    forall k | i < k < j ensures rs[k].start <= s.start + SumLengths(rs[i..k]) + threshold {
      SliceBefore(front, r, i, k);
    }
  }

  lemma SliceBefore(front: seq<Request>, r: Request, i: nat, k: nat)
    requires i <= k <= |front|
    ensures (front + [r])[i..k] == front[i..k]
  {
  }

  lemma SliceWith(front: seq<Request>, r: Request, i: nat)
    requires i <= |front|
    ensures (front + [r])[i..|front| + 1] == front[i..|front|] + [r]
  {
  }

  lemma GroupGrows(front: seq<Request>, r: Request, threshold: int, i: nat, s: Strip)
    requires IsGroup(front, threshold, i, |front|, s) && r.start <= s.start + s.length + threshold
    ensures IsGroup(front + [r], threshold, i, |front| + 1, Strip(s.start, s.length + r.length, s.color))
  {
    var rs, n := front + [r], |front|;
    forall k | i < k < n + 1 ensures rs[k].start <= s.start + SumLengths(rs[i..k]) + threshold {
      SliceBefore(front, r, i, k);
    }
    SliceWith(front, r, i);
    SumOneMore(front[i..n], r);
  }

  lemma SumOneMore(rs: seq<Request>, r: Request)
    ensures SumLengths(rs + [r]) == SumLengths(rs) + r.length
  {
    assert (rs + [r])[..|rs|] == rs;
  }

  lemma GroupOfOne(front: seq<Request>, r: Request, threshold: int, color: int)
    ensures IsGroup(front + [r], threshold, |front|, |front| + 1, Strip(r.start, r.length, color))
  {
    assert (front + [r])[|front|..] == [r] && [r][..0] == [];
  }

  lemma GroupJoined(front: seq<Request>, r: Request, threshold: int, at: seq<nat>, before: seq<Strip>,
                    at': seq<nat>, after: seq<Strip>)
    requires AreGroups(front, threshold, at, before) && after == Extend(before, r, threshold)
    requires at' == at[..|before|] + [|front| + 1]
    requires r.start <= before[|before| - 1].start + before[|before| - 1].length + threshold
    ensures AreGroups(front + [r], threshold, at', after)
  {
    var n := |before| - 1;
    assert IsGroupAt(front, threshold, at, before, n);
    GroupGrows(front, r, threshold, at[n], before[n]);
    forall k: nat | k < n ensures IsGroupAt(front + [r], threshold, at', after, k) {
      assert IsGroupAt(front, threshold, at, before, k);
      GroupBefore(front, r, threshold, at[k], at[k + 1], before[k]);
    }
  }

  lemma GroupAdded(front: seq<Request>, r: Request, threshold: int, at: seq<nat>, before: seq<Strip>,
                   at': seq<nat>, after: seq<Strip>)
    requires AreGroups(front, threshold, at, before) && after == Extend(before, r, threshold)
    requires at' == at + [|front| + 1]
    requires r.start > before[|before| - 1].start + before[|before| - 1].length + threshold
    ensures AreGroups(front + [r], threshold, at', after)
  {
    var n := |before|;
    assert IsGroupAt(front, threshold, at, before, n - 1);
    GroupOfOne(front, r, threshold, after[n].color);
    assert IsGroupAt(front + [r], threshold, at', after, n);
    forall k: nat | k < n ensures IsGroupAt(front + [r], threshold, at', after, k) {
      assert IsGroupAt(front, threshold, at, before, k);
      GroupBefore(front, r, threshold, at[k], at[k + 1], before[k]);
    }
  }

  lemma {:induction false} GrowMakesGroups(rs: seq<Request>, threshold: int) returns (at: seq<nat>)
    requires rs != []
    ensures AreGroups(rs, threshold, at, Grow(rs, threshold))
  {
    var front, r := rs[..|rs| - 1], rs[|rs| - 1];
    assert rs == front + [r];
    if |rs| == 1 {
      GroupOfOne(front, r, threshold, 0);
      return [0, 1];
    }
    at := GrowMakesGroups(front, threshold);
    var before := Grow(front, threshold);
    if r.start <= before[|before| - 1].start + before[|before| - 1].length + threshold {
      GroupJoined(front, r, threshold, at, before, at[..|before|] + [|rs|], Grow(rs, threshold));
      at := at[..|before|] + [|rs|];
    } else {
      GroupAdded(front, r, threshold, at, before, at + [|rs|], Grow(rs, threshold));
      at := at + [|rs|];
    }
  }

  /** The strips of the merge: the groups of the sorted requests, without a last one that has no sector. */
  lemma StripsAreGroups(rs: seq<Request>, threshold: int) returns (at: seq<nat>, groups: seq<Strip>)
    requires rs != []
    ensures AreGroups(rs, threshold, at, groups)
    ensures var n := |groups| - 1; Finish(Grow(rs, threshold)) == if groups[n].length > 0 then groups else groups[..n]
  {
    groups := Grow(rs, threshold);
    at := GrowMakesGroups(rs, threshold);
  }

  // ---------------------------------------------------------------- layout and conservation

  ghost predicate Separated(ss: seq<Strip>, threshold: int) {
    && (forall i, j :: 0 <= i && j == i + 1 < |ss| ==> ss[i].start + ss[i].length + threshold < ss[j].start)
    && (forall i :: 0 <= i < |ss| ==> ss[i].color == i % 2)
  }

  lemma FirstStrip(s: Strip, threshold: int)
    requires s.color == 0
    ensures Separated([s], threshold) && SumStrips([s]) == s.length
  {
    assert [s][..0] == [];
  }

  lemma AppendStrip(ss: seq<Strip>, threshold: int, s: Strip)
    requires ss != [] && Separated(ss, threshold)
    requires End(ss[|ss| - 1]) + threshold < s.start && s.color == (ss[|ss| - 1].color + 1) % 2
    ensures Separated(ss + [s], threshold) && SumStrips(ss + [s]) == SumStrips(ss) + s.length
  {
    assert (ss + [s])[..|ss|] == ss;
  }

  lemma GrowLast(ss: seq<Strip>, threshold: int, extra: nat)
    requires ss != [] && Separated(ss, threshold)
    ensures var last := ss[|ss| - 1];
            var ss' := ss[..|ss| - 1] + [Strip(last.start, last.length + extra, last.color)];
            Separated(ss', threshold) && SumStrips(ss') == SumStrips(ss) + extra
  {
    var last := ss[|ss| - 1];
    var ss' := ss[..|ss| - 1] + [Strip(last.start, last.length + extra, last.color)];
    assert ss'[..|ss'| - 1] == ss[..|ss| - 1];
    forall i, j | 0 <= i && j == i + 1 < |ss'| ensures End(ss'[i]) + threshold < ss'[j].start {
      assert End(ss[i]) + threshold < ss[j].start;
    }
  }

  lemma GrowStep(before: seq<Strip>, r: Request, threshold: int, after: seq<Strip>)
    requires before != [] && Separated(before, threshold) && after == Extend(before, r, threshold)
    ensures Separated(after, threshold) && SumStrips(after) == SumStrips(before) + r.length
  {
    var last := before[|before| - 1];
    if r.start <= End(last) + threshold {
      GrowLast(before, threshold, r.length);
    } else {
      AppendStrip(before, threshold, Strip(r.start, r.length, (last.color + 1) % 2));
    }
  }

  /** Strips are more than the threshold apart and alternate in colour, and no sector is lost. */
  lemma {:induction false} GrowLayout(rs: seq<Request>, threshold: int)
    requires rs != []
    ensures Separated(Grow(rs, threshold), threshold) && SumStrips(Grow(rs, threshold)) == SumLengths(rs)
  {
    var front, r := rs[..|rs| - 1], rs[|rs| - 1];
    if |rs| == 1 {
      FirstStrip(Strip(r.start, r.length, 0), threshold);
      return;
    }
    GrowLayout(front, threshold);
    GrowStep(Grow(front, threshold), r, threshold, Grow(rs, threshold));
  }

  lemma FinishLayout(rs: seq<Request>, threshold: int)
    requires rs != []
    ensures var ss := Finish(Grow(rs, threshold));
            Separated(ss, threshold) && SumStrips(ss) == SumLengths(rs)
  {
    GrowLayout(rs, threshold);
  }

  // ---------------------------------------------------------------- covering at threshold 0

  function Spans(rs: seq<Request>): seq<Interval> {
    seq(|rs|, i requires 0 <= i < |rs| => Interval(rs[i].start, rs[i].start + rs[i].length))
  }

  function StripSpans(ss: seq<Strip>): seq<Interval> {
    seq(|ss|, i requires 0 <= i < |ss| => Interval(ss[i].start, ss[i].start + ss[i].length))
  }

  lemma {:induction false} StripsInOrder(ss: seq<Strip>, i: nat, j: nat)
    requires Separated(ss, 0) && i < j < |ss|
    ensures End(ss[i]) < ss[j].start
    decreases j
  {
    if i + 1 < j {
      StripsInOrder(ss, i, j - 1);
      assert End(ss[j - 1]) + 0 < ss[j - 1 + 1].start;
    } else {
      assert End(ss[i]) + 0 < ss[i + 1].start;
    }
  }

  lemma StripsDisjoint(ss: seq<Strip>)
    requires Separated(ss, 0)
    ensures PairwiseDisjoint(StripSpans(ss))
  {
    forall i, j | 0 <= i < j < |ss| ensures Disjoint(StripSpans(ss)[i], StripSpans(ss)[j]) {
      StripsInOrder(ss, i, j);
    }
  }

  /** Strip `s` holds every sector of request `r`. */
  predicate Holds(s: Strip, r: Request) {
    s.start <= r.start && r.start + r.length <= s.start + s.length
  }

  ghost predicate HeldBySome(ss: seq<Strip>, r: Request) {
    exists k :: 0 <= k < |ss| && Holds(ss[k], r)
  }

  lemma HeldAfterExtend(before: seq<Strip>, r: Request, q: Request)
    requires before != [] && HeldBySome(before, q)
    ensures HeldBySome(Extend(before, r, 0), q)
  {
    var k :| 0 <= k < |before| && Holds(before[k], q);
    assert Holds(Extend(before, r, 0)[k], q);
  }

  lemma NewIsHeld(before: seq<Strip>, r: Request)
    requires before != [] && before[|before| - 1].start <= r.start
    ensures HeldBySome(Extend(before, r, 0), r)
  {
    var after := Extend(before, r, 0);
    assert Holds(after[|after| - 1], r);
  }

  lemma {:induction false} LastStartsBefore(rs: seq<Request>, threshold: int)
    requires rs != [] && SortedBy(rs, StartOf)
    ensures Grow(rs, threshold)[|Grow(rs, threshold)| - 1].start <= rs[|rs| - 1].start
  {
    if |rs| > 1 {
      LastStartsBefore(rs[..|rs| - 1], threshold);
      assert StartOf(rs[|rs| - 2]) <= StartOf(rs[|rs| - 1]);
    }
  }

  /** At threshold 0 every request lies inside one strip, overlapping or not. */
  lemma {:induction false} EveryRequestIsHeld(rs: seq<Request>, n: nat)
    requires SortedBy(rs, StartOf) && n < |rs|
    ensures HeldBySome(Grow(rs, 0), rs[n])
  {
    var front, r := rs[..|rs| - 1], rs[|rs| - 1];
    if |rs| == 1 {
      assert Holds(Grow(rs, 0)[0], r);
      return;
    }
    if n < |front| {
      EveryRequestIsHeld(front, n);
      HeldAfterExtend(Grow(front, 0), r, rs[n]);
    } else {
      LastStartsBefore(front, 0);
      assert StartOf(rs[|rs| - 2]) <= StartOf(r);
      NewIsHeld(Grow(front, 0), r);
    }
  }

  lemma RequestsCovered(rs: seq<Request>, p: int)
    requires rs != [] && SortedBy(rs, StartOf) && Covering(Spans(rs), p) > 0
    ensures Covering(StripSpans(Finish(Grow(rs, 0))), p) > 0
  {
    var ss := Grow(rs, 0);
    var fs := Finish(ss);
    NotCovering(Spans(rs), p);
    var i :| 0 <= i < |rs| && Covers(Spans(rs)[i], p);
    EveryRequestIsHeld(rs, i);
    var k :| 0 <= k < |ss| && Holds(ss[k], rs[i]);
    assert Covers(StripSpans(fs)[k], p);
    NotCovering(StripSpans(fs), p);
  }

  lemma {:induction false} WholeTime(rs: seq<Request>, lo: int, hi: int)
    requires forall r :: r in rs ==> lo <= r.start && r.start + r.length <= hi
    ensures TotalOverlap(Spans(rs), lo, hi) == SumLengths(rs)
  {
    if rs != [] {
      WholeTime(rs[..|rs| - 1], lo, hi);
      assert Spans(rs)[..|rs| - 1] == Spans(rs[..|rs| - 1]);
      assert rs[|rs| - 1] in rs;
    }
  }

  lemma {:induction false} WholeStripTime(ss: seq<Strip>, lo: int, hi: int)
    requires forall s :: s in ss ==> lo <= s.start && End(s) <= hi
    ensures TotalOverlap(StripSpans(ss), lo, hi) == SumStrips(ss)
  {
    if ss != [] {
      WholeStripTime(ss[..|ss| - 1], lo, hi);
      assert StripSpans(ss)[..|ss| - 1] == StripSpans(ss[..|ss| - 1]);
      assert ss[|ss| - 1] in ss;
    }
  }

  /** A window around all requests and strips. */
  lemma {:induction false} Bounds(rs: seq<Request>, ss: seq<Strip>) returns (lo: int, hi: int)
    ensures lo <= hi
    ensures forall r :: r in rs ==> lo <= r.start && r.start + r.length <= hi
    ensures forall s :: s in ss ==> lo <= s.start && End(s) <= hi
  {
    if rs != [] {
      lo, hi := Bounds(rs[..|rs| - 1], ss);
      var r := rs[|rs| - 1];
      lo, hi := Min(lo, r.start), Max(hi, r.start + r.length);
    } else if ss != [] {
      lo, hi := Bounds(rs, ss[..|ss| - 1]);
      var s := ss[|ss| - 1];
      lo, hi := Min(lo, s.start), Max(hi, End(s));
    } else {
      lo, hi := 0, 0;
    }
  }

  lemma OutsideUncovered(ss: seq<Interval>, lo: int, hi: int, p: int)
    requires forall s :: s in ss ==> lo <= s.start && s.end <= hi
    requires !(lo <= p < hi)
    ensures Covering(ss, p) == 0
  {
    NotCovering(ss, p);
    forall i | 0 <= i < |ss| ensures !Covers(ss[i], p) {
      assert ss[i] in ss;
    }
  }

  /** Sector `p` lies in a strip exactly when it lies in a request. */
  ghost predicate CoverageAgrees(rs: seq<Request>, ss: seq<Strip>) {
    forall p :: Covering(StripSpans(ss), p) > 0 <==> Covering(Spans(rs), p) > 0
  }

  lemma OnceAtMost(rs: seq<Request>, p: int)
    requires rs != [] && SortedBy(rs, StartOf)
    ensures var a, b := StripSpans(Finish(Grow(rs, 0))), Spans(rs);
            Covering(a, p) <= 1 && (Covering(b, p) > 0 ==> Covering(a, p) > 0)
  {
    FinishLayout(rs, 0);
    StripsDisjoint(Finish(Grow(rs, 0)));
    DisjointCoveredOnce(StripSpans(Finish(Grow(rs, 0))), p);
    if Covering(Spans(rs), p) > 0 {
      RequestsCovered(rs, p);
    }
  }

  ghost predicate Inside(rs: seq<Request>, ss: seq<Strip>, lo: int, hi: int) {
    && (forall r :: r in rs ==> lo <= r.start && r.start + r.length <= hi)
    && (forall s :: s in ss ==> lo <= s.start && End(s) <= hi)
  }

  lemma NothingOutside(rs: seq<Request>, ss: seq<Strip>, lo: int, hi: int, p: int)
    requires Inside(rs, ss, lo, hi) && !(lo <= p < hi)
    ensures Covering(StripSpans(ss), p) == Covering(Spans(rs), p) == 0
  {
    OutsideUncovered(StripSpans(ss), lo, hi, p);
    OutsideUncovered(Spans(rs), lo, hi, p);
  }

  lemma SameTime(rs: seq<Request>, lo: int, hi: int)
    requires rs != [] && Inside(rs, Finish(Grow(rs, 0)), lo, hi)
    ensures TotalOverlap(StripSpans(Finish(Grow(rs, 0))), lo, hi) == TotalOverlap(Spans(rs), lo, hi)
  {
    FinishLayout(rs, 0);
    WholeTime(rs, lo, hi);
    WholeStripTime(Finish(Grow(rs, 0)), lo, hi);
  }

  lemma CoverageFacts(rs: seq<Request>) returns (lo: int, hi: int)
    requires rs != [] && SortedBy(rs, StartOf)
    ensures lo <= hi
    ensures var a, b := StripSpans(Finish(Grow(rs, 0))), Spans(rs);
            && TotalOverlap(a, lo, hi) == TotalOverlap(b, lo, hi)
            && (forall p :: Covering(a, p) <= 1 && (Covering(b, p) > 0 ==> Covering(a, p) > 0))
            && (forall p :: !(lo <= p < hi) ==> Covering(a, p) == Covering(b, p) == 0)
  {
    var ss := Finish(Grow(rs, 0));
    lo, hi := Bounds(rs, ss);
    SameTime(rs, lo, hi);
    forall p ensures Covering(StripSpans(ss), p) <= 1 && (Covering(Spans(rs), p) > 0 ==> Covering(StripSpans(ss), p) > 0) {
      OnceAtMost(rs, p);
    }
    forall p | !(lo <= p < hi) ensures Covering(StripSpans(ss), p) == Covering(Spans(rs), p) == 0 {
      NothingOutside(rs, ss, lo, hi, p);
    }
  }

  /** At threshold 0 the strips cover exactly the union of the requests if and only if the requests
      are pairwise disjoint: an overlap is counted twice and pushes the strip past its last sector. */
  lemma StripsCoverUnionIffDisjoint(rs: seq<Request>)
    requires rs != [] && SortedBy(rs, StartOf)
    ensures CoverageAgrees(rs, Finish(Grow(rs, 0))) <==> PairwiseDisjoint(Spans(rs))
  {
    var a, b := StripSpans(Finish(Grow(rs, 0))), Spans(rs);
    var lo, hi := CoverageFacts(rs);
    DisjointIffCoveredOnce(b);
    if CoverageAgrees(rs, Finish(Grow(rs, 0))) {
      CompareCoverage(a, b, lo, hi);
    }
    if PairwiseDisjoint(b) {
      CompareCoverage(b, a, lo, hi);
      forall p ensures Covering(a, p) > 0 <==> Covering(b, p) > 0 {
        assert lo <= p < hi ==> Covering(b, p) == Covering(a, p);
      }
    }
  }

  // ---------------------------------------------------------------- covering at any threshold

  ghost predicate AllPositive(rs: seq<Request>) {
    forall r :: r in rs ==> r.length > 0
  }

  /** Requests in order, none empty and no two overlapping. */
  ghost predicate Apart(rs: seq<Request>) {
    SortedBy(rs, StartOf) && AllPositive(rs) && PairwiseDisjoint(Spans(rs))
  }

  /** Request `k` starts past the end of the one before it, but not by more than the threshold. */
  predicate SmallGapAt(rs: seq<Request>, threshold: int, k: nat)
    requires 0 < k < |rs|
  {
    var e := rs[k - 1].start + rs[k - 1].length;
    e < rs[k].start <= e + threshold
  }

  /** No gap between neighbouring requests is as small as the threshold allows to be bridged. */
  ghost predicate NoSmallGap(rs: seq<Request>, threshold: int) {
    forall k :: 0 < k < |rs| ==> !SmallGapAt(rs, threshold, k)
  }

  lemma DisjointInOrder(rs: seq<Request>, j: nat, k: nat)
    requires Apart(rs) && j < k < |rs|
    ensures rs[j].start + rs[j].length <= rs[k].start
  {
    assert Disjoint(Spans(rs)[j], Spans(rs)[k]) && StartOf(rs[j]) <= StartOf(rs[k]);
    assert rs[j] in rs && rs[k] in rs;
  }

  lemma PrefixIsAlike(rs: seq<Request>, n: nat)
    requires Apart(rs) && n <= |rs|
    ensures Apart(rs[..n])
  {
    var front := rs[..n];
    assert forall k :: 0 <= k < |front| ==> front[k] == rs[k] && Spans(front)[k] == Spans(rs)[k];
  }

  lemma PrefixGaps(rs: seq<Request>, threshold: int, n: nat)
    requires n <= |rs|
    ensures NoSmallGap(rs[..n], threshold) <==> forall k :: 0 < k < n ==> !SmallGapAt(rs, threshold, k)
  {
    assert forall k :: 0 < k < n ==> SmallGapAt(rs[..n], threshold, k) == SmallGapAt(rs, threshold, k);
  }

  /** Then the threshold makes no difference, and the growing strip ends where the last request ends. */
  lemma {:induction false} ThresholdIsIdle(rs: seq<Request>, threshold: int)
    requires rs != [] && Apart(rs) && threshold >= 0
    requires NoSmallGap(rs, threshold)
    ensures Grow(rs, threshold) == Grow(rs, 0)
    ensures End(Grow(rs, 0)[|Grow(rs, 0)| - 1]) == rs[|rs| - 1].start + rs[|rs| - 1].length
  {
    if |rs| > 1 {
      var n := |rs| - 1;
      PrefixIsAlike(rs, n);
      PrefixGaps(rs, threshold, n);
      ThresholdIsIdle(rs[..n], threshold);
      DisjointInOrder(rs, n - 1, n);
      assert !SmallGapAt(rs, threshold, n);
    }
  }

  ghost predicate InStrip(ss: seq<Strip>, p: int) {
    exists k :: 0 <= k < |ss| && ss[k].start <= p < End(ss[k])
  }

  /** Strips only grow. */
  lemma {:induction false} StaysInStrip(rs: seq<Request>, threshold: int, n: nat, p: int)
    requires 0 < n <= |rs| && InStrip(Grow(rs[..n], threshold), p)
    ensures InStrip(Grow(rs, threshold), p)
    decreases |rs|
  {
    if n == |rs| {
      assert rs[..n] == rs;
      return;
    }
    var front := rs[..|rs| - 1];
    assert front[..n] == rs[..n];
    StaysInStrip(front, threshold, n, p);
    var before, after := Grow(front, threshold), Grow(rs, threshold);
    var k :| 0 <= k < |before| && before[k].start <= p < End(before[k]);
    assert after[k].start <= p < End(after[k]);
  }

  lemma InStripIsCovered(ss: seq<Strip>, p: int)
    requires ss != []
    ensures InStrip(ss, p) <==> Covering(StripSpans(Finish(ss)), p) > 0
  {
    var fs := Finish(ss);
    NotCovering(StripSpans(fs), p);
    if InStrip(ss, p) {
      var k :| 0 <= k < |ss| && ss[k].start <= p < End(ss[k]);
      assert Covers(StripSpans(fs)[k], p);
    }
    if i :| 0 <= i < |fs| && Covers(StripSpans(fs)[i], p) {
      assert ss[i].start <= p < End(ss[i]);
    }
  }

  lemma BridgingStrip(before: seq<Strip>, r: Request, threshold: int, e: int)
    requires before != [] && End(before[|before| - 1]) == e < r.start <= e + threshold && r.length > 0
    ensures InStrip(Extend(before, r, threshold), e)
  {
    var ss := Extend(before, r, threshold);
    assert ss[|ss| - 1].start <= e < End(ss[|ss| - 1]);
  }

  lemma GapIsInStrip(rs: seq<Request>, threshold: int)
    requires |rs| > 1 && Apart(rs) && threshold >= 0
    requires NoSmallGap(rs[..|rs| - 1], threshold) && SmallGapAt(rs, threshold, |rs| - 1)
    ensures InStrip(Grow(rs, threshold), rs[|rs| - 2].start + rs[|rs| - 2].length)
  {
    var n := |rs| - 1;
    PrefixIsAlike(rs, n);
    ThresholdIsIdle(rs[..n], threshold);
    assert rs[n] in rs;
    BridgingStrip(Grow(rs[..n], threshold), rs[n], threshold, rs[n - 1].start + rs[n - 1].length);
  }

  lemma GapIsUncovered(rs: seq<Request>, threshold: int, n: nat)
    requires Apart(rs)
    requires 0 < n < |rs| && SmallGapAt(rs, threshold, n)
    ensures Covering(Spans(rs), rs[n - 1].start + rs[n - 1].length) == 0
  {
    var e := rs[n - 1].start + rs[n - 1].length;
    NotCovering(Spans(rs), e);
    forall i | 0 <= i < |rs| ensures !Covers(Spans(rs)[i], e) {
      if i < n - 1 {
        DisjointInOrder(rs, i, n - 1);
        assert rs[n - 1] in rs;
      } else if i >= n {
        assert StartOf(rs[n]) <= StartOf(rs[i]);
      }
    }
  }

  lemma PrefixGapIsInStrip(rs: seq<Request>, threshold: int, n: nat)
    requires Apart(rs) && threshold >= 0
    requires 0 < n < |rs| && NoSmallGap(rs[..n], threshold) && SmallGapAt(rs, threshold, n)
    ensures InStrip(Grow(rs[..n + 1], threshold), rs[n - 1].start + rs[n - 1].length)
  {
    var front := rs[..n + 1];
    PrefixIsAlike(rs, n + 1);
    assert front[..n] == rs[..n] && front[n - 1] == rs[n - 1] && front[n] == rs[n];
    GapIsInStrip(front, threshold);
  }

  /** A gap that is bridged pushes the strip over a sector that no request has. */
  lemma BridgedGap(rs: seq<Request>, threshold: int, n: nat)
    requires Apart(rs) && threshold >= 0
    requires 0 < n < |rs| && NoSmallGap(rs[..n], threshold) && SmallGapAt(rs, threshold, n)
    ensures !CoverageAgrees(rs, Finish(Grow(rs, threshold)))
  {
    var e := rs[n - 1].start + rs[n - 1].length;
    PrefixGapIsInStrip(rs, threshold, n);
    StaysInStrip(rs, threshold, n + 1, e);
    InStripIsCovered(Grow(rs, threshold), e);
    GapIsUncovered(rs, threshold, n);
  }

  /** The first of the bridged gaps from `n` on, if there is none before. */
  lemma {:induction false} FirstSmallGap(rs: seq<Request>, threshold: int, n: nat) returns (k: nat)
    requires 0 < n <= |rs| && !NoSmallGap(rs, threshold)
    requires forall j :: 0 < j < n ==> !SmallGapAt(rs, threshold, j)
    ensures 0 < k < |rs| && SmallGapAt(rs, threshold, k) && forall j :: 0 < j < k ==> !SmallGapAt(rs, threshold, j)
    decreases |rs| - n
  {
    if n < |rs| && SmallGapAt(rs, threshold, n) {
      k := n;
    } else {
      k := FirstSmallGap(rs, threshold, n + 1);
    }
  }

  lemma CoveredIsDisjoint(rs: seq<Request>, threshold: int)
    requires rs != [] && threshold >= 0 && CoverageAgrees(rs, Finish(Grow(rs, threshold)))
    ensures PairwiseDisjoint(Spans(rs))
  {
    var ss := Finish(Grow(rs, threshold));
    var a, b := StripSpans(ss), Spans(rs);
    FinishLayout(rs, threshold);
    StripsDisjoint(ss);
    var lo, hi := Bounds(rs, ss);
    WholeTime(rs, lo, hi);
    WholeStripTime(ss, lo, hi);
    forall p ensures Covering(a, p) <= 1 && (Covering(a, p) > 0 <==> Covering(b, p) > 0) {
      DisjointCoveredOnce(a, p);
    }
    CompareCoverage(a, b, lo, hi);
    forall p ensures Covering(b, p) <= 1 {
      if !(lo <= p < hi) {
        NothingOutside(rs, ss, lo, hi, p);
      }
    }
    DisjointIffCoveredOnce(b);
  }

  /** At any threshold the strips cover exactly the union of the requests, none of them empty, if and only if the
      requests are pairwise disjoint and no gap between neighbours is small enough to be bridged. */
  lemma StripsCoverUnionIff(rs: seq<Request>, threshold: int)
    requires rs != [] && SortedBy(rs, StartOf) && AllPositive(rs) && threshold >= 0
    ensures CoverageAgrees(rs, Finish(Grow(rs, threshold))) <==> PairwiseDisjoint(Spans(rs)) && NoSmallGap(rs, threshold)
  {
    if CoverageAgrees(rs, Finish(Grow(rs, threshold))) {
      CoveredIsDisjoint(rs, threshold);
      if !NoSmallGap(rs, threshold) {
        var n := FirstSmallGap(rs, threshold, 1);
        PrefixGaps(rs, threshold, n);
        BridgedGap(rs, threshold, n);
      }
    }
    if PairwiseDisjoint(Spans(rs)) && NoSmallGap(rs, threshold) {
      ThresholdIsIdle(rs, threshold);
      StripsCoverUnionIffDisjoint(rs);
    }
  }
}
