/** CPU time of an app cut into fixed-length segments of an analysis window. */
module CpuTime {
  import opened Options
  import opened Intervals

  /** A scheduling slice: one thread running on `cpu` for `dur` nanoseconds. */
  datatype SchedSlice = SchedSlice(ts: int, dur: int, cpu: int)

  /** One overlap of a slice with a segment. */
  datatype Record = Record(seg: int, ns: int)

  datatype Segment = Segment(start: int, end: int, cpuTime: int)

  /** `total` is the numerator of the summary; None when the query returned no slice. `Failure` is the
      TypeError raised when slices were found but no cores are bound (their number divides the percentages). */
  datatype Report = NoWindow | Failure | Timeline(total: Option<int>, segments: seq<Segment>)

  function Spans(slices: seq<SchedSlice>): seq<Interval> {
    seq(|slices|, i requires 0 <= i < |slices| => Interval(slices[i].ts, slices[i].ts + slices[i].dur))
  }

  /** A window [start, end) cut into segments of `len` nanoseconds, the last one possibly shorter. */
  datatype Window = Window(start: int, end: int, len: int) {
    ghost predicate Valid() {
      start < end && len > 0
    }

    function SegStart(j: int): int {
      start + j * len
    }

    function SegEnd(j: int): int {
      Min(start + (j + 1) * len, end)
    }

    function Count(): int
      requires len > 0
    {
      (end - start + len - 1) / len
    }

    /** Number of segments reported when no slice was found: a tail of at most a quarter is dropped. */
    function CountWhenIdle(): int
      requires len > 0
    {
      var tail := (end - start) % len;
      var duration := if 4 * tail <= len then end - start - tail else end - start;
      (duration + len - 1) / len
    }
  }

  lemma MulMonotone(i: int, j: int, len: int)
    requires i <= j && len > 0
    ensures i * len <= j * len
  {
    assert (j - i) * len >= 0;
  }

  lemma CountBounds(w: Window)
    requires w.Valid()
    ensures w.Count() >= 1 && (w.Count() - 1) * w.len < w.end - w.start <= w.Count() * w.len
  {
    var x, n := w.end - w.start + w.len - 1, w.Count();
    assert x == n * w.len + x % w.len;
    assert (n - 1) * w.len == n * w.len - w.len;
    if n < 1 {
      MulMonotone(n, 0, w.len);
    }
  }

  /** Segments tile the window: consecutive, the last one ending at the window's end, none empty. */
  lemma SegmentsTile(w: Window, j: int)
    requires w.Valid() && 0 <= j < w.Count()
    ensures w.start <= w.SegStart(j) < w.SegEnd(j) <= w.end
    ensures w.SegEnd(j) == if j == w.Count() - 1 then w.end else w.SegStart(j + 1)
  {
    CountBounds(w);
    MulMonotone(0, j, w.len);
    MulMonotone(j, w.Count() - 1, w.len);
    assert (j + 1) * w.len == j * w.len + w.len;
    if j < w.Count() - 1 {
      MulMonotone(j + 1, w.Count() - 1, w.len);
    }
  }

  function SumFor(records: seq<Record>, j: int): int {
    if records == [] then 0
    else SumFor(records[..|records| - 1], j) + if records[|records| - 1].seg == j then records[|records| - 1].ns else 0
  }

  /** Segment index of a point of the window. */
  lemma SegmentOf(w: Window, p: int)
    requires w.Valid() && w.start <= p < w.end
    ensures var k := (p - w.start) / w.len;
            && 0 <= k < w.Count() && w.SegStart(k) <= p < w.SegEnd(k)
            && (forall j :: j < k ==> w.SegEnd(j) <= p) && (forall j :: k < j ==> p < w.SegStart(j))
  {
    var k, n := (p - w.start) / w.len, w.Count();
    CountBounds(w);
    assert p - w.start == k * w.len + (p - w.start) % w.len;
    assert (k + 1) * w.len == k * w.len + w.len;
    if k < 0 {
      MulMonotone(k + 1, 0, w.len);
    }
    if k >= n {
      MulMonotone(n, k, w.len);
    }
    forall j | j < k ensures w.SegEnd(j) <= p {
      MulMonotone(j + 1, k, w.len);
    }
    forall j | k < j ensures p < w.SegStart(j) {
      MulMonotone(k + 1, j, w.len);
    }
  }

  ghost predicate Collected(w: Window, spans: seq<Interval>, records: seq<Record>)
    requires w.Valid()
  {
    && (forall r :: r in records ==> 0 <= r.seg < w.Count() && r.ns > 0)
    && (forall j :: 0 <= j < w.Count() ==> SumFor(records, j) == TotalOverlap(spans, w.SegStart(j), w.SegEnd(j)))
  }

  lemma RecordAdded(records: seq<Record>, r: Record)
    ensures forall j :: SumFor(records + [r], j) == SumFor(records, j) + if r.seg == j then r.ns else 0
  {
    assert (records + [r])[..|records|] == records;
  }

  lemma NoPartInside(w: Window, s: Interval)
    requires w.Valid() && Min(s.end, w.end) <= Max(s.start, w.start)
    ensures forall j :: 0 <= j < w.Count() ==> Overlap(s, w.SegStart(j), w.SegEnd(j)) == 0
  {
    forall j | 0 <= j < w.Count() ensures Overlap(s, w.SegStart(j), w.SegEnd(j)) == 0 {
      SegmentsTile(w, j);
    }
  }

  /** What of the slice lies in a segment. */
  lemma PartOf(w: Window, s: Interval, k: nat)
    requires w.Valid() && k < w.Count()
    ensures var lo, hi := Max(Max(s.start, w.start), w.SegStart(k)), Min(Min(s.end, w.end), w.SegEnd(k));
            Overlap(s, w.SegStart(k), w.SegEnd(k)) == if hi > lo then hi - lo else 0
  {
    SegmentsTile(w, k);
  }

  /** Segments before the first and after the last hold nothing of the slice. */
  lemma PartsElsewhere(w: Window, s: Interval, from: int, to: int, first: int, last: int)
    requires w.Valid() && from == Max(s.start, w.start) && to == Min(s.end, w.end)
    requires (forall j :: j < first ==> w.SegEnd(j) <= from) && (forall j :: last < j ==> to - 1 < w.SegStart(j))
    ensures forall j :: 0 <= j < w.Count() && !(first <= j <= last) ==> Overlap(s, w.SegStart(j), w.SegEnd(j)) == 0
  {
    forall j | 0 <= j < w.Count() && !(first <= j <= last) ensures Overlap(s, w.SegStart(j), w.SegEnd(j)) == 0 {
      SegmentsTile(w, j);
      assert j < first ==> w.SegEnd(j) <= from;
      assert last < j ==> to - 1 < w.SegStart(j);
    }
  }

  /** The inner loop: one slice, cut at segment borders. */
  method CutSlice(w: Window, s: Interval, records: seq<Record>) returns (out: seq<Record>)
    requires w.Valid() && forall r :: r in records ==> 0 <= r.seg < w.Count() && r.ns > 0
    ensures forall r :: r in out ==> 0 <= r.seg < w.Count() && r.ns > 0
    ensures forall j :: 0 <= j < w.Count() ==>
              SumFor(out, j) == SumFor(records, j) + Overlap(s, w.SegStart(j), w.SegEnd(j))
  {
    out := records;
    var from, to := Max(s.start, w.start), Min(s.end, w.end);
    if to <= from {
      NoPartInside(w, s);
      return;
    }
    SegmentOf(w, from);
    SegmentOf(w, to - 1);
    var first, last := (from - w.start) / w.len, (to - 1 - w.start) / w.len;
    assert first <= last;
    PartsElsewhere(w, s, from, to, first, last);
    var k := first;
    while k <= last
      invariant first <= k <= last + 1
      invariant forall r :: r in out ==> 0 <= r.seg < w.Count() && r.ns > 0
      invariant forall j :: 0 <= j < w.Count() ==>
                  SumFor(out, j) == SumFor(records, j) + if first <= j < k then Overlap(s, w.SegStart(j), w.SegEnd(j)) else 0
    {
      var lo, hi := Max(from, w.SegStart(k)), Min(to, w.SegEnd(k));
      PartOf(w, s, k);
      if hi > lo {
        RecordAdded(out, Record(k, hi - lo));
        out := out + [Record(k, hi - lo)];
      }
      k := k + 1;
    }
  }

  method CollectRecords(w: Window, slices: seq<SchedSlice>) returns (records: seq<Record>)
    requires w.Valid()
    ensures Collected(w, Spans(slices), records)
  {
    records := [];
    for n := 0 to |slices|
      invariant Collected(w, Spans(slices[..n]), records)
    {
      var s := slices[n];
      records := CutSlice(w, Interval(s.ts, s.ts + s.dur), records);
      assert Spans(slices[..n + 1])[..n] == Spans(slices[..n]);
    }
    assert slices[..|slices|] == slices;
  }

  function SumOfTimes(segments: seq<Segment>): int {
    if segments == [] then 0
    else SumOfTimes(segments[..|segments| - 1]) + segments[|segments| - 1].cpuTime
  }

  /** The segments of a window with the time the spans share with each. */
  function Segments(w: Window, spans: seq<Interval>, n: nat): (r: seq<Segment>)
    ensures |r| == n
  {
    if n == 0 then []
    else Segments(w, spans, n - 1) +
         [Segment(w.SegStart(n - 1), w.SegEnd(n - 1), TotalOverlap(spans, w.SegStart(n - 1), w.SegEnd(n - 1)))]
  }

  /** Nanoseconds that the slices spend from `start` up to `end`, slice by slice. */
  ghost function TimeWithin(slices: seq<SchedSlice>, start: int, end: int): nat {
    if slices == [] then 0
    else
      var s := slices[|slices| - 1];
      TimeWithin(slices[..|slices| - 1], start, end) + PointsIn(s.ts, s.ts + s.dur, start, end)
  }

  lemma {:induction false} TimeWithinIs(slices: seq<SchedSlice>, start: int, end: int)
    ensures TotalOverlap(Spans(slices), start, end) == TimeWithin(slices, start, end)
  {
    if slices != [] {
      var front, s := slices[..|slices| - 1], slices[|slices| - 1];
      TimeWithinIs(front, start, end);
      assert Spans(slices)[..|front|] == Spans(front);
      OverlapCountsPoints(Interval(s.ts, s.ts + s.dur), start, end);
    }
  }

  /** A segment is not empty, at most `len` long, and holds the time of the slices within it. */
  ghost predicate IsSegment(slices: seq<SchedSlice>, len: int, s: Segment) {
    s.start < s.end <= s.start + len && s.cpuTime == TimeWithin(slices, s.start, s.end)
  }

  /** Adjacent segments from `from` to `to`, of length `len` except that the last one may be shorter. */
  ghost predicate IsTimeline(slices: seq<SchedSlice>, from: int, to: int, len: int, segments: seq<Segment>) {
    && (segments == [] ==> from == to)
    && (segments != [] ==> segments[0].start == from && segments[|segments| - 1].end == to)
    && (forall j :: 0 <= j < |segments| ==> IsSegment(slices, len, segments[j]))
    && (forall i, j :: 0 <= i && j == i + 1 < |segments| ==>
          segments[i].end == segments[j].start && segments[i].end == segments[i].start + len)
  }

  lemma TimelineGrows(slices: seq<SchedSlice>, from: int, to: int, len: int, segments: seq<Segment>, s: Segment)
    requires IsTimeline(slices, from, to, len, segments) && IsSegment(slices, len, s) && s.start == to
    requires segments != [] ==> segments[|segments| - 1].end == segments[|segments| - 1].start + len
    ensures IsTimeline(slices, from, s.end, len, segments + [s])
  {
  }

  lemma {:induction false} SegmentsAreTimeline(slices: seq<SchedSlice>, w: Window, n: nat)
    requires w.Valid() && n <= w.Count()
    ensures IsTimeline(slices, w.start, if n == w.Count() then w.end else w.SegStart(n), w.len, Segments(w, Spans(slices), n))
  {
    CountBounds(w);
    if n == 0 {
      assert 0 * w.len == 0;
    } else {
      var before := Segments(w, Spans(slices), n - 1);
      SegmentsAreTimeline(slices, w, n - 1);
      SegmentsTile(w, n - 1);
      TimeWithinIs(slices, w.SegStart(n - 1), w.SegEnd(n - 1));
      NextStart(w, n - 1);
      if n > 1 {
        SegmentsTile(w, n - 2);
        NextStart(w, n - 2);
      }
      TimelineGrows(slices, w.start, w.SegStart(n - 1), w.len, before,
                    Segment(w.SegStart(n - 1), w.SegEnd(n - 1), TimeWithin(slices, w.SegStart(n - 1), w.SegEnd(n - 1))));
    }
  }

  lemma NextStart(w: Window, j: int)
    requires w.Valid()
    ensures w.SegStart(j + 1) == w.SegStart(j) + w.len && w.SegEnd(j) <= w.SegStart(j) + w.len
  {
    assert (j + 1) * w.len == j * w.len + w.len;
  }

  lemma WholeTimeline(slices: seq<SchedSlice>, w: Window)
    requires w.Valid()
    ensures IsTimeline(slices, w.start, w.end, w.len, Segments(w, Spans(slices), w.Count()))
    ensures TotalOverlap(Spans(slices), w.start, w.end) == TimeWithin(slices, w.start, w.end)
  {
    CountBounds(w);
    SegmentsAreTimeline(slices, w, w.Count());
    TimeWithinIs(slices, w.start, w.end);
  }

  lemma IdleTimeline(w: Window)
    requires w.Valid()
    ensures var tail := (w.end - w.start) % w.len;
            IsTimeline([], w.start, if 4 * tail <= w.len then w.end - tail else w.end, w.len, Segments(w, [], w.CountWhenIdle()))
  {
    var tail, q := (w.end - w.start) % w.len, (w.end - w.start) / w.len;
    assert w.end - w.start == q * w.len + tail;
    CountBounds(w);
    IdleTimelineIsShorter(w);
    Ceiling(q, tail, w.len);
    assert Spans([]) == [];
    SegmentsAreTimeline([], w, w.CountWhenIdle());
  }

  lemma SegmentAdded(segments: seq<Segment>, s: Segment)
    ensures SumOfTimes(segments + [s]) == SumOfTimes(segments) + s.cpuTime
  {
    assert (segments + [s])[..|segments|] == segments;
  }

  method AnalyzeCpuTime(slices: seq<SchedSlice>, w: Window, bindCores: Option<seq<int>>) returns (r: Report)
    requires w.len > 0
    ensures w.end <= w.start ==> r == NoWindow
    ensures w.start < w.end && slices == [] ==>
              var tail := (w.end - w.start) % w.len;
              r.Timeline? && r.total == None
              && IsTimeline([], w.start, if 4 * tail <= w.len then w.end - tail else w.end, w.len, r.segments)
    ensures w.start < w.end && slices != [] && bindCores.None? ==> r == Failure
    ensures w.start < w.end && slices != [] && bindCores.Some? ==>
              r.Timeline? && r.total == Some(TimeWithin(slices, w.start, w.end))
              && IsTimeline(slices, w.start, w.end, w.len, r.segments)
  {
    if w.end <= w.start {
      return NoWindow;
    }
    if slices == [] {
      var idle := CutIdleWindow(w);
      return Timeline(None, idle);
    }
    var sum, segments := SumUp(slices, w);
    if bindCores.None? {
      return Failure;
    }
    return Timeline(Some(sum), segments);
  }

  method CutIdleWindow(w: Window) returns (segments: seq<Segment>)
    requires w.Valid()
    ensures var tail := (w.end - w.start) % w.len;
            IsTimeline([], w.start, if 4 * tail <= w.len then w.end - tail else w.end, w.len, segments)
  {
    var tail := (w.end - w.start) % w.len;
    var duration := w.end - w.start;
    if 4 * tail <= w.len {
      duration := duration - tail;
    }
    var total := (duration + w.len - 1) / w.len;
    segments := [];
    for j := 0 to total
      invariant segments == Segments(w, [], j)
    {
      segments := segments + [Segment(w.SegStart(j), w.SegEnd(j), 0)];
    }
    IdleTimeline(w);
  }

  method SumUp(slices: seq<SchedSlice>, w: Window) returns (sum: int, segments: seq<Segment>)
    requires w.Valid()
    ensures sum == TimeWithin(slices, w.start, w.end)
    ensures IsTimeline(slices, w.start, w.end, w.len, segments)
  {
    var records := CollectRecords(w, slices);
    sum, segments := 0, [];
    for j := 0 to w.Count()
      invariant segments == Segments(w, Spans(slices), j) && sum == SumOfTimes(segments)
    {
      var s := Segment(w.SegStart(j), w.SegEnd(j), SumFor(records, j));
      SegmentAdded(segments, s);
      segments := segments + [s];
      sum := sum + s.cpuTime;
    }
    TimeIsConserved(w, Spans(slices));
    WholeTimeline(slices, w);
  }

  // ---------------------------------------------------------------- conservation and capacity

  lemma {:induction false} SegmentsPrefixSum(w: Window, spans: seq<Interval>, n: nat)
    requires w.Valid() && n <= w.Count()
    ensures SumOfTimes(Segments(w, spans, n)) == TotalOverlap(spans, w.start, if n == w.Count() then w.end else w.SegStart(n))
  {
    if n == 0 {
      assert 0 * w.len == 0;
      EmptyWindow(spans, w.start, w.start);
      if w.Count() == 0 {
        SegmentOf(w, w.start);
      }
    } else {
      SegmentsPrefixSum(w, spans, n - 1);
      SegmentsTile(w, n - 1);
      TotalOverlapSplits(spans, w.start, w.SegStart(n - 1), w.SegEnd(n - 1));
      var all := Segments(w, spans, n);
      assert all[..|all| - 1] == Segments(w, spans, n - 1);
    }
  }

  /** No nanosecond is lost or counted twice: the segments add up to the clipped slices. */
  lemma TimeIsConserved(w: Window, spans: seq<Interval>)
    requires w.Valid()
    ensures SumOfTimes(Segments(w, spans, w.Count())) == TotalOverlap(spans, w.start, w.end)
  {
    SegmentOf(w, w.start);
    SegmentsPrefixSum(w, spans, w.Count());
  }

  /** The segments of a reported timeline add up to the time within the whole timeline. */
  lemma {:induction false} TimelineAddsUp(slices: seq<SchedSlice>, from: int, to: int, len: int, segments: seq<Segment>)
    requires IsTimeline(slices, from, to, len, segments)
    ensures from <= to && SumOfTimes(segments) == TimeWithin(slices, from, to)
    decreases |segments|
  {
    if segments == [] {
      TimeWithinIs(slices, from, to);
      EmptyWindow(Spans(slices), from, to);
    } else {
      var n := |segments| - 1;
      var s := segments[n];
      assert IsTimeline(slices, from, s.start, len, segments[..n]);
      TimelineAddsUp(slices, from, s.start, len, segments[..n]);
      TimeWithinSplits(slices, from, s.start, to);
    }
  }

  lemma TimeWithinSplits(slices: seq<SchedSlice>, from: int, mid: int, to: int)
    requires from <= mid <= to
    ensures TimeWithin(slices, from, to) == TimeWithin(slices, from, mid) + TimeWithin(slices, mid, to)
  {
    TotalOverlapSplits(Spans(slices), from, mid, to);
    TimeWithinIs(slices, from, to);
    TimeWithinIs(slices, from, mid);
    TimeWithinIs(slices, mid, to);
  }

  /** One core runs one thread at a time, and only bound cores are queried. */
  ghost predicate OneThreadPerCore(slices: seq<SchedSlice>, cores: seq<int>) {
    && (forall s :: s in slices ==> s.cpu in cores)
    && (forall i, j :: 0 <= i < j < |slices| && slices[i].cpu == slices[j].cpu ==>
          Disjoint(Spans(slices)[i], Spans(slices)[j]))
  }

  ghost function CoresRunning(slices: seq<SchedSlice>, p: int): set<int> {
    set i | 0 <= i < |slices| && Covers(Spans(slices)[i], p) :: slices[i].cpu
  }

  lemma CoresRunningGrows(slices: seq<SchedSlice>, s: SchedSlice, p: int)
    ensures CoresRunning(slices + [s], p) ==
            CoresRunning(slices, p) + if Covers(Interval(s.ts, s.ts + s.dur), p) then {s.cpu} else {}
  {
    var all := slices + [s];
    forall c | c in CoresRunning(slices, p) ensures c in CoresRunning(all, p) {
      var i :| 0 <= i < |slices| && Covers(Spans(slices)[i], p) && slices[i].cpu == c;
      assert Covers(Spans(all)[i], p) && all[i].cpu == c;
    }
    forall c | c in CoresRunning(all, p) && !(Covers(Interval(s.ts, s.ts + s.dur), p) && c == s.cpu)
      ensures c in CoresRunning(slices, p)
    {
      var i :| 0 <= i < |all| && Covers(Spans(all)[i], p) && all[i].cpu == c;
      assert Covers(Spans(slices)[i], p) && slices[i].cpu == c;
    }
    if Covers(Interval(s.ts, s.ts + s.dur), p) {
      assert Covers(Spans(all)[|slices|], p) && all[|slices|].cpu == s.cpu;
    }
  }

  /** Two slices that run at one time run on two cores. */
  lemma OtherCore(slices: seq<SchedSlice>, cores: seq<int>, i: nat, p: int)
    requires OneThreadPerCore(slices, cores) && i < |slices| - 1
    requires Covers(Spans(slices)[i], p) && Covers(Spans(slices)[|slices| - 1], p)
    ensures slices[i].cpu != slices[|slices| - 1].cpu
  {
  }

  lemma {:induction false} CoveringIsCoresRunning(slices: seq<SchedSlice>, cores: seq<int>, p: int)
    requires OneThreadPerCore(slices, cores)
    ensures Covering(Spans(slices), p) == |CoresRunning(slices, p)|
  {
    if slices == [] {
      assert CoresRunning(slices, p) == {};
    } else {
      var front, last := slices[..|slices| - 1], slices[|slices| - 1];
      assert slices == front + [last] && Spans(front) == Spans(slices)[..|front|];
      assert OneThreadPerCore(front, cores) by {
        assert forall i :: 0 <= i < |front| ==> front[i] == slices[i] && Spans(front)[i] == Spans(slices)[i];
      }
      CoveringIsCoresRunning(front, cores, p);
      CoresRunningGrows(front, last, p);
      if Covers(Spans(slices)[|front|], p) {
        forall i | 0 <= i < |front| && Covers(Spans(front)[i], p) ensures front[i].cpu != last.cpu {
          OtherCore(slices, cores, i, p);
        }
      }
    }
  }

  lemma {:induction false} FewerThan(a: set<int>, s: seq<int>)
    requires forall x :: x in a ==> x in s
    ensures |a| <= |s|
  {
    if s != [] {
      FewerThan(a - {s[0]}, s[1..]);
      assert |a| <= |a - {s[0]}| + 1;
    } else {
      assert forall x :: x !in a;
    }
  }

  /** A stretch of time holds at most its length times the number of bound cores (its percentage is at most one). */
  lemma SegmentCapacity(slices: seq<SchedSlice>, cores: seq<int>, lo: int, hi: int)
    requires OneThreadPerCore(slices, cores) && lo <= hi
    ensures TimeWithin(slices, lo, hi) <= |cores| * (hi - lo)
  {
    TimeWithinIs(slices, lo, hi);
    forall p | lo <= p < hi ensures Covering(Spans(slices), p) <= |cores| {
      CoveringIsCoresRunning(slices, cores, p);
      FewerThan(CoresRunning(slices, p), cores);
    }
    TotalOverlapAtMost(Spans(slices), lo, hi, |cores|);
  }

  /** Without slices the timeline has one segment fewer exactly when the tail is short but not empty. */
  lemma IdleTimelineIsShorter(w: Window)
    requires w.Valid()
    ensures var tail := (w.end - w.start) % w.len;
            w.CountWhenIdle() == w.Count() - (if 0 < tail && 4 * tail <= w.len then 1 else 0)
  {
    var tail, q := (w.end - w.start) % w.len, (w.end - w.start) / w.len;
    assert w.end - w.start == q * w.len + tail;
    Ceiling(q, tail, w.len);
    Ceiling(q, 0, w.len);
  }

  lemma Ceiling(q: int, tail: int, len: int)
    requires 0 <= tail < len
    ensures (q * len + tail + len - 1) / len == q + (if tail > 0 then 1 else 0)
  {
    var n := q * len + tail + len - 1;
    var k := n / len;
    assert k * len <= n < k * len + len;
    var d := if tail > 0 then q + 1 else q;
    assert d * len <= n < d * len + len;
    if k < d {
      MulMonotone(k + 1, d, len);
    } else if k > d {
      MulMonotone(d + 1, k, len);
    }
  }
}
