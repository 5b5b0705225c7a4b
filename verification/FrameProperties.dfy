/** What the frame sweep promises: every row is ordered in time and no index is repeated; and for every VSYNC-app
    signal the one pass finds what a declarative search finds that starts at the latest record-draw so far. When that
    is the signal's own frame is stated exactly. */
module FrameProperties {
  import opened Options
  import opened FrameStreams
  import opened FrameSweep

  // ---------------------------------------------------------------- every row, on every trace

  predicate TimeOrdered(fr: Frame) {
    && fr.vsync <= fr.doFrame.ts <= fr.recordDraw.ts
    && fr.recordDraw.ts + fr.recordDraw.dur < fr.doFrame.ts + fr.doFrame.dur
    && fr.recordDraw.ts + fr.recordDraw.dur <= fr.drawFrame.ts <= fr.doFrame.ts + fr.doFrame.dur
    && fr.drawFrame.ts <= fr.fence.ts && fr.fence.ts + fr.fence.dur < fr.drawFrame.ts + fr.drawFrame.dur
    && fr.vsync <= fr.sf.ts
  }

  lemma AtAfterFloor<T>(s: seq<Slice<T>>, f: Floor, t: int)
    ensures At(s, Raise(f, t)).Some? ==> At(s, Raise(f, t)).value.ts >= t
  {
    FirstAtMeans(s, Raise(f, t).value);
  }

  lemma SignalTimeOrdered(tr: Trace, f: Floors, v: int)
    ensures var r := Signal(tr, f, v).row; r.Some? ==> r.value.frame.vsync == v && TimeOrdered(r.value.frame)
  {
    AtAfterFloor(tr.doFrames, f.doFrame, v);
    if tr.vsyncSf.Some? {
      AtAfterFloor(tr.vsyncSf.value, f.sf, v);
    }
    var c := At(tr.doFrames, Raise(f.doFrame, v));
    if c.Some? && RecordDrawOf(tr, c.value).Some? {
      AtAfterFloor(tr.drawFrames, f.drawFrame, RecordDrawOf(tr, c.value).value.End());
    }
  }

  lemma {:induction false} SweptRowsTimeOrdered(tr: Trace, n: nat)
    requires n <= |tr.vsyncApp|
    ensures forall r :: r in SweptRows(tr, n) ==> r.frame.vsync in tr.vsyncApp[..n] && TimeOrdered(r.frame)
  {
    if n > 0 {
      SweptRowsTimeOrdered(tr, n - 1);
      SignalTimeOrdered(tr, FloorsAfter(tr, n - 1), tr.vsyncApp[n - 1]);
      assert forall v :: v in tr.vsyncApp[..n] <==> v in tr.vsyncApp[..n - 1] || v == tr.vsyncApp[n - 1];
    }
  }

  /** Row `i` carries no frame index, or is the first row with its index. */
  ghost predicate IsNew(rows: seq<Row>, i: nat) {
    && i < |rows|
    && (rows[i].frame.drawFrame.tag == None ||
        forall j :: 0 <= j < i ==> rows[j].frame.drawFrame.tag != rows[i].frame.drawFrame.tag)
  }

  ghost predicate Increasing(at: seq<nat>) {
    forall i, j :: 0 <= i < j < |at| ==> at[i] < at[j]
  }

  /** De-duplication keeps exactly the new rows, in their order. */
  lemma {:induction false} DistinctKeepsNew(rows: seq<Row>) returns (at: seq<nat>)
    ensures Increasing(at) && forall i: nat :: i in at <==> IsNew(rows, i)
    ensures |Distinct(rows)| == |at| && forall k :: 0 <= k < |at| ==> at[k] < |rows| && Distinct(rows)[k] == rows[at[k]]
  {
    at := [];
    if rows != [] {
      var n := |rows| - 1;
      var front, index := rows[..n], rows[n].frame.drawFrame.tag;
      at := DistinctKeepsNew(front);
      assert forall i: nat :: IsNew(rows, i) <==> IsNew(front, i) || (i == n && IsNew(rows, n));
      assert index.Some? ==> (index.value in Indexes(front) <==> exists j :: 0 <= j < n && rows[j].frame.drawFrame.tag == index);
      if IsNew(rows, n) {
        at := at + [n];
      }
    }
  }

  predicate SameIndex(a: Row, b: Row) {
    a.frame.drawFrame.tag.Some? && a.frame.drawFrame.tag == b.frame.drawFrame.tag
  }

  ghost predicate Represented(rows: seq<Row>, r: Row) {
    exists k :: 0 <= k < |rows| && (rows[k] == r || SameIndex(rows[k], r))
  }

  /** De-duplication keeps rows of the sweep only, never two with one index, and drops no index. */
  lemma {:induction false} DistinctIsDeduplication(rows: seq<Row>)
    ensures forall r :: r in Distinct(rows) ==> r in rows
    ensures forall r :: r in rows ==> Represented(Distinct(rows), r)
    ensures forall i, j :: 0 <= i < j < |Distinct(rows)| ==> !SameIndex(Distinct(rows)[i], Distinct(rows)[j])
    ensures rows != [] ==> Distinct(rows) != []
  {
    if rows != [] {
      var front, last := rows[..|rows| - 1], rows[|rows| - 1];
      DistinctIsDeduplication(front);
      var d, d' := Distinct(front), Distinct(rows);
      assert forall r :: r in rows <==> r in front || r == last;
      assert d <= d';
      forall r | r in rows ensures Represented(d', r) {
        if r in front {
          var k :| 0 <= k < |d| && (d[k] == r || SameIndex(d[k], r));
          assert d'[k] == d[k];
        } else if |d'| == |d| {
          var x :| x in front && SameIndex(x, last);
          var k :| 0 <= k < |d| && (d[k] == x || SameIndex(d[k], x));
          assert d'[k] == d[k];
        } else {
          assert d'[|d|] == r;
        }
      }
      if |d'| > |d| {
        forall i | 0 <= i < |d| ensures !SameIndex(d[i], last) {
          assert d[i] in d;
        }
      }
    }
  }

  ghost predicate Sorted<T>(s: seq<Slice<T>>) {
    forall i, j :: 0 <= i < j < |s| ==> s[i].ts <= s[j].ts
  }

  ghost predicate InDoFrameOrder(rows: seq<Row>) {
    forall i, j :: 0 <= i < j < |rows| ==> rows[i].frame.doFrame.ts <= rows[j].frame.doFrame.ts
  }

  /** No row lies after the doFrame cursor. */
  ghost predicate BeforeCursor(tr: Trace, rows: seq<Row>, p: nat) {
    forall r, k :: r in rows && p <= k < |tr.doFrames| ==> r.frame.doFrame.ts <= tr.doFrames[k].ts
  }

  lemma SignalDoFrame(tr: Trace, f: Floors, v: int)
    ensures var out := Signal(tr, f, v);
            && out.floors.doFrame == Raise(f.doFrame, v)
            && (out.row.Some? ==> At(tr.doFrames, out.floors.doFrame) == Some(out.row.value.frame.doFrame))
  {
  }

  lemma AppendInOrder(tr: Trace, rows: seq<Row>, p: nat, row: Option<Row>, q: nat)
    requires Sorted(tr.doFrames) && InDoFrameOrder(rows) && BeforeCursor(tr, rows, p) && p <= q
    requires row.Some? ==> q < |tr.doFrames| && row.value.frame.doFrame == tr.doFrames[q]
    ensures InDoFrameOrder(rows + Listed(row)) && BeforeCursor(tr, rows + Listed(row), q)
  {
    if row.Some? {
      var rows' := rows + [row.value];
      forall i, j | 0 <= i < j < |rows'| ensures rows'[i].frame.doFrame.ts <= rows'[j].frame.doFrame.ts {
        assert rows'[i] in rows;
      }
    } else {
      assert rows + Listed(row) == rows;
    }
  }

  lemma {:induction false} SweptRowsInOrder(tr: Trace, n: nat)
    requires n <= |tr.vsyncApp| && Sorted(tr.doFrames)
    ensures InDoFrameOrder(SweptRows(tr, n))
    ensures BeforeCursor(tr, SweptRows(tr, n), Position(tr.doFrames, FloorsAfter(tr, n).doFrame))
  {
    if n > 0 {
      SweptRowsInOrder(tr, n - 1);
      var f, v := FloorsAfter(tr, n - 1), tr.vsyncApp[n - 1];
      SignalDoFrame(tr, f, v);
      PositionMonotone(tr.doFrames, f.doFrame, v);
      AppendInOrder(tr, SweptRows(tr, n - 1), Position(tr.doFrames, f.doFrame),
                    Signal(tr, f, v).row, Position(tr.doFrames, Raise(f.doFrame, v)));
    }
  }

  /** De-duplication keeps the order; a limit keeps a prefix. */
  lemma {:induction false} DistinctKeepsOrder(rows: seq<Row>)
    requires InDoFrameOrder(rows)
    ensures InDoFrameOrder(Distinct(rows))
  {
    if rows != [] {
      var front := rows[..|rows| - 1];
      DistinctKeepsOrder(front);
      DistinctIsDeduplication(front);
      forall i | 0 <= i < |Distinct(front)|
        ensures Distinct(front)[i].frame.doFrame.ts <= rows[|rows| - 1].frame.doFrame.ts
      {
        assert Distinct(front)[i] in front;
      }
    }
  }

  /** A table all of whose rows are ordered in time, without repeated indexes and in doFrame order. */
  ghost predicate Sound(rows: seq<Row>) {
    && (forall r :: r in rows ==> TimeOrdered(r.frame))
    && (forall i, j :: 0 <= i < j < |rows| ==> !SameIndex(rows[i], rows[j]))
    && InDoFrameOrder(rows)
  }

  lemma PrefixIsSound(whole: seq<Row>, rows: seq<Row>)
    requires Sound(whole) && rows <= whole
    ensures Sound(rows)
  {
    forall r | r in rows ensures TimeOrdered(r.frame) {
      assert r in whole;
    }
  }

  lemma DistinctIsSound(tr: Trace, n: nat)
    requires Sorted(tr.doFrames) && n <= |tr.vsyncApp|
    ensures Sound(Distinct(SweptRows(tr, n)))
  {
    SweptRowsTimeOrdered(tr, n);
    SweptRowsInOrder(tr, n);
    DistinctIsDeduplication(SweptRows(tr, n));
    DistinctKeepsOrder(SweptRows(tr, n));
  }

  /** All that is promised of a returned table, on any trace with doFrames ordered by start. */
  lemma ReturnedRows(tr: Trace, maxFrames: Option<int>)
    requires Sorted(tr.doFrames)
    ensures var all := Distinct(SweptRows(tr, |tr.vsyncApp|));
            var rows := Limited(all, maxFrames);
            && Sound(rows) && rows <= all
            && (maxFrames == None || (maxFrames.value >= 1 && |all| <= maxFrames.value) ==> rows == all)
            && (maxFrames.Some? && 1 <= maxFrames.value <= |all| ==> |rows| == maxFrames.value)
            && (maxFrames.Some? && maxFrames.value < 1 && SweptRows(tr, |tr.vsyncApp|) != [] ==> |rows| == 1)
  {
    var n := |tr.vsyncApp|;
    DistinctIsSound(tr, n);
    DistinctIsDeduplication(SweptRows(tr, n));
    PrefixIsSound(Distinct(SweptRows(tr, n)), Limited(Distinct(SweptRows(tr, n)), maxFrames));
  }

  // ---------------------------------------------------------------- one pass agrees with a search per signal

  /** What the queries guarantee of a trace: counter samples and DrawFrames come ordered by time. */
  ghost predicate Ordered(tr: Trace) {
    && (forall i, j :: 0 <= i < j < |tr.vsyncApp| ==> tr.vsyncApp[i] <= tr.vsyncApp[j])
    && Sorted(tr.drawFrames)
  }

  /** A trace in which, besides, no doFrame starts before the one before it has ended (a resynchronised doFrame may
      lie inside another, and the query returns both), and durations are at least -1 (an unfinished slice). */
  ghost predicate WellFormed(tr: Trace) {
    && Ordered(tr)
    && (forall i, j :: 0 <= i < j < |tr.doFrames| ==>
          tr.doFrames[i].ts + tr.doFrames[i].dur <= tr.doFrames[j].ts)
    && (forall r :: r in tr.recordDraws ==> r.dur >= -1)
  }

  ghost predicate IsFenceIn(s: seq<Plain>, d: DrawFrame, x: Plain) {
    IsFirst(s, d.ts, x) && x.ts + x.dur < d.ts + d.dur
  }

  /** `c` is the first doFrame of the signal `v`, it fits the expected frame timeline, and `rd` is its record-draw:
      the biggest one ending before it, which must not start before it. */
  ghost predicate IsRecorded(tr: Trace, v: int, c: DoFrame, rd: Plain) {
    && IsFirst(tr.doFrames, v, c)
    && (tr.expectedNames != {} ==> c.tag.Some? && c.tag.value in tr.expectedNames)
    && (c.tag.Some? && c.tag.value in tr.expectedStart ==>
          tr.expectedStart[c.tag.value] <= v && tr.expectedStart[c.tag.value] <= c.ts)
    && IsBiggestBefore(tr.recordDraws, c.ts + c.dur, rd) && c.ts <= rd.ts
  }

  /** A frame of a VSYNC-app signal whose DrawFrame is looked for from `t` on, said with quantifiers over the whole
      trace. */
  ghost predicate IsFrameFrom(tr: Trace, v: int, fr: Frame, t: int) {
    && fr.vsync == v
    && IsRecorded(tr, v, fr.doFrame, fr.recordDraw)
    && IsFirst(tr.drawFrames, t, fr.drawFrame) && fr.drawFrame.ts <= fr.doFrame.ts + fr.doFrame.dur
    && (if fr.inlineFence
        then IsFenceIn(tr.gpuSignaled, fr.drawFrame, fr.fence) &&
             forall x :: IsFenceIn(tr.gpuFences, fr.drawFrame, x) ==> fr.fence.ts < x.ts
        else IsFenceIn(tr.gpuFences, fr.drawFrame, fr.fence) &&
             forall x :: IsFenceIn(tr.gpuSignaled, fr.drawFrame, x) ==> fr.fence.ts <= x.ts)
    && tr.vsyncSf.Some? && IsFirst(tr.vsyncSf.value, v, fr.sf)
  }

  /** The frame of a signal: its DrawFrame is the first after its own record-draw. */
  ghost predicate IsFrameOf(tr: Trace, v: int, fr: Frame) {
    IsFrameFrom(tr, v, fr, fr.recordDraw.ts + fr.recordDraw.dur)
  }

  /** A search in which DrawFrames are read from the bound `m` on and every other stream from its beginning. */
  function SearchFrom(tr: Trace, v: int, m: Floor): Option<Frame> {
    FrameIn(Signal(tr, NO_FLOORS.(drawFrame := m), v).row)
  }

  /** A fresh search: the same signal with every stream read from its beginning. */
  function Search(tr: Trace, v: int): Option<Frame> {
    SearchFrom(tr, v, None)
  }

  function FrameIn(r: Option<Row>): Option<Frame> {
    if r.Some? then Some(r.value.frame) else None
  }

  lemma InsideIsFence(s: seq<Plain>, d: DrawFrame, x: Plain)
    ensures Inside(At(s, Some(d.ts)), d) == Some(x) <==> IsFenceIn(s, d, x)
  {
    AtIsFirst(s, d.ts, x);
  }

  lemma FencedIsMatch(tr: Trace, f: Floors, v: int, c: DoFrame, rd: Plain, d: DrawFrame, fr: Frame)
    requires AtMost(f.fence, d.ts) && AtMost(f.sf, v)
    ensures var r := Fenced(tr, f, v, c, rd, d).row;
            r.Some? && r.value.frame == fr <==>
            && fr.vsync == v && fr.doFrame == c && fr.recordDraw == rd && fr.drawFrame == d
            && (if fr.inlineFence
                then IsFenceIn(tr.gpuSignaled, d, fr.fence) &&
                     forall x :: IsFenceIn(tr.gpuFences, d, x) ==> fr.fence.ts < x.ts
                else IsFenceIn(tr.gpuFences, d, fr.fence) &&
                     forall x :: IsFenceIn(tr.gpuSignaled, d, x) ==> fr.fence.ts <= x.ts)
            && tr.vsyncSf.Some? && IsFirst(tr.vsyncSf.value, v, fr.sf)
  {
    forall x ensures Inside(At(tr.gpuFences, Some(d.ts)), d) == Some(x) <==> IsFenceIn(tr.gpuFences, d, x) {
      InsideIsFence(tr.gpuFences, d, x);
    }
    forall x ensures Inside(At(tr.gpuSignaled, Some(d.ts)), d) == Some(x) <==> IsFenceIn(tr.gpuSignaled, d, x) {
      InsideIsFence(tr.gpuSignaled, d, x);
    }
    if tr.vsyncSf.Some? {
      AtIsFirst(tr.vsyncSf.value, v, fr.sf);
    }
  }

  /** The first half of a match: the doFrame, its record-draw and the DrawFrame. */
  ghost predicate IsDrawn(tr: Trace, v: int, c: DoFrame, rd: Plain, d: DrawFrame, t: int) {
    IsRecorded(tr, v, c, rd) && IsFirst(tr.drawFrames, t, d) && d.ts <= c.ts + c.dur
  }

  predicate DrawnBySearch(tr: Trace, v: int, c: DoFrame, rd: Plain, d: DrawFrame, t: int) {
    && At(tr.doFrames, Some(v)) == Some(c) && Admissible(tr, v, c) && RecordDrawOf(tr, c) == Some(rd)
    && At(tr.drawFrames, Some(t)) == Some(d) && d.ts <= c.End()
  }

  function FencedBySearch(tr: Trace, v: int, c: DoFrame, rd: Plain, d: DrawFrame, t: int): Option<Row> {
    Fenced(tr, NO_FLOORS.(doFrame := Some(v), drawFrame := Some(t)), v, c, rd, d).row
  }

  lemma RecordedIsMatch(tr: Trace, v: int, c: DoFrame, rd: Plain)
    ensures IsRecorded(tr, v, c, rd) <==>
              At(tr.doFrames, Some(v)) == Some(c) && Admissible(tr, v, c) && RecordDrawOf(tr, c) == Some(rd)
  {
    AtIsFirst(tr.doFrames, v, c);
    BiggestBeforeIs(tr.recordDraws, c.End(), rd);
  }

  lemma DrawnIsMatch(tr: Trace, v: int, c: DoFrame, rd: Plain, d: DrawFrame, t: int)
    ensures IsDrawn(tr, v, c, rd, d, t) <==> DrawnBySearch(tr, v, c, rd, d, t)
  {
    RecordedIsMatch(tr, v, c, rd);
    AtIsFirst(tr.drawFrames, t, d);
  }

  lemma FencedFrame(tr: Trace, v: int, c: DoFrame, rd: Plain, d: DrawFrame, t: int)
    ensures var r := FencedBySearch(tr, v, c, rd, d, t);
            r.Some? ==> var fr := r.value.frame; fr.doFrame == c && fr.recordDraw == rd && fr.drawFrame == d
  {
  }

  /** The later of a floor and a bound. */
  function Later(m: Floor, t: int): int {
    Raise(m, t).value
  }

  lemma SearchStages(tr: Trace, v: int, m: Floor, fr: Frame)
    ensures var t := Later(m, fr.recordDraw.End());
            SearchFrom(tr, v, m) == Some(fr) <==>
            && DrawnBySearch(tr, v, fr.doFrame, fr.recordDraw, fr.drawFrame, t)
            && FrameIn(FencedBySearch(tr, v, fr.doFrame, fr.recordDraw, fr.drawFrame, t)) == Some(fr)
  {
    var c := At(tr.doFrames, Some(v));
    if c.Some? && RecordDrawOf(tr, c.value).Some? {
      var rd := RecordDrawOf(tr, c.value).value;
      var d := At(tr.drawFrames, Some(Later(m, rd.End())));
      if d.Some? {
        FencedFrame(tr, v, c.value, rd, d.value, Later(m, rd.End()));
      }
    }
  }

  /** A search finds a frame exactly when the declarative description of it holds. */
  lemma SearchFromIsMatch(tr: Trace, v: int, m: Floor, fr: Frame)
    ensures SearchFrom(tr, v, m) == Some(fr) <==> IsFrameFrom(tr, v, fr, Later(m, fr.recordDraw.End()))
  {
    var t := Later(m, fr.recordDraw.End());
    SearchStages(tr, v, m, fr);
    DrawnIsMatch(tr, v, fr.doFrame, fr.recordDraw, fr.drawFrame, t);
    FencedIsMatch(tr, NO_FLOORS.(doFrame := Some(v), drawFrame := Some(t)),
                  v, fr.doFrame, fr.recordDraw, fr.drawFrame, fr);
  }

  lemma SearchIsMatch(tr: Trace, v: int, fr: Frame)
    ensures Search(tr, v) == Some(fr) <==> IsFrameOf(tr, v, fr)
  {
    SearchFromIsMatch(tr, v, None, fr);
  }

  // ------------------------------------------------ what the cursors know of earlier signals

  /** Where the search of signal `v` starts reading DrawFrames, if it gets that far. */
  function DrawBound(tr: Trace, v: int): Option<int> {
    var c := At(tr.doFrames, Some(v));
    if c.Some? && Admissible(tr, v, c.value) && RecordDrawOf(tr, c.value).Some?
    then Some(RecordDrawOf(tr, c.value).value.End()) else None
  }

  /** The signal `v` gets as far as a record-draw, and that ends at `t`. */
  ghost predicate RecordDrawEnds(tr: Trace, v: int, t: int) {
    exists c, rd :: IsRecorded(tr, v, c, rd) && t == rd.ts + rd.dur
  }

  lemma DrawBoundIs(tr: Trace, v: int, t: int)
    ensures DrawBound(tr, v) == Some(t) <==> RecordDrawEnds(tr, v, t)
  {
    var c := At(tr.doFrames, Some(v));
    if c.Some? && RecordDrawOf(tr, c.value).Some? {
      RecordedIsMatch(tr, v, c.value, RecordDrawOf(tr, c.value).value);
    }
    if RecordDrawEnds(tr, v, t) {
      var c, rd :| IsRecorded(tr, v, c, rd) && t == rd.ts + rd.dur;
      RecordedIsMatch(tr, v, c, rd);
    }
  }

  /** The latest of these bounds over the first `n` signals. */
  function LatestBound(tr: Trace, n: nat): Floor
    requires n <= |tr.vsyncApp|
  {
    if n == 0 then None
    else
      var b := DrawBound(tr, tr.vsyncApp[n - 1]);
      if b.Some? then Raise(LatestBound(tr, n - 1), b.value) else LatestBound(tr, n - 1)
  }

  /** The record-draw of one of the first `n` signals ends at `t`. */
  ghost predicate IsBound(tr: Trace, n: nat, t: int)
    requires n <= |tr.vsyncApp|
  {
    exists j :: 0 <= j < n && RecordDrawEnds(tr, tr.vsyncApp[j], t)
  }

  /** The greatest of some numbers and one more. */
  lemma GreatestNext(before: int -> bool, after: int -> bool, f: Floor, b: Option<int>)
    requires (forall t :: before(t) ==> f.Some? && t <= f.value) && (f.Some? ==> before(f.value))
    requires forall t :: after(t) <==> before(t) || b == Some(t)
    ensures var g := if b.Some? then Raise(f, b.value) else f;
            (forall t :: after(t) ==> g.Some? && t <= g.value) && (g.Some? ==> after(g.value))
  {
    if b.Some? {
      var v: int := b.value;
      assert b == Some(v) && after(v);
    }
    if f.Some? {
      var v: int := f.value;
      assert before(v) && after(v);
    }
  }

  lemma {:induction false} LatestBoundIsGreatest(tr: Trace, n: nat)
    requires n <= |tr.vsyncApp|
    ensures forall t :: IsBound(tr, n, t) ==> LatestBound(tr, n).Some? && t <= LatestBound(tr, n).value
    ensures LatestBound(tr, n).Some? ==> IsBound(tr, n, LatestBound(tr, n).value)
  {
    if n > 0 {
      LatestBoundIsGreatest(tr, n - 1);
      var b := DrawBound(tr, tr.vsyncApp[n - 1]);
      forall t ensures IsBound(tr, n, t) <==> IsBound(tr, n - 1, t) || b == Some(t) {
        DrawBoundIs(tr, tr.vsyncApp[n - 1], t);
        OneMoreBound(tr, n - 1, t);
      }
      GreatestNext(t => IsBound(tr, n - 1, t), t => IsBound(tr, n, t), LatestBound(tr, n - 1), b);
    }
  }

  lemma OneMoreBound(tr: Trace, n: nat, t: int)
    requires n < |tr.vsyncApp|
    ensures IsBound(tr, n + 1, t) <==> IsBound(tr, n, t) || RecordDrawEnds(tr, tr.vsyncApp[n], t)
  {
    if IsBound(tr, n + 1, t) {
      var j :| 0 <= j < n + 1 && RecordDrawEnds(tr, tr.vsyncApp[j], t);
      assert j < n ==> IsBound(tr, n, t);
    }
    if IsBound(tr, n, t) {
      var j :| 0 <= j < n && RecordDrawEnds(tr, tr.vsyncApp[j], t);
      assert j < n + 1;
    }
  }

  /** The fence cursors have been advanced to the start of a DrawFrame that the DrawFrame cursor has reached. */
  ghost predicate FencesBehind(tr: Trace, f: Floors) {
    f.fence.Some? ==>
      exists k :: 0 <= k < |tr.drawFrames| && k <= Position(tr.drawFrames, f.drawFrame) && tr.drawFrames[k].ts == f.fence.value
  }

  /** Floors left by signals before `v`: none beyond what those signals asked for. */
  ghost predicate Behind(tr: Trace, f: Floors, v: int) {
    AtMost(f.doFrame, v) && AtMost(f.sf, v) && FencesBehind(tr, f)
  }

  lemma FenceFloorIsReached(tr: Trace, f: Floors, m: Floor, p: nat)
    requires Sorted(tr.drawFrames) && FencesBehind(tr, f)
    requires Position(tr.drawFrames, f.drawFrame) <= p == Position(tr.drawFrames, m) < |tr.drawFrames|
    ensures AtMost(f.fence, tr.drawFrames[p].ts)
  {
    if f.fence.Some? {
      var k :| 0 <= k < |tr.drawFrames| && k <= Position(tr.drawFrames, f.drawFrame) && tr.drawFrames[k].ts == f.fence.value;
      assert k < p ==> tr.drawFrames[k].ts <= tr.drawFrames[p].ts;
    }
  }

  lemma FencedFromNothing(tr: Trace, f: Floors, v: int, c: DoFrame, rd: Plain, d: DrawFrame)
    requires AtMost(f.fence, d.ts) && AtMost(f.sf, v)
    ensures var out, alone := Fenced(tr, f, v, c, rd, d), Fenced(tr, NO_FLOORS.(drawFrame := f.drawFrame), v, c, rd, d);
            && FrameIn(out.row) == FrameIn(alone.row)
            && out.floors.fence == Some(d.ts) && out.floors.drawFrame == f.drawFrame && out.floors.doFrame == f.doFrame
            && AtMost(out.floors.sf, v)
  {
  }

  /** What a signal finds and leaves depends on the past only through the bound of the DrawFrame cursor. */
  lemma SignalFromNothing(tr: Trace, f: Floors, v: int)
    requires Sorted(tr.drawFrames) && Behind(tr, f, v)
    ensures FrameIn(Signal(tr, f, v).row) == SearchFrom(tr, v, f.drawFrame)
    ensures var b := DrawBound(tr, v);
            Signal(tr, f, v).floors.drawFrame == if b.Some? then Raise(f.drawFrame, b.value) else f.drawFrame
    ensures Behind(tr, Signal(tr, f, v).floors, v)
  {
    var b := DrawBound(tr, v);
    if b.None? {
      return;
    }
    var m := Raise(f.drawFrame, b.value);
    var p := Position(tr.drawFrames, m);
    PositionMonotone(tr.drawFrames, f.drawFrame, b.value);
    if f.fence.Some? {
      var k :| 0 <= k < |tr.drawFrames| && k <= Position(tr.drawFrames, f.drawFrame) && tr.drawFrames[k].ts == f.fence.value;
      assert k <= p;
    }
    var c := At(tr.doFrames, Some(v)).value;
    if p < |tr.drawFrames| && tr.drawFrames[p].ts <= c.End() {
      FenceFloorIsReached(tr, f, m, p);
      FencedFromNothing(tr, f.(doFrame := Some(v), drawFrame := m), v, c, RecordDrawOf(tr, c).value, tr.drawFrames[p]);
      FencedFromNothing(tr, NO_FLOORS.(doFrame := Some(v), drawFrame := m), v, c, RecordDrawOf(tr, c).value, tr.drawFrames[p]);
    }
  }

  lemma {:induction false} FloorsTell(tr: Trace, n: nat)
    requires Ordered(tr) && n <= |tr.vsyncApp|
    ensures FloorsAfter(tr, n).drawFrame == LatestBound(tr, n)
    ensures forall v :: (n > 0 ==> tr.vsyncApp[n - 1] <= v) ==> Behind(tr, FloorsAfter(tr, n), v)
  {
    if n > 0 {
      FloorsTell(tr, n - 1);
      assert n > 1 ==> tr.vsyncApp[n - 2] <= tr.vsyncApp[n - 1];
      SignalFromNothing(tr, FloorsAfter(tr, n - 1), tr.vsyncApp[n - 1]);
    }
  }

  /** What the one pass finds for signal `i`. */
  function SweptFrame(tr: Trace, i: nat): Option<Frame>
    requires i < |tr.vsyncApp|
  {
    FrameIn(Signal(tr, FloorsAfter(tr, i), tr.vsyncApp[i]).row)
  }

  /** The one pass finds for each signal exactly what a search finds that reads DrawFrames from the latest bound of
      the earlier signals on, whether doFrames nest or not. */
  lemma SweepIsSearchFrom(tr: Trace, i: nat)
    requires Ordered(tr) && i < |tr.vsyncApp|
    ensures SweptFrame(tr, i) == SearchFrom(tr, tr.vsyncApp[i], LatestBound(tr, i))
  {
    FloorsTell(tr, i);
    assert i > 0 ==> tr.vsyncApp[i - 1] <= tr.vsyncApp[i];
    SignalFromNothing(tr, FloorsAfter(tr, i), tr.vsyncApp[i]);
  }

  // ------------------------------------------------ when that is the frame of the signal

  /** An earlier signal has moved the DrawFrame cursor past `t`. */
  ghost predicate PassedBefore(tr: Trace, i: nat, t: int)
    requires i <= |tr.vsyncApp|
  {
    exists b :: IsBound(tr, i, b) && b > t
  }

  ghost predicate IsLatestBound(tr: Trace, n: nat, t: int)
    requires n <= |tr.vsyncApp|
  {
    IsBound(tr, n, t) && !PassedBefore(tr, n, t)
  }

  lemma PassedIffLatest(tr: Trace, i: nat, t: int)
    requires i <= |tr.vsyncApp|
    ensures PassedBefore(tr, i, t) <==> LatestBound(tr, i).Some? && LatestBound(tr, i).value > t
  {
    LatestBoundIsGreatest(tr, i);
  }

  lemma FirstFromLater<T>(s: seq<Slice<T>>, m: Floor, t: int, x: Slice<T>)
    requires IsFirst(s, t, x)
    ensures IsFirst(s, Later(m, t), x) <==> AtMost(m, x.ts)
  {
  }

  /** The pass finds the frame of a signal exactly if no earlier signal had a record-draw that ended after the
      frame's DrawFrame began. */
  lemma SweepFindsTheFrameIff(tr: Trace, i: nat, fr: Frame)
    requires Ordered(tr) && i < |tr.vsyncApp| && IsFrameOf(tr, tr.vsyncApp[i], fr)
    ensures SweptFrame(tr, i) == Some(fr) <==> !PassedBefore(tr, i, fr.drawFrame.ts)
  {
    var m := LatestBound(tr, i);
    SweepIsSearchFrom(tr, i);
    SearchFromIsMatch(tr, tr.vsyncApp[i], m, fr);
    FirstFromLater(tr.drawFrames, m, fr.recordDraw.End(), fr.drawFrame);
    PassedIffLatest(tr, i, fr.drawFrame.ts);
  }

  /** No DrawFrame starts in [from, until). */
  ghost predicate NoneStarts(s: seq<DrawFrame>, from: int, until: int) {
    forall k :: 0 <= k < |s| ==> !(from <= s[k].ts < until)
  }

  lemma FirstFromEarlier(s: seq<DrawFrame>, m: Floor, t: int, x: DrawFrame)
    requires Sorted(s) && IsFirst(s, Later(m, t), x)
    ensures IsFirst(s, t, x) <==> NoneStarts(s, t, x.ts)
  {
    var k :| 0 <= k < |s| && s[k] == x && x.ts >= Later(m, t) && forall j :: 0 <= j < k ==> s[j].ts < Later(m, t);
    if IsFirst(s, t, x) {
      var l :| 0 <= l < |s| && s[l] == x && x.ts >= t && forall j :: 0 <= j < l ==> s[j].ts < t;
      assert forall j :: l <= j < |s| ==> s[j].ts >= s[l].ts;
    }
    if NoneStarts(s, t, x.ts) {
      assert forall j :: 0 <= j < k ==> s[j].ts < t;
    }
  }

  /** What the pass finds for a signal is the frame of that signal exactly if no DrawFrame was passed over. */
  lemma SweptFrameIsTheFrameIff(tr: Trace, i: nat, fr: Frame)
    requires Ordered(tr) && i < |tr.vsyncApp| && SweptFrame(tr, i) == Some(fr)
    ensures IsFrameOf(tr, tr.vsyncApp[i], fr) <==> NoneStarts(tr.drawFrames, fr.recordDraw.End(), fr.drawFrame.ts)
  {
    var m := LatestBound(tr, i);
    SweepIsSearchFrom(tr, i);
    SearchFromIsMatch(tr, tr.vsyncApp[i], m, fr);
    FirstFromEarlier(tr.drawFrames, m, fr.recordDraw.End(), fr.drawFrame);
  }

  // ------------------------------------------------ doFrames that do not overlap

  lemma FirstAtMonotone<T>(s: seq<Slice<T>>, t: int, u: int)
    requires t <= u
    ensures FirstAt(s, t) <= FirstAt(s, u)
  {
    FirstAtMeans(s, t);
    FirstAtMeans(s, u);
  }

  lemma DrawBoundMonotone(tr: Trace, v: int, w: int)
    requires WellFormed(tr) && v <= w && DrawBound(tr, v).Some? && DrawBound(tr, w).Some?
    ensures DrawBound(tr, v).value <= DrawBound(tr, w).value
  {
    FirstAtMonotone(tr.doFrames, v, w);
    var i, j := FirstAt(tr.doFrames, v), FirstAt(tr.doFrames, w);
    if i < j {
      assert tr.doFrames[i].End() <= tr.doFrames[j].ts;
      BiggestBeforeMeans(tr.recordDraws, tr.doFrames[j].End());
    }
  }

  /** Then the past does not matter: each signal finds its own frame. */
  lemma SweepIsSearch(tr: Trace, i: nat)
    requires WellFormed(tr) && i < |tr.vsyncApp|
    ensures SweptFrame(tr, i) == Search(tr, tr.vsyncApp[i])
  {
    var b, m := DrawBound(tr, tr.vsyncApp[i]), LatestBound(tr, i);
    SweepIsSearchFrom(tr, i);
    if b.Some? && m.Some? {
      var j := LatestBoundHasSignal(tr, i);
      DrawBoundMonotone(tr, tr.vsyncApp[j], tr.vsyncApp[i]);
      assert Raise(m, b.value) == Raise(None, b.value);
    }
  }

  lemma LatestBoundHasSignal(tr: Trace, n: nat) returns (j: nat)
    requires n <= |tr.vsyncApp| && LatestBound(tr, n).Some?
    ensures j < n && DrawBound(tr, tr.vsyncApp[j]) == LatestBound(tr, n)
  {
    LatestBoundIsGreatest(tr, n);
    j :| 0 <= j < n && RecordDrawEnds(tr, tr.vsyncApp[j], LatestBound(tr, n).value);
    DrawBoundIs(tr, tr.vsyncApp[j], LatestBound(tr, n).value);
  }

  function Frames(rows: seq<Row>): seq<Frame> {
    seq(|rows|, i requires 0 <= i < |rows| => rows[i].frame)
  }

  function Collected<T>(xs: seq<Option<T>>): seq<T> {
    if xs == [] then [] else Collected(xs[..|xs| - 1]) + Listed(xs[|xs| - 1])
  }

  lemma {:induction false} CollectedMember<T>(xs: seq<Option<T>>, x: T)
    ensures x in Collected(xs) <==> Some(x) in xs
  {
    if xs != [] {
      CollectedMember(xs[..|xs| - 1], x);
      assert xs == xs[..|xs| - 1] + [xs[|xs| - 1]];
    }
  }

  function Searches(tr: Trace, n: nat): (r: seq<Option<Frame>>)
    requires n <= |tr.vsyncApp|
  {
    seq(n, i requires 0 <= i < n => Search(tr, tr.vsyncApp[i]))
  }

  /** The frames an independent search per signal finds, in signal order. */
  function SearchedFrames(tr: Trace, n: nat): seq<Frame>
    requires n <= |tr.vsyncApp|
  {
    Collected(Searches(tr, n))
  }

  lemma OneMoreFrame(tr: Trace, n: nat)
    requires n < |tr.vsyncApp|
    ensures Frames(SweptRows(tr, n + 1)) == Frames(SweptRows(tr, n)) + Listed(SweptFrame(tr, n))
  {
  }

  lemma OneMoreSearch(tr: Trace, n: nat)
    requires n < |tr.vsyncApp|
    ensures SearchedFrames(tr, n + 1) == SearchedFrames(tr, n) + Listed(Search(tr, tr.vsyncApp[n]))
  {
    assert Searches(tr, n + 1)[..n] == Searches(tr, n);
  }

  /** One pass with six cursors finds exactly what a fresh search per signal finds. */
  lemma {:induction false} SweepFindsEveryFrame(tr: Trace, n: nat)
    requires WellFormed(tr) && n <= |tr.vsyncApp|
    ensures Frames(SweptRows(tr, n)) == SearchedFrames(tr, n)
  {
    if n > 0 {
      SweepFindsEveryFrame(tr, n - 1);
      SweepFindsTheNext(tr, n - 1);
    }
  }

  lemma SweepFindsTheNext(tr: Trace, n: nat)
    requires WellFormed(tr) && n < |tr.vsyncApp| && Frames(SweptRows(tr, n)) == SearchedFrames(tr, n)
    ensures Frames(SweptRows(tr, n + 1)) == SearchedFrames(tr, n + 1)
  {
    SweepIsSearch(tr, n);
    OneMoreFrame(tr, n);
    OneMoreSearch(tr, n);
  }

  /** Said of the frames themselves: a frame is found exactly when some signal has it. */
  lemma SearchedFramesAreMatches(tr: Trace, n: nat, fr: Frame)
    requires n <= |tr.vsyncApp|
    ensures fr in SearchedFrames(tr, n) <==> exists i :: 0 <= i < n && IsFrameOf(tr, tr.vsyncApp[i], fr)
  {
    CollectedMember(Searches(tr, n), fr);
    forall i | 0 <= i < n
      ensures Searches(tr, n)[i] == Some(fr) <==> IsFrameOf(tr, tr.vsyncApp[i], fr)
    {
      SearchIsMatch(tr, tr.vsyncApp[i], fr);
    }
  }

  // ------------------------------------------------ the table

  lemma {:induction false} RowHasASignal(tr: Trace, n: nat, r: Row) returns (i: nat)
    requires n <= |tr.vsyncApp| && r in SweptRows(tr, n)
    ensures i < n && SweptFrame(tr, i) == Some(r.frame)
  {
    if r in SweptRows(tr, n - 1) {
      i := RowHasASignal(tr, n - 1, r);
    } else {
      i := n - 1;
    }
  }

  lemma {:induction false} SweptFrameHasARow(tr: Trace, n: nat, i: nat) returns (r: Row)
    requires i < n <= |tr.vsyncApp| && SweptFrame(tr, i).Some?
    ensures r in SweptRows(tr, n) && SweptFrame(tr, i) == Some(r.frame)
  {
    if i == n - 1 {
      r := NewestRow(tr, i);
    } else {
      r := SweptFrameHasARow(tr, n - 1, i);
    }
  }

  lemma NewestRow(tr: Trace, i: nat) returns (r: Row)
    requires i < |tr.vsyncApp| && SweptFrame(tr, i).Some?
    ensures r in SweptRows(tr, i + 1) && SweptFrame(tr, i) == Some(r.frame)
  {
    r := Signal(tr, FloorsAfter(tr, i), tr.vsyncApp[i]).row.value;
  }

  /** Every row of the table shows, for some signal, the frame with the first DrawFrame after all record-draws of the
      signals up to it; it is the signal's own frame exactly if no DrawFrame was passed over. */
  lemma ReturnedIsMatch(tr: Trace, r: Row) returns (i: nat, t: int)
    requires Ordered(tr) && r in Distinct(SweptRows(tr, |tr.vsyncApp|))
    ensures i < |tr.vsyncApp| && IsFrameFrom(tr, tr.vsyncApp[i], r.frame, t)
    ensures IsLatestBound(tr, i + 1, t)
    ensures IsFrameOf(tr, tr.vsyncApp[i], r.frame)
       <==> NoneStarts(tr.drawFrames, r.frame.recordDraw.ts + r.frame.recordDraw.dur, r.frame.drawFrame.ts)
  {
    DistinctIsDeduplication(SweptRows(tr, |tr.vsyncApp|));
    i := RowHasASignal(tr, |tr.vsyncApp|, r);
    SweepIsSearchFrom(tr, i);
    SearchFromIsMatch(tr, tr.vsyncApp[i], LatestBound(tr, i), r.frame);
    SweptFrameIsTheFrameIff(tr, i, r.frame);
    t := Later(LatestBound(tr, i), r.frame.recordDraw.End());
    LatestWithOwn(tr, i, r.frame.doFrame, r.frame.recordDraw);
  }

  /** The latest record-draw end of the signals up to one that has a record-draw. */
  lemma LatestWithOwn(tr: Trace, i: nat, c: DoFrame, rd: Plain)
    requires i < |tr.vsyncApp| && IsRecorded(tr, tr.vsyncApp[i], c, rd)
    ensures IsLatestBound(tr, i + 1, Later(LatestBound(tr, i), rd.End()))
  {
    LatestBoundIsGreatest(tr, i + 1);
    assert RecordDrawEnds(tr, tr.vsyncApp[i], rd.ts + rd.dur);
    DrawBoundIs(tr, tr.vsyncApp[i], rd.End());
  }

  /** The doFrame of every returned row fits the expected frame timeline. */
  lemma ReturnedRowIsExpected(tr: Trace, maxFrames: Option<int>, r: Row)
    requires r in Limited(Distinct(SweptRows(tr, |tr.vsyncApp|)), maxFrames)
    ensures tr.expectedNames != {} ==>
              exists name :: name in tr.expectedNames && r.frame.doFrame.tag == Some(name)
    ensures r.frame.doFrame.tag.Some? && r.frame.doFrame.tag.value in tr.expectedStart ==>
              var start := tr.expectedStart[r.frame.doFrame.tag.value];
              start <= r.frame.vsync && start <= r.frame.doFrame.ts
  {
    DistinctIsDeduplication(SweptRows(tr, |tr.vsyncApp|));
    SweptRowIsExpected(tr, |tr.vsyncApp|, r);
  }

  lemma {:induction false} SweptRowIsExpected(tr: Trace, n: nat, r: Row)
    requires n <= |tr.vsyncApp| && r in SweptRows(tr, n)
    ensures Admissible(tr, r.frame.vsync, r.frame.doFrame)
  {
    if r in SweptRows(tr, n - 1) {
      SweptRowIsExpected(tr, n - 1, r);
    }
  }

  /** The doFrame's name is expected, if there are expected names, and its expected start, if it has one, is at most
      the signal and its own start. */
  ghost predicate FitsTimeline(tr: Trace, v: int, c: DoFrame) {
    && (tr.expectedNames == {} || exists name :: name in tr.expectedNames && c.tag == Some(name))
    && (forall name :: name in tr.expectedStart && c.tag == Some(name) ==>
          tr.expectedStart[name] <= v && tr.expectedStart[name] <= c.ts)
  }

  lemma FitsIffBound(tr: Trace, v: int, c: DoFrame, rd: Plain)
    requires IsFirst(tr.doFrames, v, c) && IsBiggestBefore(tr.recordDraws, c.ts + c.dur, rd) && c.ts <= rd.ts
    ensures DrawBound(tr, v) == if FitsTimeline(tr, v, c) then Some(rd.ts + rd.dur) else None
  {
    BiggestBeforeIs(tr.recordDraws, c.End(), rd);
    AtIsFirst(tr.doFrames, v, c);
  }

  /** A signal whose first doFrame has a record-draw goes on to the DrawFrames exactly if that doFrame fits the
      timeline; a signal that does not go on finds nothing and leaves the DrawFrame cursor alone. */
  lemma ExpectedSignalGoesOn(tr: Trace, i: nat, c: DoFrame, rd: Plain)
    requires Ordered(tr) && i < |tr.vsyncApp| && IsFirst(tr.doFrames, tr.vsyncApp[i], c)
    requires IsBiggestBefore(tr.recordDraws, c.ts + c.dur, rd) && c.ts <= rd.ts
    ensures var before, after := FloorsAfter(tr, i).drawFrame, FloorsAfter(tr, i + 1).drawFrame;
            if FitsTimeline(tr, tr.vsyncApp[i], c)
            then after == if before.Some? && before.value > rd.ts + rd.dur then before else Some(rd.ts + rd.dur)
            else SweptFrame(tr, i).None? && after == before
  {
    FloorsTell(tr, i);
    assert i > 0 ==> tr.vsyncApp[i - 1] <= tr.vsyncApp[i];
    FitsIffBound(tr, tr.vsyncApp[i], c, rd);
    SignalFromNothing(tr, FloorsAfter(tr, i), tr.vsyncApp[i]);
  }

  /** And the frame of every signal that no earlier signal has moved past is in the table, or another frame with its
      index is. */
  lemma MatchIsReturned(tr: Trace, i: nat, fr: Frame) returns (r: Row)
    requires Ordered(tr) && i < |tr.vsyncApp| && IsFrameOf(tr, tr.vsyncApp[i], fr)
    requires !PassedBefore(tr, i, fr.drawFrame.ts)
    ensures r.frame == fr && Represented(Distinct(SweptRows(tr, |tr.vsyncApp|)), r)
  {
    SweepFindsTheFrameIff(tr, i, fr);
    r := SweptFrameHasARow(tr, |tr.vsyncApp|, i);
    DistinctIsDeduplication(SweptRows(tr, |tr.vsyncApp|));
  }

  /** Where doFrames do not overlap no frame is moved past. */
  lemma NothingIsPassed(tr: Trace, i: nat, fr: Frame)
    requires WellFormed(tr) && i < |tr.vsyncApp| && IsFrameOf(tr, tr.vsyncApp[i], fr)
    ensures !PassedBefore(tr, i, fr.drawFrame.ts)
  {
    SweepIsSearch(tr, i);
    SearchIsMatch(tr, tr.vsyncApp[i], fr);
    SweepFindsTheFrameIff(tr, i, fr);
  }

  /** doFrames that nest (a resynchronised doFrame inside another) do break the agreement: here the outer
      doFrame moves the DrawFrame cursor past the one DrawFrame that belongs to the inner doFrame. */
  const NESTED := Trace([0, 15], Some([Slice(20, 0, ())]),
                        [Slice(10, 190, None), Slice(20, 70, None)],
                        [Slice(30, 10, ()), Slice(150, 10, ())],
                        [Slice(50, 30, Some(1)), Slice(170, 20, Some(2))],
                        [Slice(60, 10, ()), Slice(175, 5, ())], [], [], {}, map[])

  lemma NestedRecordDraws()
    ensures RecordDrawOf(NESTED, NESTED.doFrames[0]) == Some(NESTED.recordDraws[1])
    ensures RecordDrawOf(NESTED, NESTED.doFrames[1]) == Some(NESTED.recordDraws[0])
  {
    var rds := NESTED.recordDraws;
    assert rds[..1] == [rds[0]] && rds[..1][..0] == [];
    assert BiggestBefore(rds[..1], 90) == Some(rds[0]) && BiggestBefore(rds[..1], 200) == Some(rds[0]);
  }

  lemma NestedOuter()
    ensures FloorsAfter(NESTED, 1).doFrame == Some(0) && FloorsAfter(NESTED, 1).drawFrame == Some(160)
  {
    NestedRecordDraws();
    assert At(NESTED.doFrames, Some(0)) == Some(NESTED.doFrames[0]);
    assert FloorsAfter(NESTED, 0) == NO_FLOORS;
  }

  lemma NestedInner()
    ensures Search(NESTED, 15).Some?
  {
    NestedRecordDraws();
    assert At(NESTED.doFrames, Some(15)) == Some(NESTED.doFrames[1]) by { assert FirstAt(NESTED.doFrames, 15, 1) == 1; }
    assert At(NESTED.drawFrames, Some(40)) == Some(NESTED.drawFrames[0]);
    assert At(NESTED.gpuFences, Some(50)) == Some(NESTED.gpuFences[0]);
    assert At(NESTED.vsyncSf.value, Some(15)) == Some(NESTED.vsyncSf.value[0]);
  }

  lemma NestedDoFramesLoseAFrame()
    ensures Ordered(NESTED) && !WellFormed(NESTED)
    ensures Search(NESTED, 15).Some?
    ensures Signal(NESTED, FloorsAfter(NESTED, 1), 15).row.None?
  {
    assert NESTED.doFrames[0].End() > NESTED.doFrames[1].ts;
    NestedInner();
    NestedOuter();
    NestedRecordDraws();
    assert At(NESTED.doFrames, Some(15)) == Some(NESTED.doFrames[1]) by { assert FirstAt(NESTED.doFrames, 15, 1) == 1; }
    assert At(NESTED.drawFrames, Some(160)) == Some(NESTED.drawFrames[1]) by { assert FirstAt(NESTED.drawFrames, 160, 1) == 1; }
  }
}
