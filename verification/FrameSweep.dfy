/** The one-pass frame sweep: VSYNC-app signals drive cursors over doFrame, DrawFrame, two fence streams,
    GPU completions and VSYNC-sf samples. The sweep is first tied, on every trace, to a recursion in which
    a cursor is only a lower bound ("floor"); which floors matter, and when, is then shown of that recursion. */
module FrameSweep {
  import opened Options
  import opened FrameStreams
  import Intervals

  type Plain = Slice<()>
  type DoFrame = Slice<Option<string>>   // tag: frame name read off the slice's name, if it has one
  type DrawFrame = Slice<Option<int>>    // tag: frame index read off the slice's name, if it is a number

  /** The query results the sweep reads. Counter samples (VSYNC) carry no duration.
      `vsyncSf` is None when the trace does not hold exactly one VSYNC-sf track. */
  datatype Trace = Trace(
    vsyncApp: seq<int>, vsyncSf: Option<seq<Plain>>,
    doFrames: seq<DoFrame>, recordDraws: seq<Plain>, drawFrames: seq<DrawFrame>,
    gpuFences: seq<Plain>, gpuSignaled: seq<Plain>, gpuCompletions: seq<Plain>,
    expectedNames: set<string>, expectedStart: map<string, int>)

  datatype Frame = Frame(vsync: int, doFrame: DoFrame, recordDraw: Plain, drawFrame: DrawFrame,
                         fence: Plain, inlineFence: bool, sf: Plain)

  /** `completion` is the GPU completion cursor; when it is None the columns fall back to the fence end. */
  datatype Row = Row(frame: Frame, completion: Option<Plain>)

  function CompletionStart(r: Row): int {
    if r.completion.Some? then r.completion.value.ts else r.frame.fence.End()
  }

  function CompletionEnd(r: Row): int {
    if r.completion.Some? then r.completion.value.End() else r.frame.fence.End()
  }

  /** Validation of a doFrame against the expected frame timeline. */
  predicate Admissible(tr: Trace, v: int, c: DoFrame) {
    && (tr.expectedNames != {} ==> c.tag.Some? && c.tag.value in tr.expectedNames)
    && (c.tag.Some? && c.tag.value in tr.expectedStart ==>
          tr.expectedStart[c.tag.value] <= v && tr.expectedStart[c.tag.value] <= c.ts)
  }

  /** The record-draw of a doFrame: the biggest one ending before it, unless it started before the doFrame. */
  function RecordDrawOf(tr: Trace, c: DoFrame): Option<Plain> {
    var rd := BiggestBefore(tr.recordDraws, c.End());
    if rd.Some? && rd.value.ts >= c.ts then rd else None
  }

  function Inside(x: Option<Plain>, d: DrawFrame): Option<Plain> {
    if x.Some? && x.value.ts >= d.ts && x.value.End() < d.End() then x else None
  }

  // ---------------------------------------------------------------- the sweep as a recursion over floors

  datatype Floors = Floors(doFrame: Floor, drawFrame: Floor, fence: Floor, completion: Floor, sf: Floor)

  const NO_FLOORS := Floors(None, None, None, None, None)

  /** Outcome of one VSYNC-app signal: the floors it leaves behind and the frame it finds. */
  datatype Outcome = Outcome(floors: Floors, row: Option<Row>)

  function Signal(tr: Trace, f: Floors, v: int): Outcome {
    var f1 := f.(doFrame := Raise(f.doFrame, v));
    var c := At(tr.doFrames, f1.doFrame);
    if c.None? || !Admissible(tr, v, c.value) then Outcome(f1, None)
    else
      var rd := RecordDrawOf(tr, c.value);
      if rd.None? then Outcome(f1, None)
      else
        var f2 := f1.(drawFrame := Raise(f1.drawFrame, rd.value.End()));
        var d := At(tr.drawFrames, f2.drawFrame);
        if d.None? || c.value.End() < d.value.ts then Outcome(f2, None)
        else Fenced(tr, f2, v, c.value, rd.value, d.value)
  }

  function Fenced(tr: Trace, f: Floors, v: int, c: DoFrame, rd: Plain, d: DrawFrame): Outcome {
    var f3 := f.(fence := Raise(f.fence, d.ts));
    var traced := Inside(At(tr.gpuFences, f3.fence), d);
    var signaled := Inside(At(tr.gpuSignaled, f3.fence), d);
    var f4 := if traced.Some? then f3.(completion := Raise(f3.completion, traced.value.End())) else f3;
    var isInline := signaled.Some? && (traced.None? || signaled.value.ts < traced.value.ts);
    if (traced.None? && signaled.None?) || tr.vsyncSf.None? then Outcome(f4, None)
    else
      var fence := if isInline then signaled.value else traced.value;
      var f5 := f4.(sf := Raise(f4.sf, v));
      var sf := At(tr.vsyncSf.value, f5.sf);
      if sf.None? then Outcome(f5, None)
      else Outcome(f5, Some(Row(Frame(v, c, rd, d, fence, isInline, sf.value),
                                At(tr.gpuCompletions, f5.completion))))
  }

  function FloorsAfter(tr: Trace, n: nat): Floors
    requires n <= |tr.vsyncApp|
  {
    if n == 0 then NO_FLOORS else Signal(tr, FloorsAfter(tr, n - 1), tr.vsyncApp[n - 1]).floors
  }

  function Listed<T>(x: Option<T>): seq<T> {
    if x.Some? then [x.value] else []
  }

  /** Rows found by the first `n` signals when cursors never move back. */
  function SweptRows(tr: Trace, n: nat): seq<Row>
    requires n <= |tr.vsyncApp|
  {
    if n == 0 then []
    else SweptRows(tr, n - 1) + Listed(Signal(tr, FloorsAfter(tr, n - 1), tr.vsyncApp[n - 1]).row)
  }

  function Indexes(rows: seq<Row>): set<int> {
    set r | r in rows && r.frame.drawFrame.tag.Some? :: r.frame.drawFrame.tag.value
  }

  /** Drops a row whose frame index occurred before; rows without an index are all kept. */
  function Distinct(rows: seq<Row>): seq<Row> {
    if rows == [] then []
    else
      var front, r := rows[..|rows| - 1], rows[|rows| - 1];
      if r.frame.drawFrame.tag.Some? && r.frame.drawFrame.tag.value in Indexes(front) then Distinct(front)
      else Distinct(front) + [r]
  }

  /** `max_frames`: None is no limit; the limit is only tested after a row was added. */
  function Limited(rows: seq<Row>, maxFrames: Option<int>): seq<Row> {
    if maxFrames.None? then rows
    else
      var k := Intervals.Max(1, maxFrames.value);
      if |rows| <= k then rows else rows[..k]
  }

  // ---------------------------------------------------------------- the sweep itself

  /** The move counters of the report. */
  datatype Counts = Counts(vsyncApp: nat, vsyncSf: nat, doFrame: nat, drawFrame: nat,
                           fence: nat, signaled: nat, completion: nat)

  predicate WithinStreams(tr: Trace, n: Counts) {
    && n.vsyncApp <= |tr.vsyncApp| && n.vsyncSf <= (if tr.vsyncSf.Some? then |tr.vsyncSf.value| else 0)
    && n.doFrame <= |tr.doFrames| && n.drawFrame <= |tr.drawFrames|
    && n.fence <= |tr.gpuFences| && n.signaled <= |tr.gpuSignaled| && n.completion <= |tr.gpuCompletions|
  }

  /** Positions of the six cursors; a cursor at the length of its stream reads as None. */
  datatype Cursors = Cursors(doFrame: nat, drawFrame: nat, fence: nat, signaled: nat, completion: nat, sf: nat)

  ghost predicate AtFloors(tr: Trace, cur: Cursors, f: Floors) {
    && tr.vsyncSf.Some?
    && cur == Cursors(Position(tr.doFrames, f.doFrame), Position(tr.drawFrames, f.drawFrame),
                      Position(tr.gpuFences, f.fence), Position(tr.gpuSignaled, f.fence),
                      Position(tr.gpuCompletions, f.completion), Position(tr.vsyncSf.value, f.sf))
  }

  /** The part of the loop body up to the record-draw. */
  method FindDrawn(tr: Trace, cur: Cursors, v: int, ghost f: Floors)
    returns (next: Cursors, drawn: Option<(DoFrame, Plain)>, stop: bool)
    requires AtFloors(tr, cur, f)
    ensures AtFloors(tr, next, f.(doFrame := Raise(f.doFrame, v)))
    ensures var c := At(tr.doFrames, Raise(f.doFrame, v));
            && stop == c.None?
            && drawn == if c.Some? && Admissible(tr, v, c.value) && RecordDrawOf(tr, c.value).Some?
                        then Some((c.value, RecordDrawOf(tr, c.value).value)) else None
  {
    drawn, stop := None, false;
    AdvanceRaisesFloor(tr.doFrames, f.doFrame, v);
    var k := SkipBefore(tr.doFrames, cur.doFrame, v);
    next := cur.(doFrame := k);
    if k == |tr.doFrames| {
      stop := true;
      return;
    }
    var doFrame := tr.doFrames[k];
    if !Admissible(tr, v, doFrame) {
      return;
    }
    var recordDraw := BiggestBefore(tr.recordDraws, doFrame.End());
    if recordDraw.None? || recordDraw.value.End() >= doFrame.End() || recordDraw.value.ts < doFrame.ts {
      return;
    }
    drawn := Some((doFrame, recordDraw.value));
  }

  /** The part of the loop body from the DrawFrame found to the row to be added. */
  method FindFenced(tr: Trace, cur: Cursors, v: int, c: DoFrame, rd: Plain, d: DrawFrame, ghost f: Floors)
    returns (next: Cursors, row: Option<Row>)
    requires AtFloors(tr, cur, f)
    ensures AtFloors(tr, next, Fenced(tr, f, v, c, rd, d).floors)
    ensures row == Fenced(tr, f, v, c, rd, d).row
  {
    row := None;
    AdvanceRaisesFloor(tr.gpuFences, f.fence, d.ts);
    AdvanceRaisesFloor(tr.gpuSignaled, f.fence, d.ts);
    var fe := SkipBefore(tr.gpuFences, cur.fence, d.ts);
    var sg := SkipBefore(tr.gpuSignaled, cur.signaled, d.ts);
    next := cur.(fence := fe, signaled := sg);
    var fence: Option<Plain>, isInline := None, false;
    if fe < |tr.gpuFences| && tr.gpuFences[fe].ts >= d.ts && tr.gpuFences[fe].End() < d.End() {
      fence := Some(tr.gpuFences[fe]);
      AdvanceRaisesFloor(tr.gpuCompletions, f.completion, fence.value.End());
      var gc := SkipBefore(tr.gpuCompletions, cur.completion, fence.value.End());
      next := next.(completion := gc);
    }
    if sg < |tr.gpuSignaled| && tr.gpuSignaled[sg].ts >= d.ts && tr.gpuSignaled[sg].End() < d.End() {
      if fence.None? || tr.gpuSignaled[sg].ts < fence.value.ts {
        fence, isInline := Some(tr.gpuSignaled[sg]), true;
      }
    }
    if fence.None? {
      return;
    }
    AdvanceRaisesFloor(tr.vsyncSf.value, f.sf, v);
    var sf := SkipBefore(tr.vsyncSf.value, cur.sf, v);
    next := next.(sf := sf);
    if sf == |tr.vsyncSf.value| {
      return;
    }
    var gc := next.completion;
    var completion := if gc < |tr.gpuCompletions| then Some(tr.gpuCompletions[gc]) else None;
    row := Some(Row(Frame(v, c, rd, d, fence.value, isInline, tr.vsyncSf.value[sf]), completion));
  }

  /** The signal finds no doFrame left, or it gets as far as a record-draw and finds no DrawFrame left. */
  predicate RunsOut(tr: Trace, f: Floors, v: int) {
    var c := At(tr.doFrames, Raise(f.doFrame, v));
    || c.None?
    || (Admissible(tr, v, c.value) && RecordDrawOf(tr, c.value).Some? &&
        At(tr.drawFrames, Raise(f.drawFrame, RecordDrawOf(tr, c.value).value.End())).None?)
  }

  /** The loop body before de-duplication; `stop` is the program's `break` for an exhausted stream. */
  method ProcessSignal(tr: Trace, cur: Cursors, v: int, ghost f: Floors)
    returns (next: Cursors, row: Option<Row>, stop: bool)
    requires AtFloors(tr, cur, f)
    ensures AtFloors(tr, next, Signal(tr, f, v).floors)
    ensures row == Signal(tr, f, v).row
    ensures stop == RunsOut(tr, f, v)
    ensures stop ==> row.None? && Exhausted(tr, Signal(tr, f, v).floors)
  {
    row := None;
    var drawn;
    next, drawn, stop := FindDrawn(tr, cur, v, f);
    if drawn.None? {
      return;
    }
    var (c, rd) := drawn.value;
    ghost var f1 := f.(doFrame := Raise(f.doFrame, v));
    AdvanceRaisesFloor(tr.drawFrames, f1.drawFrame, rd.End());
    var k := SkipBefore(tr.drawFrames, next.drawFrame, rd.End());
    next := next.(drawFrame := k);
    if k == |tr.drawFrames| {
      stop := true;
      return;
    }
    if c.End() < tr.drawFrames[k].ts {
      return;
    }
    next, row := FindFenced(tr, next, v, c, rd, tr.drawFrames[k], f1.(drawFrame := Raise(f1.drawFrame, rd.End())));
  }

  /** Keeps the table the de-duplication of everything found so far, `swept`, and the set that of its indexes. */
  method Record(rows: seq<Row>, found: set<int>, row: Option<Row>, ghost swept: seq<Row>)
    returns (nextRows: seq<Row>, nextFound: set<int>)
    requires rows == Distinct(swept) && found == Indexes(swept)
    ensures nextRows == Distinct(swept + Listed(row)) && nextFound == Indexes(swept + Listed(row))
  {
    AppendDistinct(swept, row);
    nextRows, nextFound := rows, found;
    if row.None? {
      return;
    }
    var index := row.value.frame.drawFrame.tag;
    if index.Some? && index.value in found {
      return;
    }
    if index.Some? {
      nextFound := found + {index.value};
    }
    nextRows := rows + [row.value];
  }

  /** State of the loop after `i` signals. */
  ghost predicate Reached(tr: Trace, i: nat, cur: Cursors, rows: seq<Row>, found: set<int>)
    requires i <= |tr.vsyncApp|
  {
    && AtFloors(tr, cur, FloorsAfter(tr, i))
    && rows == Distinct(SweptRows(tr, i)) && found == Indexes(SweptRows(tr, i))
  }

  /** One turn of the loop. */
  method Turn(tr: Trace, i: nat, cur: Cursors, rows: seq<Row>, found: set<int>)
    returns (nextCur: Cursors, nextRows: seq<Row>, nextFound: set<int>, stop: bool)
    requires i < |tr.vsyncApp| && Reached(tr, i, cur, rows, found)
    ensures Reached(tr, i + 1, nextCur, nextRows, nextFound)
    ensures |rows| <= |nextRows| <= |rows| + 1
    ensures stop == RunsOut(tr, FloorsAfter(tr, i), tr.vsyncApp[i])
    ensures stop ==> nextRows == rows == Distinct(SweptRows(tr, |tr.vsyncApp|))
  {
    AppendSignal(tr, i);
    var row;
    nextCur, row, stop := ProcessSignal(tr, cur, tr.vsyncApp[i], FloorsAfter(tr, i));
    nextRows, nextFound := Record(rows, found, row, SweptRows(tr, i));
    if stop {
      ExhaustedIsFinal(tr, i + 1, |tr.vsyncApp|);
    }
  }

  /** The program leaves the loop at signal `i`: a stream ran out, or a row was added and the limit is reached. */
  predicate LeavesAt(tr: Trace, maxFrames: Option<int>, i: nat)
    requires i < |tr.vsyncApp|
  {
    || RunsOut(tr, FloorsAfter(tr, i), tr.vsyncApp[i])
    || (|Distinct(SweptRows(tr, i))| < |Distinct(SweptRows(tr, i + 1))| &&
        maxFrames.Some? && |Distinct(SweptRows(tr, i + 1))| >= maxFrames.value)
  }

  /** `n` signals are looked at: the loop is left at the last of them and not before, or all are looked at. */
  ghost predicate IsSignalCount(tr: Trace, maxFrames: Option<int>, n: nat) {
    && n <= |tr.vsyncApp|
    && StaysBefore(tr, maxFrames, n - 1)
    && (n < |tr.vsyncApp| ==> n > 0 && LeavesAt(tr, maxFrames, n - 1))
  }

  ghost predicate StaysBefore(tr: Trace, maxFrames: Option<int>, n: int)
    requires n <= |tr.vsyncApp|
  {
    forall i :: 0 <= i < n ==> !LeavesAt(tr, maxFrames, i)
  }

  /** How far each cursor has moved after `n` signals. */
  function MovesAfter(tr: Trace, n: nat): Counts
    requires n <= |tr.vsyncApp| && tr.vsyncSf.Some?
  {
    var f := FloorsAfter(tr, n);
    Counts(n, Position(tr.vsyncSf.value, f.sf), Position(tr.doFrames, f.doFrame), Position(tr.drawFrames, f.drawFrame),
           Position(tr.gpuFences, f.fence), Position(tr.gpuSignaled, f.fence), Position(tr.gpuCompletions, f.completion))
  }

  function CountsOf(i: nat, cur: Cursors): Counts {
    Counts(i, cur.sf, cur.doFrame, cur.drawFrame, cur.fence, cur.signaled, cur.completion)
  }

  lemma ReachedMeans(tr: Trace, i: nat, cur: Cursors, rows: seq<Row>, found: set<int>)
    requires i <= |tr.vsyncApp| && Reached(tr, i, cur, rows, found)
    ensures rows == Distinct(SweptRows(tr, i))
    ensures tr.vsyncSf.Some? && CountsOf(i, cur) == MovesAfter(tr, i)
  {
  }

  /** State of the loop after `i` signals, none of which left it. */
  ghost predicate InLoop(tr: Trace, maxFrames: Option<int>, i: nat, cur: Cursors, rows: seq<Row>, found: set<int>)
    requires i <= |tr.vsyncApp|
  {
    Reached(tr, i, cur, rows, found) && BelowLimit(rows, maxFrames) && StaysBefore(tr, maxFrames, i)
  }

  /** What the program has when the loop is over. */
  ghost predicate Result(tr: Trace, maxFrames: Option<int>, rows: seq<Row>, n: Counts) {
    && rows == Limited(Distinct(SweptRows(tr, |tr.vsyncApp|)), maxFrames)
    && (if tr.vsyncSf.None? then n == Counts(0, 0, 0, 0, 0, 0, 0)
        else IsSignalCount(tr, maxFrames, n.vsyncApp) && n == MovesAfter(tr, n.vsyncApp))
  }

  /** On every trace the sweep yields the rows of the floor recursion, de-duplicated and limited. Each cursor moves at
      most once over its stream, and the counters are those of the signals up to the one that left the loop. */
  method ProcessFrameTrace(tr: Trace, maxFrames: Option<int>) returns (rows: seq<Row>, n: Counts)
    ensures rows == Limited(Distinct(SweptRows(tr, |tr.vsyncApp|)), maxFrames)
    ensures WithinStreams(tr, n)
    ensures if tr.vsyncSf.None? then n == Counts(0, 0, 0, 0, 0, 0, 0)
            else n == MovesAfter(tr, n.vsyncApp) && IsSignalCount(tr, maxFrames, n.vsyncApp)
  {
    rows, n := [], Counts(0, 0, 0, 0, 0, 0, 0);
    if tr.vsyncSf.None? {
      NoSfNoRows(tr, |tr.vsyncApp|);
      return;
    }
    rows, n := SweepSignals(tr, maxFrames);
    MovesAreWithinStreams(tr, n.vsyncApp);
  }

  lemma MovesAreWithinStreams(tr: Trace, n: nat)
    requires n <= |tr.vsyncApp| && tr.vsyncSf.Some?
    ensures WithinStreams(tr, MovesAfter(tr, n))
  {
  }

  /** The loop. */
  method SweepSignals(tr: Trace, maxFrames: Option<int>) returns (rows: seq<Row>, n: Counts)
    requires tr.vsyncSf.Some?
    ensures Result(tr, maxFrames, rows, n)
  {
    var cur := Cursors(0, 0, 0, 0, 0, 0);
    var found: set<int> := {};
    var i, finished := 0, false;
    rows := [];
    LoopStarts(tr, maxFrames, cur);
    while i < |tr.vsyncApp| && !finished
      invariant 0 <= i <= |tr.vsyncApp|
      invariant if finished then Result(tr, maxFrames, rows, CountsOf(i, cur)) else InLoop(tr, maxFrames, i, cur, rows, found)
    {
      cur, rows, found, finished := TurnWithinLimit(tr, i, cur, rows, found, maxFrames);
      i := i + 1;
    }
    n := CountsOf(i, cur);
    if !finished {
      LoopIsOver(tr, maxFrames, cur, rows, found);
    }
  }

  lemma LoopStarts(tr: Trace, maxFrames: Option<int>, cur: Cursors)
    requires tr.vsyncSf.Some? && cur == Cursors(0, 0, 0, 0, 0, 0)
    ensures InLoop(tr, maxFrames, 0, cur, [], {})
  {
  }

  /** One turn and the test of `max_frames`, which is made only after a row was added. */
  method TurnWithinLimit(tr: Trace, i: nat, cur: Cursors, rows: seq<Row>, found: set<int>, maxFrames: Option<int>)
    returns (nextCur: Cursors, nextRows: seq<Row>, nextFound: set<int>, finished: bool)
    requires i < |tr.vsyncApp| && InLoop(tr, maxFrames, i, cur, rows, found)
    ensures if finished then Result(tr, maxFrames, nextRows, CountsOf(i + 1, nextCur))
            else InLoop(tr, maxFrames, i + 1, nextCur, nextRows, nextFound)
  {
    nextCur, nextRows, nextFound, finished := Turn(tr, i, cur, rows, found);
    if finished {
      BrokenOff(tr, maxFrames, i, nextCur, nextRows, nextFound);
      return;
    }
    finished := |nextRows| > |rows| && maxFrames.Some? && |nextRows| >= maxFrames.value;
    GoesOnUnlessFull(tr, maxFrames, i, rows, nextCur, nextRows, nextFound);
  }

  lemma BrokenOff(tr: Trace, maxFrames: Option<int>, i: nat, cur: Cursors, rows: seq<Row>, found: set<int>)
    requires i < |tr.vsyncApp| && StaysBefore(tr, maxFrames, i) && RunsOut(tr, FloorsAfter(tr, i), tr.vsyncApp[i])
    requires Reached(tr, i + 1, cur, rows, found) && rows == Distinct(SweptRows(tr, |tr.vsyncApp|))
    requires BelowLimit(rows, maxFrames)
    ensures Result(tr, maxFrames, rows, CountsOf(i + 1, cur))
  {
    ReachedMeans(tr, i + 1, cur, rows, found);
    LimitNotReached(rows, maxFrames);
  }

  lemma GoesOnUnlessFull(tr: Trace, maxFrames: Option<int>, i: nat, before: seq<Row>,
                         cur: Cursors, rows: seq<Row>, found: set<int>)
    requires i < |tr.vsyncApp| && StaysBefore(tr, maxFrames, i) && !RunsOut(tr, FloorsAfter(tr, i), tr.vsyncApp[i])
    requires before == Distinct(SweptRows(tr, i)) && BelowLimit(before, maxFrames)
    requires Reached(tr, i + 1, cur, rows, found) && |before| <= |rows| <= |before| + 1
    ensures if |rows| > |before| && maxFrames.Some? && |rows| >= maxFrames.value
            then Result(tr, maxFrames, rows, CountsOf(i + 1, cur))
            else InLoop(tr, maxFrames, i + 1, cur, rows, found)
  {
    ReachedMeans(tr, i + 1, cur, rows, found);
    LeavesIfFull(tr, maxFrames, i, before, rows);
    if LeavesAt(tr, maxFrames, i) {
      FullIsOver(tr, maxFrames, i, cur, rows);
    }
  }

  lemma FullIsOver(tr: Trace, maxFrames: Option<int>, i: nat, cur: Cursors, rows: seq<Row>)
    requires i < |tr.vsyncApp| && StaysBefore(tr, maxFrames, i) && LeavesAt(tr, maxFrames, i)
    requires tr.vsyncSf.Some? && CountsOf(i + 1, cur) == MovesAfter(tr, i + 1)
    requires rows == Distinct(SweptRows(tr, i + 1)) && maxFrames.Some? && |rows| == Intervals.Max(1, maxFrames.value)
    ensures Result(tr, maxFrames, rows, CountsOf(i + 1, cur))
  {
    LimitReached(tr, i + 1, maxFrames);
  }

  lemma LeavesIfFull(tr: Trace, maxFrames: Option<int>, i: nat, before: seq<Row>, rows: seq<Row>)
    requires i < |tr.vsyncApp| && !RunsOut(tr, FloorsAfter(tr, i), tr.vsyncApp[i])
    requires before == Distinct(SweptRows(tr, i)) && rows == Distinct(SweptRows(tr, i + 1))
    requires BelowLimit(before, maxFrames) && |before| <= |rows| <= |before| + 1
    ensures var full := |rows| > |before| && maxFrames.Some? && |rows| >= maxFrames.value;
            && (LeavesAt(tr, maxFrames, i) <==> full)
            && (!full ==> BelowLimit(rows, maxFrames))
            && (full ==> |rows| == Intervals.Max(1, maxFrames.value))
  {
    AppendSignal(tr, i);
  }

  lemma LoopIsOver(tr: Trace, maxFrames: Option<int>, cur: Cursors, rows: seq<Row>, found: set<int>)
    requires InLoop(tr, maxFrames, |tr.vsyncApp|, cur, rows, found)
    ensures Result(tr, maxFrames, rows, CountsOf(|tr.vsyncApp|, cur))
  {
    ReachedMeans(tr, |tr.vsyncApp|, cur, rows, found);
    LimitNotReached(rows, maxFrames);
  }

  predicate BelowLimit(rows: seq<Row>, maxFrames: Option<int>) {
    maxFrames.Some? ==> rows == [] || |rows| < maxFrames.value
  }

  lemma LimitNotReached(rows: seq<Row>, maxFrames: Option<int>)
    requires BelowLimit(rows, maxFrames)
    ensures rows == Limited(rows, maxFrames)
  {
  }

  lemma LimitReached(tr: Trace, n: nat, maxFrames: Option<int>)
    requires n <= |tr.vsyncApp| && maxFrames.Some?
    requires |Distinct(SweptRows(tr, n))| == Intervals.Max(1, maxFrames.value)
    ensures Distinct(SweptRows(tr, n)) == Limited(Distinct(SweptRows(tr, |tr.vsyncApp|)), maxFrames)
  {
    DistinctSweepIsPrefix(tr, n, |tr.vsyncApp|);
    PrefixIsLimited(Distinct(SweptRows(tr, n)), Distinct(SweptRows(tr, |tr.vsyncApp|)), maxFrames);
  }

  lemma PrefixIsLimited(rows: seq<Row>, all: seq<Row>, maxFrames: Option<int>)
    requires rows <= all && maxFrames.Some? && |rows| == Intervals.Max(1, maxFrames.value)
    ensures rows == Limited(all, maxFrames)
  {
  }

  lemma {:induction false} NoSfNoRows(tr: Trace, n: nat)
    requires n <= |tr.vsyncApp| && tr.vsyncSf.None?
    ensures SweptRows(tr, n) == []
  {
    if n > 0 {
      NoSfNoRows(tr, n - 1);
    }
  }

  /** What one more signal does to the de-duplicated rows and to the set of indexes seen. */
  ghost predicate Appended(rows: seq<Row>, found: set<int>, r: Option<Row>, nextRows: seq<Row>, nextFound: set<int>) {
    if r.None? then nextRows == rows && nextFound == found
    else
      var index := r.value.frame.drawFrame.tag;
      if index.None? then nextRows == rows + [r.value] && nextFound == found
      else if index.value in found then nextRows == rows && nextFound == found
      else nextRows == rows + [r.value] && nextFound == found + {index.value}
  }

  lemma AppendDistinct(rows: seq<Row>, r: Option<Row>)
    ensures Appended(Distinct(rows), Indexes(rows), r, Distinct(rows + Listed(r)), Indexes(rows + Listed(r)))
  {
    var rows' := rows + Listed(r);
    if r.Some? {
      assert rows'[..|rows'| - 1] == rows;
      assert forall x :: x in rows' <==> x in rows || x == r.value;
      var index := r.value.frame.drawFrame.tag;
      assert Indexes(rows') == Indexes(rows) + if index.Some? then {index.value} else {};
    } else {
      assert rows' == rows;
    }
  }

  lemma AppendSignal(tr: Trace, n: nat)
    requires n < |tr.vsyncApp|
    ensures FloorsAfter(tr, n + 1) == Signal(tr, FloorsAfter(tr, n), tr.vsyncApp[n]).floors
    ensures Appended(Distinct(SweptRows(tr, n)), Indexes(SweptRows(tr, n)),
                     Signal(tr, FloorsAfter(tr, n), tr.vsyncApp[n]).row,
                     Distinct(SweptRows(tr, n + 1)), Indexes(SweptRows(tr, n + 1)))
  {
    AppendDistinct(SweptRows(tr, n), Signal(tr, FloorsAfter(tr, n), tr.vsyncApp[n]).row);
  }

  /** No doFrame or no DrawFrame is left: the program stops the loop. */
  predicate Exhausted(tr: Trace, f: Floors) {
    || Position(tr.doFrames, f.doFrame) == |tr.doFrames|
    || Position(tr.drawFrames, f.drawFrame) == |tr.drawFrames|
  }

  lemma ExhaustedStep(tr: Trace, f: Floors, v: int)
    requires Exhausted(tr, f)
    ensures Signal(tr, f, v).row.None? && Exhausted(tr, Signal(tr, f, v).floors)
  {
    PositionMonotone(tr.doFrames, f.doFrame, v);
    var c := At(tr.doFrames, Raise(f.doFrame, v));
    if c.Some? && RecordDrawOf(tr, c.value).Some? {
      PositionMonotone(tr.drawFrames, f.drawFrame, RecordDrawOf(tr, c.value).value.End());
    }
  }

  lemma ExhaustedTurn(tr: Trace, n: nat)
    requires n < |tr.vsyncApp| && Exhausted(tr, FloorsAfter(tr, n))
    ensures SweptRows(tr, n + 1) == SweptRows(tr, n) && Exhausted(tr, FloorsAfter(tr, n + 1))
  {
    ExhaustedStep(tr, FloorsAfter(tr, n), tr.vsyncApp[n]);
  }

  /** The early `break`s lose nothing. */
  lemma {:induction false} ExhaustedIsFinal(tr: Trace, n: nat, m: nat)
    requires n <= m <= |tr.vsyncApp| && Exhausted(tr, FloorsAfter(tr, n))
    ensures SweptRows(tr, m) == SweptRows(tr, n)
    decreases m - n
  {
    if n < m {
      ExhaustedTurn(tr, n);
      ExhaustedIsFinal(tr, n + 1, m);
    }
  }

  lemma DistinctGrows(tr: Trace, n: nat)
    requires n < |tr.vsyncApp|
    ensures Distinct(SweptRows(tr, n)) <= Distinct(SweptRows(tr, n + 1))
  {
    AppendSignal(tr, n);
  }

  /** The table after each number of signals. */
  function Tables(tr: Trace): (tables: seq<seq<Row>>)
    ensures |tables| == |tr.vsyncApp| + 1
  {
    seq(|tr.vsyncApp| + 1, i requires 0 <= i <= |tr.vsyncApp| => Distinct(SweptRows(tr, i)))
  }

  lemma TableIs(tr: Trace, tables: seq<seq<Row>>, i: nat)
    requires tables == Tables(tr) && i <= |tr.vsyncApp|
    ensures tables[i] == Distinct(SweptRows(tr, i))
  {
  }

  predicate GrowsAt(tables: seq<seq<Row>>, i: nat) {
    i + 1 < |tables| && tables[i] <= tables[i + 1]
  }

  lemma TablesGrow(tr: Trace, tables: seq<seq<Row>>, i: nat)
    requires tables == Tables(tr) && i < |tr.vsyncApp|
    ensures GrowsAt(tables, i)
  {
    TableIs(tr, tables, i);
    TableIs(tr, tables, i + 1);
    DistinctGrows(tr, i);
  }

  lemma {:induction false} ChainIsPrefix(tables: seq<seq<Row>>, n: nat, m: nat)
    requires n <= m < |tables| && forall i :: n <= i < m ==> GrowsAt(tables, i)
    ensures tables[n] <= tables[m]
  {
    if n < m {
      ChainIsPrefix(tables, n, m - 1);
      assert GrowsAt(tables, m - 1);
    }
  }

  lemma SweepTables(tr: Trace, tables: seq<seq<Row>>, n: nat, m: nat)
    requires tables == Tables(tr) && n <= m <= |tr.vsyncApp|
    ensures tables[n] <= tables[m]
  {
    forall i | n <= i < m ensures GrowsAt(tables, i) {
      TablesGrow(tr, tables, i);
    }
    ChainIsPrefix(tables, n, m);
  }

  /** A sweep that stops early has the first rows of the whole sweep. */
  lemma DistinctSweepIsPrefix(tr: Trace, n: nat, m: nat)
    requires n <= m <= |tr.vsyncApp|
    ensures Distinct(SweptRows(tr, n)) <= Distinct(SweptRows(tr, m))
  {
    var tables := Tables(tr);
    SweepTables(tr, tables, n, m);
    TableIs(tr, tables, n);
    TableIs(tr, tables, m);
  }
}
