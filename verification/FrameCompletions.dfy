/** The gpucompletion columns: the cursor only moves for traced fences, so a row of an inline fence may show
    the completion of an older frame. */
module FrameCompletions {
  import opened Options
  import opened FrameStreams
  import opened FrameSweep
  import opened FrameProperties
  import Intervals

  /** The completion a search for this row's own fence would find. */
  predicate Fresh(tr: Trace, r: Row) {
    r.completion == At(tr.gpuCompletions, Some(r.frame.fence.End()))
  }

  /** Its two columns are the ends of the first completion from the fence's end on, or that end twice. */
  lemma FreshColumns(tr: Trace, r: Row, x: Plain)
    ensures var fenceEnd := r.frame.fence.ts + r.frame.fence.dur;
            && (r.completion == Some(x) ==>
                  CompletionStart(r) == x.ts && CompletionEnd(r) == x.ts + x.dur
                  && (Fresh(tr, r) <==> IsFirst(tr.gpuCompletions, fenceEnd, x)))
            && (r.completion == None ==>
                  CompletionStart(r) == CompletionEnd(r) == fenceEnd
                  && (Fresh(tr, r) <==> forall k :: 0 <= k < |tr.gpuCompletions| ==> tr.gpuCompletions[k].ts < fenceEnd))
  {
    AtIsFirst(tr.gpuCompletions, r.frame.fence.End(), x);
    FirstAtMeans(tr.gpuCompletions, r.frame.fence.End());
  }

  /** No slice starts between the cursor's floor and `t`. */
  ghost predicate NoneBetween<T>(s: seq<Slice<T>>, f: Floor, t: int) {
    forall k :: 0 <= k < |s| ==>
      if f.None? then s[k].ts >= t
      else !(Intervals.Min(f.value, t) <= s[k].ts < Intervals.Max(f.value, t))
  }

  lemma SameSliceIffNoneBetween<T>(s: seq<Slice<T>>, f: Floor, t: int)
    requires Sorted(s)
    ensures At(s, f) == At(s, Some(t)) <==> NoneBetween(s, f, t)
  {
    FirstAtMeans(s, t);
    var p, q := Position(s, f), FirstAt(s, t);
    if f.Some? {
      FirstAtMeans(s, f.value);
    }
    if p != q {
      var k := Intervals.Min(p, q);
      assert s[k].ts < (if p < q then t else f.value);
    }
  }

  /** The DrawFrame that the sweep reaches for signal `i`: the first after all record-draws of the signals up to it,
      unless it starts after the signal's doFrame. */
  function ReachedDrawFrame(tr: Trace, i: nat): Option<DrawFrame>
    requires i < |tr.vsyncApp|
  {
    var b := DrawBound(tr, tr.vsyncApp[i]);
    if b.None? then None
    else
      var d := At(tr.drawFrames, Raise(LatestBound(tr, i), b.value));
      if d.Some? && d.value.ts <= At(tr.doFrames, Some(tr.vsyncApp[i])).value.End() then d else None
  }

  lemma ReachedDrawFrameIs(tr: Trace, i: nat, d: DrawFrame)
    requires i < |tr.vsyncApp|
    ensures ReachedDrawFrame(tr, i) == Some(d) <==>
              exists c, rd, t :: IsRecorded(tr, tr.vsyncApp[i], c, rd) && IsLatestBound(tr, i + 1, t)
                && IsFirst(tr.drawFrames, t, d) && d.ts <= c.ts + c.dur
  {
    var v, n := tr.vsyncApp[i], i + 1;
    var m := LatestBound(tr, n);
    LatestBoundIsGreatest(tr, n);
    if m.Some? {
      AtIsFirst(tr.drawFrames, m.value, d);
      assert forall t :: IsLatestBound(tr, n, t) <==> t == m.value;
    }
    var b := DrawBound(tr, v);
    if b.Some? {
      var c := At(tr.doFrames, Some(v)).value;
      RecordedIsMatch(tr, v, c, RecordDrawOf(tr, c).value);
    }
    forall c, rd | IsRecorded(tr, v, c, rd) ensures At(tr.doFrames, Some(v)) == Some(c) && b.Some? {
      RecordedIsMatch(tr, v, c, rd);
    }
  }

  /** The traced fence inside it. */
  function TracedFence(tr: Trace, i: nat): Option<Plain>
    requires i < |tr.vsyncApp|
  {
    var d := ReachedDrawFrame(tr, i);
    if d.None? then None else Inside(At(tr.gpuFences, Some(d.value.ts)), d.value)
  }

  lemma TracedFenceIsFence(tr: Trace, i: nat, x: Plain)
    requires i < |tr.vsyncApp|
    ensures TracedFence(tr, i) == Some(x) <==>
              ReachedDrawFrame(tr, i).Some? && IsFenceIn(tr.gpuFences, ReachedDrawFrame(tr, i).value, x)
  {
    if ReachedDrawFrame(tr, i).Some? {
      InsideIsFence(tr.gpuFences, ReachedDrawFrame(tr, i).value, x);
    }
  }

  /** The greatest end of the traced fences of the first `n` signals. */
  function LatestTraced(tr: Trace, n: nat): Floor
    requires n <= |tr.vsyncApp|
  {
    if n == 0 then None
    else
      var x := TracedFence(tr, n - 1);
      if x.Some? then Raise(LatestTraced(tr, n - 1), x.value.End()) else LatestTraced(tr, n - 1)
  }

  lemma {:induction false} LatestTracedIsGreatest(tr: Trace, n: nat, j: nat)
    requires j < n <= |tr.vsyncApp| && TracedFence(tr, j).Some?
    ensures LatestTraced(tr, n).Some? && TracedFence(tr, j).value.End() <= LatestTraced(tr, n).value
  {
    if j < n - 1 {
      LatestTracedIsGreatest(tr, n - 1, j);
    }
  }

  lemma {:induction false} LatestTracedIsTraced(tr: Trace, n: nat) returns (j: nat)
    requires n <= |tr.vsyncApp| && LatestTraced(tr, n).Some?
    ensures j < n && TracedFence(tr, j).Some? && TracedFence(tr, j).value.End() == LatestTraced(tr, n).value
  {
    if LatestTraced(tr, n) == LatestTraced(tr, n - 1) {
      j := LatestTracedIsTraced(tr, n - 1);
    } else {
      j := n - 1;
    }
  }

  lemma SignalCompletion(tr: Trace, f: Floors, i: nat)
    requires Ordered(tr) && i < |tr.vsyncApp| && f == FloorsAfter(tr, i)
    ensures var x := TracedFence(tr, i);
            Signal(tr, f, tr.vsyncApp[i]).floors.completion
            == if x.Some? then Raise(f.completion, x.value.End()) else f.completion
  {
    var v := tr.vsyncApp[i];
    FloorsTell(tr, i);
    assert i > 0 ==> tr.vsyncApp[i - 1] <= v;
    assert Behind(tr, f, v);
    var b := DrawBound(tr, v);
    if b.Some? {
      var m := Raise(f.drawFrame, b.value);
      PositionMonotone(tr.drawFrames, f.drawFrame, b.value);
      if Position(tr.drawFrames, m) < |tr.drawFrames| {
        FenceFloorIsReached(tr, f, m, Position(tr.drawFrames, m));
      }
    }
  }

  /** After each signal the completion cursor stands at the end of the traced fence that ended last. */
  lemma {:induction false} NextCompletion(tr: Trace, n: nat)
    requires Ordered(tr) && n < |tr.vsyncApp|
    ensures Signal(tr, FloorsAfter(tr, n), tr.vsyncApp[n]).floors.completion == LatestTraced(tr, n + 1)
  {
    if n > 0 {
      NextCompletion(tr, n - 1);
    }
    SignalCompletion(tr, FloorsAfter(tr, n), n);
  }

  lemma RowShowsTheCursor(tr: Trace, f: Floors, v: int)
    ensures var out := Signal(tr, f, v);
            out.row.Some? ==> out.row.value.completion == At(tr.gpuCompletions, out.floors.completion)
  {
  }

  lemma SweptRowShowsTheCursor(tr: Trace, n: nat)
    requires Ordered(tr) && n < |tr.vsyncApp|
    ensures var row := Signal(tr, FloorsAfter(tr, n), tr.vsyncApp[n]).row;
            row.Some? ==> row.value.completion == At(tr.gpuCompletions, LatestTraced(tr, n + 1))
  {
    NextCompletion(tr, n);
    RowShowsTheCursor(tr, FloorsAfter(tr, n), tr.vsyncApp[n]);
  }

  /** A row shows the completion of its own fence exactly when no completion starts between that fence's end and the
      greatest end of the traced fences of the signals up to its own. */
  lemma FreshIffNoneBetween(tr: Trace, n: nat, r: Row)
    requires Ordered(tr) && Sorted(tr.gpuCompletions) && n < |tr.vsyncApp|
    requires Signal(tr, FloorsAfter(tr, n), tr.vsyncApp[n]).row == Some(r)
    ensures Fresh(tr, r) <==> NoneBetween(tr.gpuCompletions, LatestTraced(tr, n + 1), r.frame.fence.End())
  {
    SweptRowShowsTheCursor(tr, n);
    SameSliceIffNoneBetween(tr.gpuCompletions, LatestTraced(tr, n + 1), r.frame.fence.End());
  }

  ghost predicate EndsInOrder(s: seq<Plain>) {
    forall i, j :: 0 <= i < j < |s| ==> s[i].ts + s[i].dur <= s[j].ts + s[j].dur
  }

  /** The completion floor is the end of a traced fence the fence cursor has already reached. */
  ghost predicate FloorIsFenceEnd(tr: Trace, f: Floors) {
    f.completion.Some? ==>
      exists k :: 0 <= k < |tr.gpuFences| && k <= Position(tr.gpuFences, f.fence) && f.completion.value == tr.gpuFences[k].End()
  }

  lemma FencedKeepsFenceEnd(tr: Trace, f: Floors, v: int, c: DoFrame, rd: Plain, d: DrawFrame)
    requires EndsInOrder(tr.gpuFences) && FloorIsFenceEnd(tr, f)
    ensures var out := Fenced(tr, f, v, c, rd, d);
            && FloorIsFenceEnd(tr, out.floors)
            && (out.row.Some? && !out.row.value.frame.inlineFence ==>
                  out.floors.completion == Some(out.row.value.frame.fence.End()))
  {
    PositionMonotone(tr.gpuFences, f.fence, d.ts);
    var q := Position(tr.gpuFences, Raise(f.fence, d.ts));
    if f.completion.Some? {
      var k :| 0 <= k < |tr.gpuFences| && k <= Position(tr.gpuFences, f.fence) && f.completion.value == tr.gpuFences[k].End();
      assert k <= q;
      if q < |tr.gpuFences| && k < q {
        assert tr.gpuFences[k].End() <= tr.gpuFences[q].End();
      }
    }
  }

  lemma {:induction false} CompletionFloor(tr: Trace, n: nat)
    requires n <= |tr.vsyncApp| && EndsInOrder(tr.gpuFences)
    ensures FloorIsFenceEnd(tr, FloorsAfter(tr, n))
  {
    if n > 0 {
      CompletionFloor(tr, n - 1);
      SignalKeepsFenceEnd(tr, FloorsAfter(tr, n - 1), tr.vsyncApp[n - 1]);
    }
  }

  lemma SignalKeepsFenceEnd(tr: Trace, f: Floors, v: int)
    requires EndsInOrder(tr.gpuFences) && FloorIsFenceEnd(tr, f)
    ensures var out := Signal(tr, f, v);
            && FloorIsFenceEnd(tr, out.floors)
            && (out.row.Some? && !out.row.value.frame.inlineFence ==> Fresh(tr, out.row.value))
  {
    var f1 := f.(doFrame := Raise(f.doFrame, v));
    var c := At(tr.doFrames, f1.doFrame);
    if c.Some? && Admissible(tr, v, c.value) && RecordDrawOf(tr, c.value).Some? {
      var rd := RecordDrawOf(tr, c.value).value;
      var f2 := f1.(drawFrame := Raise(f1.drawFrame, rd.End()));
      var d := At(tr.drawFrames, f2.drawFrame);
      if d.Some? {
        FencedKeepsFenceEnd(tr, f2, v, c.value, rd, d.value);
      }
    }
  }

  /** Rows of traced fences always show their own completion when the fences end in order. */
  lemma {:induction false} TracedRowsAreFresh(tr: Trace, n: nat)
    requires n <= |tr.vsyncApp| && EndsInOrder(tr.gpuFences)
    ensures forall r :: r in SweptRows(tr, n) && !r.frame.inlineFence ==> Fresh(tr, r)
  {
    if n > 0 {
      TracedRowsAreFresh(tr, n - 1);
      CompletionFloor(tr, n - 1);
      SignalKeepsFenceEnd(tr, FloorsAfter(tr, n - 1), tr.vsyncApp[n - 1]);
    }
  }

  /** An inline fence never moves the completion cursor: here the row shows a completion from before the frame. */
  const INLINE_ONLY := Trace([10], Some([Slice(20, 0, ())]),
                             [Slice(10, 190, None)], [Slice(30, 10, ())], [Slice(50, 50, Some(1))],
                             [], [Slice(60, 10, ())], [Slice(5, 1, ()), Slice(80, 5, ())], {}, map[])

  lemma InlineFenceShowsStaleCompletion()
    ensures var r := Signal(INLINE_ONLY, NO_FLOORS, 10).row;
            && r.Some? && r.value.frame.inlineFence && !Fresh(INLINE_ONLY, r.value)
            && CompletionEnd(r.value) < r.value.frame.vsync
  {
    var tr := INLINE_ONLY;
    assert tr.recordDraws[..0] == [];
    assert RecordDrawOf(tr, tr.doFrames[0]) == Some(tr.recordDraws[0]);
    assert At(tr.doFrames, Some(10)) == Some(tr.doFrames[0]) && At(tr.drawFrames, Some(40)) == Some(tr.drawFrames[0]);
    assert At(tr.gpuSignaled, Some(50)) == Some(tr.gpuSignaled[0]);
    assert At(tr.vsyncSf.value, Some(10)) == Some(tr.vsyncSf.value[0]);
    assert FirstAt(tr.gpuCompletions, 70, 1) == 1;
  }
}
