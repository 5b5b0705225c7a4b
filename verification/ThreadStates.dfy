/** Accounting of a thread's scheduler states over an analysis window. */
module ThreadStates {
  import opened Options
  import opened Intervals
  import opened MapSums

  /** Scheduler state codes; `Otherwise` stands for stopped, traced, dead, idle, parked and the like. */
  datatype Code = Run | R | RPlus | D | S | Otherwise(code: string)

  datatype State = State(ts: int, dur: int, cpu: int, code: Code, ioWait: Option<int>,
                         blockedFunction: Option<string>, wakerUtid: Option<int>) {
    function Span(): Interval { Interval(ts, ts + dur) }
  }

  datatype Kind = Running | Runnable | Blocked | Sleeping | Other

  function KindOf(s: State): Kind {
    match s.code
    case Run => Running
    case R => Runnable
    case RPlus => Runnable
    case D => Blocked
    case S => Sleeping
    case Otherwise(_) => Other
  }

  /** Who ended a sleep: a thread with a known name, or one the batch query did not return. */
  datatype Waker = Named(name: string) | Unknown(utid: int)

  function WakerName(names: map<int, string>, utid: int): Waker {
    if utid in names then Named(names[utid]) else Unknown(utid)
  }

  /** The first state, in list order, that starts at `t` or later. */
  function NextState(states: seq<State>, t: int): Option<State> {
    if states == [] then None
    else if states[0].ts >= t then Some(states[0])
    else NextState(states[1..], t)
  }

  /** The waker of a sleep is recorded on the state that follows it. */
  function WakerOf(all: seq<State>, s: State): Option<int> {
    var next := NextState(all, s.ts + s.dur);
    if next.Some? then next.value.wakerUtid else None
  }

  datatype Analysis = Analysis(
    sumRunning: int, bigCoreRunning: int, smallCoreRunning: int, cpuRunning: map<int, int>,
    runnable: int, blocked: int, sleeping: int, ioWait: int, wakeUpLatency: int,
    blockedFunctions: map<string, int>, sleepWakers: map<Waker, int>)

  const FIRST_BIG_CORE := 6

  // ---------------------------------------------------------------- what the analysis should report

  /** Which states an entry of the report is about. */
  datatype Entry = OfKinds(kinds: set<Kind>) | OnCpu(cpu: int) | OnBigCore
                 | InFunction(f: string) | InSomeFunction | WokenBy(w: Waker) | WokenBySomeone

  predicate Concerns(e: Entry, all: seq<State>, names: map<int, string>, s: State) {
    match e
    case OfKinds(kinds) => KindOf(s) in kinds
    case OnCpu(cpu) => KindOf(s) == Running && s.cpu == cpu
    case OnBigCore => KindOf(s) == Running && s.cpu >= FIRST_BIG_CORE
    case InFunction(f) => KindOf(s) == Blocked && s.blockedFunction == Some(f) && f != ""
    case InSomeFunction => KindOf(s) == Blocked && s.blockedFunction.Some? && s.blockedFunction.value != ""
    case WokenBy(w) =>
      KindOf(s) == Sleeping && WakerOf(all, s).Some? && WakerName(names, WakerOf(all, s).value) == w
    case WokenBySomeone => KindOf(s) == Sleeping && WakerOf(all, s).Some?
  }

  /** Input of one analysis. */
  datatype Input = Input(all: seq<State>, names: map<int, string>, lo: int, hi: int)

  /** Time the first `n` states concerned by `e` spend inside the window. */
  function Time(inp: Input, e: Entry, n: nat): nat
    requires n <= |inp.all|
  {
    if n == 0 then 0
    else Time(inp, e, n - 1) +
         if Concerns(e, inp.all, inp.names, inp.all[n - 1]) then Overlap(inp.all[n - 1].Span(), inp.lo, inp.hi) else 0
  }

  function IoWait(states: seq<State>): int {
    if states == [] then 0
    else IoWait(states[..|states| - 1]) +
         if states[|states| - 1].ioWait.Some? then states[|states| - 1].ioWait.value else 0
  }

  function RunningStates(states: seq<State>): seq<State> {
    if states == [] then []
    else RunningStates(states[..|states| - 1]) + if KindOf(states[|states| - 1]) == Running then [states[|states| - 1]] else []
  }

  function WakeUpLatency(states: seq<State>, lo: int): int {
    if states == [] then 0
    else
      var s := states[|states| - 1];
      WakeUpLatency(states[..|states| - 1], lo) + if s.ts <= lo && KindOf(s) != Running then s.dur else 0
  }

  ghost predicate RunningReported(inp: Input, n: nat, cpuRunning: map<int, int>)
    requires n <= |inp.all|
  {
    && Total(cpuRunning) == Time(inp, OfKinds({Running}), n)
    && Total(AtLeast(cpuRunning, FIRST_BIG_CORE)) == Time(inp, OnBigCore, n)
    && forall c :: Get(cpuRunning, c) == Time(inp, OnCpu(c), n)
  }

  ghost predicate BlockedReported(inp: Input, n: nat, blockedFunctions: map<string, int>)
    requires n <= |inp.all|
  {
    && Total(blockedFunctions) == Time(inp, InSomeFunction, n)
    && forall f :: Get(blockedFunctions, f) == Time(inp, InFunction(f), n)
  }

  ghost predicate WakersReported(inp: Input, n: nat, wakers: map<Waker, int>)
    requires n <= |inp.all|
  {
    && Total(wakers) == Time(inp, WokenBySomeone, n)
    && forall w :: Get(wakers, w) == Time(inp, WokenBy(w), n)
  }

  /** Everything the analysis reports, each figure as the time of the states it is about. */
  ghost predicate Reported(inp: Input, runningOnly: bool, a: Analysis) {
    var n := |inp.all|;
    && RunningReported(inp, n, a.cpuRunning)
    && a.sumRunning == Total(a.cpuRunning)
    && a.bigCoreRunning == Total(AtLeast(a.cpuRunning, FIRST_BIG_CORE))
    && a.smallCoreRunning == Total(Below(a.cpuRunning, FIRST_BIG_CORE))
    && a.wakeUpLatency == WakeUpLatency(inp.all, inp.lo)
    && if runningOnly then
         && a.runnable == a.blocked == a.sleeping == 0 && a.blockedFunctions == map[] && a.sleepWakers == map[]
         && a.ioWait == IoWait(RunningStates(inp.all))
       else
         && a.runnable == Time(inp, OfKinds({Runnable}), n)
         && a.blocked == Time(inp, OfKinds({Blocked}), n)
         && a.sleeping == Time(inp, OfKinds({Sleeping}), n)
         && BlockedReported(inp, n, a.blockedFunctions)
         && WakersReported(inp, n, a.sleepWakers)
         && a.ioWait == IoWait(inp.all)
  }

  // ---------------------------------------------------------------- the loops

  /** Totals of the first pass, before waker names are known. */
  datatype Acc = Acc(cpuRunning: map<int, int>, runnable: int, blocked: int, sleeping: int, ioWait: int,
                     blockedFunctions: map<string, int>, sleeps: seq<(int, int)>)

  function WakerTotals(names: map<int, string>, sleeps: seq<(int, int)>): map<Waker, int> {
    if sleeps == [] then map[]
    else
      var last := sleeps[|sleeps| - 1];
      Add(WakerTotals(names, sleeps[..|sleeps| - 1]), WakerName(names, last.1), last.0)
  }

  ghost predicate Counted(inp: Input, runningOnly: bool, n: nat, acc: Acc)
    requires n <= |inp.all|
  {
    && RunningReported(inp, n, acc.cpuRunning)
    && if runningOnly then
         && acc.runnable == acc.blocked == acc.sleeping == 0 && acc.blockedFunctions == map[] && acc.sleeps == []
         && acc.ioWait == IoWait(RunningStates(inp.all[..n]))
       else
         && acc.runnable == Time(inp, OfKinds({Runnable}), n)
         && acc.blocked == Time(inp, OfKinds({Blocked}), n)
         && acc.sleeping == Time(inp, OfKinds({Sleeping}), n)
         && BlockedReported(inp, n, acc.blockedFunctions)
         && WakersReported(inp, n, WakerTotals(inp.names, acc.sleeps))
         && acc.ioWait == IoWait(inp.all[..n])
  }

  lemma RunningStep(inp: Input, n: nat, m: map<int, int>)
    requires n < |inp.all| && RunningReported(inp, n, m)
    ensures var s := inp.all[n];
            RunningReported(inp, n + 1, if KindOf(s) == Running then Add(m, s.cpu, Overlap(s.Span(), inp.lo, inp.hi)) else m)
  {
    var cpu, time := inp.all[n].cpu, Overlap(inp.all[n].Span(), inp.lo, inp.hi);
    TotalAdd(m, cpu, time);
    AddAtLeast(m, cpu, time, FIRST_BIG_CORE);
  }

  lemma BlockedStep(inp: Input, n: nat, m: map<string, int>)
    requires n < |inp.all| && BlockedReported(inp, n, m)
    ensures var s := inp.all[n];
            BlockedReported(inp, n + 1, if KindOf(s) == Blocked && s.blockedFunction.Some? && s.blockedFunction.value != ""
                                        then Add(m, s.blockedFunction.value, Overlap(s.Span(), inp.lo, inp.hi)) else m)
  {
    var s := inp.all[n];
    if s.blockedFunction.Some? {
      TotalAdd(m, s.blockedFunction.value, Overlap(s.Span(), inp.lo, inp.hi));
    }
  }

  lemma WakersStep(inp: Input, n: nat, m: map<Waker, int>)
    requires n < |inp.all| && WakersReported(inp, n, m)
    ensures var s := inp.all[n];
            WakersReported(inp, n + 1,
              if KindOf(s) == Sleeping && WakerOf(inp.all, s).Some?
              then Add(m, WakerName(inp.names, WakerOf(inp.all, s).value), Overlap(s.Span(), inp.lo, inp.hi)) else m)
  {
    var s := inp.all[n];
    if WakerOf(inp.all, s).Some? {
      TotalAdd(m, WakerName(inp.names, WakerOf(inp.all, s).value), Overlap(s.Span(), inp.lo, inp.hi));
    }
  }

  lemma IoStep(states: seq<State>, n: nat)
    requires n < |states|
    ensures IoWait(states[..n + 1]) == IoWait(states[..n]) + if states[n].ioWait.Some? then states[n].ioWait.value else 0
    ensures KindOf(states[n]) != Running ==> RunningStates(states[..n + 1]) == RunningStates(states[..n])
    ensures KindOf(states[n]) == Running ==>
              IoWait(RunningStates(states[..n + 1])) ==
              IoWait(RunningStates(states[..n])) + if states[n].ioWait.Some? then states[n].ioWait.value else 0
  {
    assert states[..n + 1][..n] == states[..n];
    var r := RunningStates(states[..n]);
    assert (r + [states[n]])[..|r|] == r;
  }

  /** One row of the first pass. */
  method CountState(inp: Input, runningOnly: bool, n: nat, acc: Acc) returns (r: Acc)
    requires n < |inp.all| && Counted(inp, runningOnly, n, acc)
    ensures Counted(inp, runningOnly, n + 1, r)
  {
    var s := inp.all[n];
    RunningStep(inp, n, acc.cpuRunning);
    IoStep(inp.all, n);
    if s.code == Run {
      var overlap := Overlap(s.Span(), inp.lo, inp.hi);
      var ioWait := if s.ioWait.Some? then s.ioWait.value else 0;
      r := acc.(cpuRunning := Add(acc.cpuRunning, s.cpu, overlap), ioWait := acc.ioWait + ioWait);
    } else if runningOnly {
      r := acc;
    } else {
      r := CountWaiting(inp, n, acc);
    }
  }

  /** One row in which the thread does not run. */
  method CountWaiting(inp: Input, n: nat, acc: Acc) returns (r: Acc)
    requires n < |inp.all| && inp.all[n].code != Run && Counted(inp, false, n, acc)
    ensures Counted(inp, false, n + 1, r)
  {
    var s := inp.all[n];
    var overlap := Overlap(s.Span(), inp.lo, inp.hi);
    r := acc;
    RunningStep(inp, n, acc.cpuRunning);
    BlockedStep(inp, n, acc.blockedFunctions);
    WakersStep(inp, n, WakerTotals(inp.names, acc.sleeps));
    IoStep(inp.all, n);
    if s.code == R || s.code == RPlus {
      r := r.(runnable := r.runnable + overlap);
    } else if s.code == D {
      r := r.(blocked := r.blocked + overlap);
      if s.blockedFunction.Some? && |s.blockedFunction.value| > 0 {
        r := r.(blockedFunctions := Add(r.blockedFunctions, s.blockedFunction.value, overlap));
      }
    } else if s.code == S {
      r := r.(sleeping := r.sleeping + overlap);
      var waker := WakerOf(inp.all, s);
      if waker.Some? {
        r := r.(sleeps := r.sleeps + [(overlap, waker.value)]);
        assert r.sleeps[..|r.sleeps| - 1] == acc.sleeps;
      }
    }
    if s.ioWait.Some? {
      r := r.(ioWait := r.ioWait + s.ioWait.value);
    }
  }

  method AnalyzeThreadStates(inp: Input, runningOnly: bool) returns (a: Analysis)
    ensures Reported(inp, runningOnly, a)
  {
    var acc := Acc(map[], 0, 0, 0, 0, map[], []);
    for n := 0 to |inp.all|
      invariant Counted(inp, runningOnly, n, acc)
    {
      acc := CountState(inp, runningOnly, n, acc);
    }
    var wakers: map<Waker, int> := map[];
    for k := 0 to |acc.sleeps|
      invariant wakers == WakerTotals(inp.names, acc.sleeps[..k])
    {
      assert acc.sleeps[..k + 1][..k] == acc.sleeps[..k];
      wakers := Add(wakers, WakerName(inp.names, acc.sleeps[k].1), acc.sleeps[k].0);
    }
    assert acc.sleeps[..|acc.sleeps|] == acc.sleeps && inp.all[..|inp.all|] == inp.all;
    var latency := 0;
    for n := 0 to |inp.all|
      invariant latency == WakeUpLatency(inp.all[..n], inp.lo)
    {
      assert inp.all[..n + 1][..n] == inp.all[..n];
      if inp.all[n].ts <= inp.lo && inp.all[n].code != Run {
        latency := latency + inp.all[n].dur;
      }
    }
    var sum := SumValues(acc.cpuRunning);
    var big := SumValues(AtLeast(acc.cpuRunning, FIRST_BIG_CORE));
    var small := SumValues(Below(acc.cpuRunning, FIRST_BIG_CORE));
    a := Analysis(sum, big, small, acc.cpuRunning, acc.runnable, acc.blocked, acc.sleeping, acc.ioWait, latency,
                  acc.blockedFunctions, wakers);
  }

  // ---------------------------------------------------------------- the accounting laws

  function Spans(states: seq<State>): seq<Interval> {
    seq(|states|, i requires 0 <= i < |states| => states[i].Span())
  }

  const COUNTED: set<Kind> := {Running, Runnable, Blocked, Sleeping}

  predicate IsCounted(s: State)
    ensures IsCounted(s) <==> KindOf(s) in COUNTED
  {
    KindOf(s) != Other
  }

  /** Time of the counted kinds adds up kind by kind. */
  lemma {:induction false} KindsAddUp(inp: Input, n: nat)
    requires n <= |inp.all|
    ensures Time(inp, OfKinds(COUNTED), n) ==
            Time(inp, OfKinds({Running}), n) + Time(inp, OfKinds({Runnable}), n)
            + Time(inp, OfKinds({Blocked}), n) + Time(inp, OfKinds({Sleeping}), n)
  {
    if n > 0 {
      KindsAddUp(inp, n - 1);
    }
  }

  /** The intervals of the counted states among the first `n`. */
  function CountedSpans(states: seq<State>): seq<Interval> {
    if states == [] then []
    else CountedSpans(states[..|states| - 1]) +
         if IsCounted(states[|states| - 1]) then [states[|states| - 1].Span()] else []
  }

  lemma {:induction false} CountedSpansAre(inp: Input, n: nat)
    requires n <= |inp.all|
    ensures Time(inp, OfKinds(COUNTED), n) == TotalOverlap(CountedSpans(inp.all[..n]), inp.lo, inp.hi)
  {
    if n > 0 {
      CountedSpansAre(inp, n - 1);
      assert inp.all[..n][..n - 1] == inp.all[..n - 1];
      var a, b := CountedSpans(inp.all[..n - 1]), CountedSpans(inp.all[..n]);
      if IsCounted(inp.all[n - 1]) {
        assert b[..|b| - 1] == a;
      } else {
        assert b == a;
      }
    }
  }

  predicate CountedAt(s: State, p: int) {
    !s.code.Otherwise? && s.ts <= p < s.ts + s.dur
  }

  ghost predicate InCountedState(states: seq<State>, p: int) {
    exists i :: 0 <= i < |states| && CountedAt(states[i], p)
  }

  lemma {:induction false} CountedCoverLess(states: seq<State>, p: int)
    ensures Covering(CountedSpans(states), p) <= Covering(Spans(states), p)
  {
    if states != [] {
      var front, last := states[..|states| - 1], states[|states| - 1];
      CountedCoverLess(front, p);
      assert Spans(states)[..|states| - 1] == Spans(front);
      var a, b := CountedSpans(front), CountedSpans(states);
      if IsCounted(last) {
        assert b[..|b| - 1] == a && b[|b| - 1] == last.Span();
      } else {
        assert b == a;
      }
    }
  }

  lemma {:induction false} CountedIsCovered(states: seq<State>, p: int)
    ensures Covering(CountedSpans(states), p) >= 1 <==> InCountedState(states, p)
  {
    if states != [] {
      var front, last := states[..|states| - 1], states[|states| - 1];
      CountedIsCovered(front, p);
      var a, b := CountedSpans(front), CountedSpans(states);
      if IsCounted(last) {
        assert b[..|b| - 1] == a && b[|b| - 1] == last.Span();
      } else {
        assert b == a;
      }
      if InCountedState(front, p) {
        var i :| 0 <= i < |front| && CountedAt(front[i], p);
        assert CountedAt(states[i], p);
      }
      if InCountedState(states, p) && !CountedAt(last, p) {
        var i :| 0 <= i < |states| && CountedAt(states[i], p);
        assert CountedAt(front[i], p);
      }
    }
  }

  /** States that do not overlap never account for more than the window, and account for all of it exactly
      when every point of the window lies in a counted state. */
  lemma WindowIsAccounted(inp: Input, a: Analysis)
    requires Reported(inp, false, a) && PairwiseDisjoint(Spans(inp.all))
    ensures a.sumRunning + a.runnable + a.blocked + a.sleeping <= Max(0, inp.hi - inp.lo)
    ensures a.sumRunning + a.runnable + a.blocked + a.sleeping == Max(0, inp.hi - inp.lo) <==>
            forall p :: inp.lo <= p < inp.hi ==> InCountedState(inp.all, p)
  {
    var n, spans, window := |inp.all|, CountedSpans(inp.all), [Interval(inp.lo, inp.hi)];
    assert inp.all[..n] == inp.all;
    KindsAddUp(inp, n);
    CountedSpansAre(inp, n);
    if inp.hi <= inp.lo {
      EmptyWindow(spans, inp.lo, inp.hi);
    } else {
      assert TotalOverlap(window, inp.lo, inp.hi) == inp.hi - inp.lo by { assert window[..0] == []; }
      forall p | inp.lo <= p < inp.hi
        ensures Covering(spans, p) <= Covering(window, p) == 1
        ensures Covering(spans, p) == 1 <==> InCountedState(inp.all, p)
      {
        assert window[..0] == [];
        CountedCoverLess(inp.all, p);
        DisjointCoveredOnce(Spans(inp.all), p);
        CountedIsCovered(inp.all, p);
      }
      CompareCoverage(spans, window, inp.lo, inp.hi);
      if forall p :: inp.lo <= p < inp.hi ==> InCountedState(inp.all, p) {
        TotalOverlapExact(spans, inp.lo, inp.hi);
      }
    }
  }

  lemma {:induction false} TimeMonotone(inp: Input, e: Entry, e': Entry, n: nat)
    requires n <= |inp.all|
    requires forall s :: s in inp.all && Concerns(e, inp.all, inp.names, s) ==> Concerns(e', inp.all, inp.names, s)
    ensures Time(inp, e, n) <= Time(inp, e', n)
  {
    if n > 0 {
      TimeMonotone(inp, e, e', n - 1);
    }
  }

  /** The breakdowns never exceed the totals they break down, and big and small cores share the running time. */
  lemma BreakdownsFit(inp: Input, a: Analysis)
    requires Reported(inp, false, a)
    ensures a.bigCoreRunning + a.smallCoreRunning == a.sumRunning
    ensures Total(a.blockedFunctions) <= a.blocked && Total(a.sleepWakers) <= a.sleeping
  {
    TotalSplits(a.cpuRunning, FIRST_BIG_CORE);
    TimeMonotone(inp, InSomeFunction, OfKinds({Blocked}), |inp.all|);
    TimeMonotone(inp, WokenBySomeone, OfKinds({Sleeping}), |inp.all|);
  }
}
