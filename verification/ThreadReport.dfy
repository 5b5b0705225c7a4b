/** What a thread report says of the recorded states: every figure is a sum over the states, and the summands are written
    with the fields of the states only. */
module ThreadReport {
  import opened Options
  import opened Intervals
  import opened MapSums
  import opened ThreadStates

  ghost function Sum(states: seq<State>, f: State -> int): int {
    if states == [] then 0 else Sum(states[..|states| - 1], f) + f(states[|states| - 1])
  }

  /** How many nanoseconds of the window lie in the state. */
  ghost function Shared(inp: Input, s: State): nat {
    PointsIn(s.ts, s.ts + s.dur, inp.lo, inp.hi)
  }

  lemma {:induction false} TimeIsSum(inp: Input, e: Entry, n: nat, f: State -> int)
    requires n <= |inp.all|
    requires forall s :: f(s) == if Concerns(e, inp.all, inp.names, s) then Shared(inp, s) else 0
    ensures Time(inp, e, n) == Sum(inp.all[..n], f)
  {
    if n > 0 {
      TimeIsSum(inp, e, n - 1, f);
      OverlapCountsPoints(inp.all[n - 1].Span(), inp.lo, inp.hi);
      assert inp.all[..n][..n - 1] == inp.all[..n - 1];
    }
  }

  lemma TotalTimeIsSum(inp: Input, e: Entry, f: State -> int)
    requires forall s :: f(s) == if Concerns(e, inp.all, inp.names, s) then Shared(inp, s) else 0
    ensures Time(inp, e, |inp.all|) == Sum(inp.all, f)
  {
    TimeIsSum(inp, e, |inp.all|, f);
    assert inp.all[..|inp.all|] == inp.all;
  }

  /** Running time, also by core and by big and small cores: cores 6 and up are big. */
  lemma RunningReport(inp: Input, runningOnly: bool, a: Analysis, cpu: int)
    requires Reported(inp, runningOnly, a)
    ensures a.sumRunning == Sum(inp.all, (s: State) => if s.code == Run then Shared(inp, s) else 0)
    ensures Get(a.cpuRunning, cpu) == Sum(inp.all, (s: State) => if s.code == Run && s.cpu == cpu then Shared(inp, s) else 0)
    ensures a.bigCoreRunning == Sum(inp.all, (s: State) => if s.code == Run && s.cpu >= 6 then Shared(inp, s) else 0)
    ensures a.smallCoreRunning == a.sumRunning - a.bigCoreRunning
  {
    TotalTimeIsSum(inp, OfKinds({Running}), (s: State) => if s.code == Run then Shared(inp, s) else 0);
    TotalTimeIsSum(inp, OnCpu(cpu), (s: State) => if s.code == Run && s.cpu == cpu then Shared(inp, s) else 0);
    TotalTimeIsSum(inp, OnBigCore, (s: State) => if s.code == Run && s.cpu >= 6 then Shared(inp, s) else 0);
    TotalSplits(a.cpuRunning, FIRST_BIG_CORE);
  }

  /** Runnable, blocked and sleeping time, and blocked time by kernel function; with `running_only` they are zero. */
  lemma WaitingReport(inp: Input, runningOnly: bool, a: Analysis, f: string)
    requires Reported(inp, runningOnly, a)
    ensures runningOnly ==> a.runnable == a.blocked == a.sleeping == 0 && a.blockedFunctions == map[] && a.sleepWakers == map[]
    ensures !runningOnly ==> a.runnable == Sum(inp.all, (s: State) => if s.code == R || s.code == RPlus then Shared(inp, s) else 0)
    ensures !runningOnly ==> a.blocked == Sum(inp.all, (s: State) => if s.code == D then Shared(inp, s) else 0)
    ensures !runningOnly ==> a.sleeping == Sum(inp.all, (s: State) => if s.code == S then Shared(inp, s) else 0)
    ensures !runningOnly ==>
              Get(a.blockedFunctions, f)
              == Sum(inp.all, (s: State) => if s.code == D && f != "" && s.blockedFunction == Some(f) then Shared(inp, s) else 0)
  {
    TotalTimeIsSum(inp, OfKinds({Runnable}), (s: State) => if s.code == R || s.code == RPlus then Shared(inp, s) else 0);
    TotalTimeIsSum(inp, OfKinds({Blocked}), (s: State) => if s.code == D then Shared(inp, s) else 0);
    TotalTimeIsSum(inp, OfKinds({Sleeping}), (s: State) => if s.code == S then Shared(inp, s) else 0);
    TotalTimeIsSum(inp, InFunction(f),
                   (s: State) => if s.code == D && f != "" && s.blockedFunction == Some(f) then Shared(inp, s) else 0);
  }

  /** Waiting for input and output counts whole rows, of all states or of the running ones; the wake-up latency is the
      whole length of the states that begin by the window's start and do not run. */
  lemma WholeRowReport(inp: Input, runningOnly: bool, a: Analysis)
    requires Reported(inp, runningOnly, a)
    ensures a.ioWait == Sum(inp.all, (s: State) => if s.ioWait.Some? && (s.code == Run || !runningOnly) then s.ioWait.value else 0)
    ensures a.wakeUpLatency == Sum(inp.all, (s: State) => if s.ts <= inp.lo && s.code != Run then s.dur else 0)
  {
    IoWaitIsSum(inp.all, runningOnly, (s: State) => if s.ioWait.Some? && (s.code == Run || !runningOnly) then s.ioWait.value else 0);
    LatencyIsSum(inp.all, inp.lo, (s: State) => if s.ts <= inp.lo && s.code != Run then s.dur else 0);
  }

  lemma {:induction false} IoWaitIsSum(states: seq<State>, runningOnly: bool, f: State -> int)
    requires forall s :: f(s) == if s.ioWait.Some? && (s.code == Run || !runningOnly) then s.ioWait.value else 0
    ensures IoWait(if runningOnly then RunningStates(states) else states) == Sum(states, f)
  {
    if states != [] {
      var n := |states| - 1;
      IoWaitIsSum(states[..n], runningOnly, f);
      IoStep(states, n);
      assert states[..n + 1] == states;
    }
  }

  lemma {:induction false} LatencyIsSum(states: seq<State>, lo: int, f: State -> int)
    requires forall s :: f(s) == if s.ts <= lo && s.code != Run then s.dur else 0
    ensures WakeUpLatency(states, lo) == Sum(states, f)
  {
    if states != [] {
      LatencyIsSum(states[..|states| - 1], lo, f);
    }
  }

  // ---------------------------------------------------------------- who ended a sleep

  /** `x` is the first state, in list order, that starts at `t` or later. */
  ghost predicate IsFirstFrom(states: seq<State>, t: int, x: State) {
    exists k :: 0 <= k < |states| && states[k] == x && x.ts >= t && forall j :: 0 <= j < k ==> states[j].ts < t
  }

  lemma {:induction false} NextStateIs(states: seq<State>, t: int, x: State)
    ensures NextState(states, t) == Some(x) <==> IsFirstFrom(states, t, x)
    ensures NextState(states, t) == None <==> forall k :: 0 <= k < |states| ==> states[k].ts < t
  {
    if states != [] && states[0].ts < t {
      var rest := states[1..];
      NextStateIs(rest, t, x);
      assert forall k :: 0 < k < |states| ==> states[k] == rest[k - 1];
      assert forall k :: 0 <= k < |rest| ==> rest[k] == states[k + 1];
      if IsFirstFrom(rest, t, x) {
        var k :| 0 <= k < |rest| && rest[k] == x && x.ts >= t && forall j :: 0 <= j < k ==> rest[j].ts < t;
        assert states[k + 1] == x;
      }
      if IsFirstFrom(states, t, x) {
        var k :| 0 <= k < |states| && states[k] == x && x.ts >= t && forall j :: 0 <= j < k ==> states[j].ts < t;
        assert rest[k - 1] == x;
      }
    }
  }

  ghost predicate IsNext(states: seq<State>, s: State, x: State) {
    IsFirstFrom(states, s.ts + s.dur, x)
  }

  ghost predicate IsNamed(names: map<int, string>, utid: int, w: Waker) {
    w == if utid in names then Named(names[utid]) else Unknown(utid)
  }

  /** The sleep `s` was ended by `w`: the thread recorded on the first state from the end of `s` on, by its name if the
      batch query knows it. */
  ghost predicate Ended(inp: Input, s: State, w: Waker) {
    exists x, utid :: IsNext(inp.all, s, x) && IsNamed(inp.names, utid, w) && x.wakerUtid == Some(utid)
  }

  lemma WakerIs(inp: Input, s: State, w: Waker)
    ensures Ended(inp, s, w) <==> WakerOf(inp.all, s).Some? && WakerName(inp.names, WakerOf(inp.all, s).value) == w
  {
    var next := NextState(inp.all, s.ts + s.dur);
    if next.Some? {
      NextStateIs(inp.all, s.ts + s.dur, next.value);
      assert IsNext(inp.all, s, next.value);
      if next.value.wakerUtid.Some? {
        assert IsNamed(inp.names, next.value.wakerUtid.value, WakerName(inp.names, next.value.wakerUtid.value));
      }
    }
    if Ended(inp, s, w) {
      var x, utid :| IsNext(inp.all, s, x) && IsNamed(inp.names, utid, w) && x.wakerUtid == Some(utid);
      NextStateIs(inp.all, s.ts + s.dur, x);
    }
  }

  /** Each waker is credited with the sleeps it ended. */
  lemma WakerReport(inp: Input, a: Analysis, w: Waker)
    requires Reported(inp, false, a)
    ensures Get(a.sleepWakers, w) == Sum(inp.all, (s: State) => if s.code == S && Ended(inp, s, w) then Shared(inp, s) else 0)
  {
    SleepsEndedBy(inp, w, (s: State) => if s.code == S && Ended(inp, s, w) then Shared(inp, s) else 0);
  }

  lemma SleepsEndedBy(inp: Input, w: Waker, f: State -> int)
    requires forall s :: f(s) == if s.code == S && Ended(inp, s, w) then Shared(inp, s) else 0
    ensures Time(inp, WokenBy(w), |inp.all|) == Sum(inp.all, f)
  {
    forall s ensures Concerns(WokenBy(w), inp.all, inp.names, s) <==> s.code == S && Ended(inp, s, w) {
      SleepEnded(inp, s, w);
    }
    TotalTimeIsSum(inp, WokenBy(w), f);
  }

  lemma SleepEnded(inp: Input, s: State, w: Waker)
    ensures Concerns(WokenBy(w), inp.all, inp.names, s) <==> s.code == S && Ended(inp, s, w)
  {
    WakerIs(inp, s, w);
  }

  /** States that follow each other without a gap. */
  ghost predicate Gapless(states: seq<State>) {
    && (forall k :: 0 <= k < |states| ==> states[k].dur > 0)
    && (forall j, k :: 0 <= j && k == j + 1 < |states| ==> states[j].ts + states[j].dur == states[k].ts)
  }

  lemma {:induction false} GaplessEnds(states: seq<State>, j: nat, k: nat)
    requires Gapless(states) && j <= k < |states|
    ensures states[j].ts + states[j].dur <= states[k].ts + states[k].dur
    ensures j < k ==> states[j].ts < states[k].ts
  {
    if j < k {
      GaplessEnds(states, j, k - 1);
      assert states[k - 1].ts + states[k - 1].dur == states[k].ts;
    }
  }

  lemma GaplessNext(states: seq<State>, k: nat, x: State)
    requires Gapless(states) && k < |states|
    ensures IsNext(states, states[k], x) <==> k + 1 < |states| && x == states[k + 1]
  {
    var t := states[k].ts + states[k].dur;
    forall j | 0 <= j <= k ensures states[j].ts < t {
      GaplessEnds(states, j, k);
    }
    if IsNext(states, states[k], x) {
      var j :| 0 <= j < |states| && states[j] == x && x.ts >= t && forall i :: 0 <= i < j ==> states[i].ts < t;
      assert j > k && states[k + 1].ts == t;
    }
    if k + 1 < |states| {
      assert states[k + 1].ts == t;
    }
  }

  /** The next state in the list records a waker, which is `w`. */
  ghost predicate NextRecords(inp: Input, k: nat, w: Waker) {
    k + 1 < |inp.all| && inp.all[k + 1].wakerUtid.Some? && IsNamed(inp.names, inp.all[k + 1].wakerUtid.value, w)
  }

  /** In such a list a sleep is ended by the waker recorded on the very next state, and by nobody if there is none. */
  lemma GaplessWaker(inp: Input, k: nat, w: Waker)
    requires Gapless(inp.all) && k < |inp.all|
    ensures Ended(inp, inp.all[k], w) <==> NextRecords(inp, k, w)
  {
    if Ended(inp, inp.all[k], w) {
      var x, utid :| IsNext(inp.all, inp.all[k], x) && IsNamed(inp.names, utid, w) && x.wakerUtid == Some(utid);
      GaplessNext(inp.all, k, x);
    }
    if NextRecords(inp, k, w) {
      GaplessNext(inp.all, k, inp.all[k + 1]);
      assert IsNext(inp.all, inp.all[k], inp.all[k + 1]);
    }
  }

  /** Time credited to `w` for the first `n` states, read off neighbouring states. */
  ghost function Credited(inp: Input, w: Waker, n: nat): int
    requires n <= |inp.all|
  {
    if n == 0 then 0 else Credited(inp, w, n - 1) + CreditOf(inp, w, n - 1)
  }

  /** State `k`'s share: its time, if it is a sleep that ends in a state which records `w`. */
  ghost function CreditOf(inp: Input, w: Waker, k: nat): int
    requires k < |inp.all|
  {
    if inp.all[k].code == S && NextRecords(inp, k, w) then Shared(inp, inp.all[k]) else 0
  }

  /** `f` is the time credited for a state. */
  ghost predicate IsCredit(inp: Input, w: Waker, f: State -> int) {
    forall s :: f(s) == if s.code == S && Ended(inp, s, w) then Shared(inp, s) else 0
  }

  lemma CreditAt(inp: Input, w: Waker, k: nat, f: State -> int)
    requires Gapless(inp.all) && k < |inp.all| && IsCredit(inp, w, f)
    ensures f(inp.all[k]) == CreditOf(inp, w, k)
  {
    GaplessWaker(inp, k, w);
  }

  lemma {:induction false} SumIsCredited(inp: Input, w: Waker, n: nat, f: State -> int)
    requires Gapless(inp.all) && n <= |inp.all|
    requires forall k :: 0 <= k < |inp.all| ==> f(inp.all[k]) == CreditOf(inp, w, k)
    ensures Sum(inp.all[..n], f) == Credited(inp, w, n)
  {
    if n > 0 {
      SumIsCredited(inp, w, n - 1, f);
      assert inp.all[..n][..n - 1] == inp.all[..n - 1];
    }
  }

  /** So for the usual gapless list each waker is credited with the sleeps right before the states it is recorded on. */
  lemma GaplessReport(inp: Input, a: Analysis, w: Waker)
    requires Reported(inp, false, a) && Gapless(inp.all)
    ensures Get(a.sleepWakers, w) == Credited(inp, w, |inp.all|)
  {
    WakerReport(inp, a, w);
    AllCredited(inp, w, (s: State) => if s.code == S && Ended(inp, s, w) then Shared(inp, s) else 0);
  }

  lemma AllCredited(inp: Input, w: Waker, f: State -> int)
    requires Gapless(inp.all) && IsCredit(inp, w, f)
    ensures Sum(inp.all, f) == Credited(inp, w, |inp.all|)
  {
    forall k | 0 <= k < |inp.all| ensures f(inp.all[k]) == CreditOf(inp, w, k) {
      CreditAt(inp, w, k, f);
    }
    SumIsCredited(inp, w, |inp.all|, f);
    assert inp.all[..|inp.all|] == inp.all;
  }
}
