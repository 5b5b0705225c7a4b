/** The retrying worker pool of the jank analysis and the merge of its results. Futures complete in an order
    the program does not control: the loops below take any pending task next, so what is proved holds for every
    completion order. Which attempts raise is an arbitrary function of the attempt and the frame. */
module WorkerPool {
  import opened MapSums

  // ---------------------------------------------------------------- CPU state summaries

  /** The eight counters of a CPUStateSummary. */
  datatype Summary = Summary(sumRunning: int, bigCore: int, smallCore: int, runnable: int,
                             sleep: int, blocked: int, gpuPhase: int, beforeChorBigCore: int) {
    function Plus(o: Summary): Summary {
      Summary(sumRunning + o.sumRunning, bigCore + o.bigCore, smallCore + o.smallCore, runnable + o.runnable,
              sleep + o.sleep, blocked + o.blocked, gpuPhase + o.gpuPhase, beforeChorBigCore + o.beforeChorBigCore)
    }
  }

  const ZERO := Summary(0, 0, 0, 0, 0, 0, 0, 0)

  class CpuStateSummary {
    var sumRunning: int
    var bigCore: int
    var smallCore: int
    var runnable: int
    var sleep: int
    var blocked: int
    var gpuPhase: int
    var beforeChorBigCore: int

    function View(): Summary
      reads this
    {
      Summary(sumRunning, bigCore, smallCore, runnable, sleep, blocked, gpuPhase, beforeChorBigCore)
    }

    constructor (s: Summary)
      ensures View() == s
    {
      sumRunning, bigCore, smallCore, runnable := s.sumRunning, s.bigCore, s.smallCore, s.runnable;
      sleep, blocked, gpuPhase, beforeChorBigCore := s.sleep, s.blocked, s.gpuPhase, s.beforeChorBigCore;
    }

    method Update(other: CpuStateSummary)
      modifies this
      ensures View() == old(View()).Plus(old(other.View()))
      ensures sumRunning == old(sumRunning) + old(other.sumRunning) && bigCore == old(bigCore) + old(other.bigCore)
      ensures smallCore == old(smallCore) + old(other.smallCore) && runnable == old(runnable) + old(other.runnable)
      ensures sleep == old(sleep) + old(other.sleep) && blocked == old(blocked) + old(other.blocked)
      ensures gpuPhase == old(gpuPhase) + old(other.gpuPhase)
      ensures beforeChorBigCore == old(beforeChorBigCore) + old(other.beforeChorBigCore)
    {
      sumRunning := sumRunning + other.sumRunning;
      bigCore := bigCore + other.bigCore;
      smallCore := smallCore + other.smallCore;
      runnable := runnable + other.runnable;
      sleep := sleep + other.sleep;
      blocked := blocked + other.blocked;
      gpuPhase := gpuPhase + other.gpuPhase;
      beforeChorBigCore := beforeChorBigCore + other.beforeChorBigCore;
    }
  }

  // ---------------------------------------------------------------- the pool

  datatype FrameResult = FrameResult(cpu: Summary, blocked: map<string, int>, wakers: map<string, int>, occupiers: seq<string>)

  /** What the result table holds for a frame: the worker's record, or the fallback record of a frame whose
      every attempt raised. */
  datatype Entry = Analyzed(result: FrameResult) | Fallback

  const MAX_RETRIES := 2

  /** `raises(a, f)`: attempt `a` (0 is the first, 1 and 2 the retries) of frame `f` raises. */
  type Failures = (nat, int) -> bool

  ghost predicate RaisesBefore(raises: Failures, f: int, attempts: nat) {
    forall a: nat :: a < attempts ==> raises(a, f)
  }

  /** The frame got a result from one of its three attempts. */
  ghost predicate Succeeds(raises: Failures, f: int) {
    exists a: nat :: a <= 2 && !raises(a, f)
  }

  ghost predicate Distinct(frames: seq<int>) {
    forall i, j :: 0 <= i < j < |frames| ==> frames[i] != frames[j]
  }

  ghost function Elements(s: seq<int>): set<int> {
    set f | f in s
  }

  /** The frames whose first `attempts` attempts all raise. */
  ghost function Failing(frames: seq<int>, raises: Failures, attempts: nat): set<int> {
    set f | f in frames && RaisesBefore(raises, f, attempts)
  }

  ghost predicate HoldsResults(results: map<int, Entry>, work: int -> FrameResult, fs: set<int>) {
    results.Keys == fs && forall f :: f in fs ==> results[f] == Analyzed(work(f))
  }

  /** State after some completed attempts: the frames still failing, and the results of all the others. */
  ghost predicate After(frames: seq<int>, work: int -> FrameResult, raises: Failures, attempts: nat,
                        results: map<int, Entry>, failed: seq<int>, analyzed: int) {
    && Distinct(failed) && Elements(failed) == Failing(frames, raises, attempts)
    && HoldsResults(results, work, Elements(frames) - Failing(frames, raises, attempts))
    && analyzed == |results|
  }

  lemma TakeOut(s: seq<int>, k: nat)
    requires k < |s| && Distinct(s)
    ensures var rest := s[..k] + s[k + 1..];
            Distinct(rest) && Elements(rest) == Elements(s) - {s[k]} && s[k] in Elements(s)
  {
    assert s == s[..k] + [s[k]] + s[k + 1..];
  }

  /** State of a round: `left` is pending, `bad` raised, `done` has results. */
  ghost predicate InRound(attempt: nat, work: int -> FrameResult, raises: Failures, keys: set<int>,
                          pending: seq<int>, failed: seq<int>, results: map<int, Entry>, analyzed: int, done: set<int>) {
    && Distinct(pending) && Distinct(failed) && analyzed == |results|
    && (forall f :: f in failed ==> raises(attempt, f))
    && (forall f :: f in done ==> !raises(attempt, f))
    && HoldsResults(results, work, keys + done)
  }

  lemma TaskRaised(attempt: nat, work: int -> FrameResult, raises: Failures, keys: set<int>, all: set<int>,
                   pending: seq<int>, failed: seq<int>, results: map<int, Entry>, analyzed: int, done: set<int>, k: nat)
    requires InRound(attempt, work, raises, keys, pending, failed, results, analyzed, done)
    requires Split(all, Elements(pending), Elements(failed), done) && k < |pending| && raises(attempt, pending[k])
    ensures var rest, failed' := pending[..k] + pending[k + 1..], failed + [pending[k]];
            && InRound(attempt, work, raises, keys, rest, failed', results, analyzed, done)
            && Split(all, Elements(rest), Elements(failed'), done)
  {
    var f := pending[k];
    TakeOut(pending, k);
    Move(all, Elements(pending), Elements(failed), done, f);
    OneMore(failed, f);
    assert forall x :: x in failed + [f] <==> x in failed || x == f;
  }

  lemma TaskReturned(attempt: nat, work: int -> FrameResult, raises: Failures, keys: set<int>, all: set<int>,
                     pending: seq<int>, failed: seq<int>, results: map<int, Entry>, analyzed: int, done: set<int>, k: nat)
    requires InRound(attempt, work, raises, keys, pending, failed, results, analyzed, done)
    requires Split(all, Elements(pending), Elements(failed), done) && keys !! all
    requires k < |pending| && !raises(attempt, pending[k])
    ensures var rest, f := pending[..k] + pending[k + 1..], pending[k];
            && InRound(attempt, work, raises, keys, rest, failed, results[f := Analyzed(work(f))], analyzed + 1, done + {f})
            && Split(all, Elements(rest), Elements(failed), done + {f})
  {
    TakeOut(pending, k);
    Move(all, Elements(pending), Elements(failed), done, pending[k]);
    OneMoreResult(results, work, keys, done, pending[k]);
  }

  /** One round: submit every task, take the futures as they complete. */
  method RunRound(attempt: nat, tasks: seq<int>, work: int -> FrameResult, raises: Failures,
                  before: map<int, Entry>, count: int)
    returns (results: map<int, Entry>, failed: seq<int>, analyzed: int)
    requires Distinct(tasks) && count == |before|
    requires HoldsResults(before, work, before.Keys) && before.Keys !! Elements(tasks)
    ensures Distinct(failed) && analyzed == |results|
    ensures Elements(failed) == set f | f in tasks && raises(attempt, f)
    ensures HoldsResults(results, work, before.Keys + (Elements(tasks) - Elements(failed)))
  {
    results, failed, analyzed := before, [], count;
    var pending := tasks;
    ghost var done: set<int> := {};
    assert Elements([]) == {} && before.Keys + {} == before.Keys;
    while pending != []
      invariant InRound(attempt, work, raises, before.Keys, pending, failed, results, analyzed, done)
      invariant Split(Elements(tasks), Elements(pending), Elements(failed), done)
      decreases |pending|
    {
      var k :| 0 <= k < |pending|;
      var task := pending[k];
      if raises(attempt, task) {
        TaskRaised(attempt, work, raises, before.Keys, Elements(tasks), pending, failed, results, analyzed, done, k);
        failed := failed + [task];
      } else {
        TaskReturned(attempt, work, raises, before.Keys, Elements(tasks), pending, failed, results, analyzed, done, k);
        results, analyzed := results[task := Analyzed(work(task))], analyzed + 1;
        done := done + {task};
      }
      pending := pending[..k] + pending[k + 1..];
    }
    RoundEnds(attempt, tasks, raises, before.Keys, Elements(failed), done);
  }

  ghost predicate Split(all: set<int>, a: set<int>, b: set<int>, c: set<int>) {
    all == a + b + c && a !! b && a !! c && b !! c
  }

  lemma Move(all: set<int>, a: set<int>, b: set<int>, c: set<int>, x: int)
    requires Split(all, a, b, c) && x in a
    ensures Split(all, a - {x}, b + {x}, c) && Split(all, a - {x}, b, c + {x})
    ensures x in all && x !in b && x !in c
  {
  }

  lemma OneMoreResult(results: map<int, Entry>, work: int -> FrameResult, keys: set<int>, done: set<int>, x: int)
    requires HoldsResults(results, work, keys + done) && x !in keys + done
    ensures var results' := results[x := Analyzed(work(x))];
            HoldsResults(results', work, keys + (done + {x})) && |results'| == |results| + 1
  {
  }

  lemma RoundEnds(attempt: nat, tasks: seq<int>, raises: Failures, keys: set<int>, bad: set<int>, done: set<int>)
    requires Split(Elements(tasks), {}, bad, done)
    requires forall f :: f in bad ==> raises(attempt, f)
    requires forall f :: f in done ==> !raises(attempt, f)
    ensures bad == set f | f in tasks && raises(attempt, f)
    ensures keys + done == keys + (Elements(tasks) - bad)
  {
    Raised(attempt, tasks, raises, bad, done);
    assert done == Elements(tasks) - bad;
  }

  lemma Raised(attempt: nat, tasks: seq<int>, raises: Failures, bad: set<int>, done: set<int>)
    requires Split(Elements(tasks), {}, bad, done)
    requires forall f :: f in bad ==> raises(attempt, f)
    requires forall f :: f in done ==> !raises(attempt, f)
    ensures bad == set f | f in tasks && raises(attempt, f)
  {
    forall f | f in tasks ensures f in bad <==> raises(attempt, f) {
      assert f in Elements(tasks);
    }
    forall f | f in bad ensures f in tasks {
      assert f in Elements(tasks);
    }
  }

  lemma OneMore(s: seq<int>, x: int)
    requires Distinct(s) && x !in Elements(s)
    ensures Distinct(s + [x]) && Elements(s + [x]) == Elements(s) + {x}
  {
    forall i | 0 <= i < |s| ensures s[i] != x {
      assert s[i] in Elements(s);
    }
  }

  /** The table the pool ends with, said without any order. */
  ghost predicate IsFinalTable(frames: seq<int>, work: int -> FrameResult, raises: Failures, results: map<int, Entry>) {
    && results.Keys == Elements(frames)
    && forall f :: f in Elements(frames) ==> results[f] == if Succeeds(raises, f) then Analyzed(work(f)) else Fallback
  }

  ghost function Successes(frames: seq<int>, raises: Failures): set<int> {
    set f | f in frames && Succeeds(raises, f)
  }

  /** One attempt of every frame that still fails. */
  method Attempt(n: nat, ghost frames: seq<int>, work: int -> FrameResult, raises: Failures,
                 before: map<int, Entry>, tasks: seq<int>, count: int)
    returns (results: map<int, Entry>, failed: seq<int>, analyzed: int)
    requires After(frames, work, raises, n, before, tasks, count)
    ensures After(frames, work, raises, n + 1, results, failed, analyzed)
  {
    results, failed, analyzed := RunRound(n, tasks, work, raises, before, count);
    RoundDone(frames, raises, n, tasks, failed);
  }

  method RunPool(frames: seq<int>, work: int -> FrameResult, raises: Failures)
    returns (results: map<int, Entry>, analyzed: int, finallyFailed: int)
    requires Distinct(frames)
    ensures IsFinalTable(frames, work, raises, results)
    ensures analyzed == |Successes(frames, raises)| && finallyFailed == |frames| - analyzed
  {
    var failed;
    BeforeAll(frames, work, raises);
    results, failed, analyzed := Attempt(0, frames, work, raises, map[], frames, 0);
    for retry := 0 to MAX_RETRIES
      invariant After(frames, work, raises, retry + 1, results, failed, analyzed)
    {
      if failed == [] {
        NoneFailing(frames, work, raises, retry + 1, MAX_RETRIES + 1, results);
        break;
      }
      results, failed, analyzed := Attempt(retry + 1, frames, work, raises, results, failed, analyzed);
    }
    finallyFailed := |failed|;
    FinalCount(frames, work, raises, results, failed);
    ghost var table := results;
    results := FillFallbacks(results, failed);
    FinalTable(frames, work, raises, table, failed, results);
  }

  lemma BeforeAll(frames: seq<int>, work: int -> FrameResult, raises: Failures)
    requires Distinct(frames)
    ensures After(frames, work, raises, 0, map[], frames, 0)
  {
    assert Failing(frames, raises, 0) == Elements(frames);
  }

  lemma RoundDone(frames: seq<int>, raises: Failures, n: nat, tasks: seq<int>, failed: seq<int>)
    requires Elements(tasks) == Failing(frames, raises, n)
    requires Elements(failed) == set f | f in tasks && raises(n, f)
    ensures Elements(failed) == Failing(frames, raises, n + 1)
    ensures Elements(frames) - Failing(frames, raises, n) + (Elements(tasks) - Elements(failed)) ==
            Elements(frames) - Failing(frames, raises, n + 1)
  {
    forall f ensures f in Elements(failed) <==> f in Failing(frames, raises, n + 1) {
      assert f in tasks <==> f in Elements(tasks);
      assert RaisesBefore(raises, f, n + 1) <==> RaisesBefore(raises, f, n) && raises(n, f);
    }
  }

  lemma NoneFailing(frames: seq<int>, work: int -> FrameResult, raises: Failures, n: nat, m: nat, results: map<int, Entry>)
    requires n <= m && After(frames, work, raises, n, results, [], |results|)
    ensures After(frames, work, raises, m, results, [], |results|)
  {
    assert Elements([]) == {};
    forall f ensures f !in Failing(frames, raises, m) {
      assert f !in Failing(frames, raises, n);
    }
  }

  /** Frames that failed for good get the fallback record. */
  method FillFallbacks(table: map<int, Entry>, failed: seq<int>) returns (results: map<int, Entry>)
    ensures results.Keys == table.Keys + Elements(failed)
    ensures forall f :: f in results ==> results[f] == if f in Elements(failed) then Fallback else table[f]
  {
    results := table;
    for k := 0 to |failed|
      invariant results.Keys == table.Keys + Elements(failed[..k])
      invariant forall f :: f in results ==> results[f] == if f in Elements(failed[..k]) then Fallback else table[f]
    {
      assert failed[..k + 1] == failed[..k] + [failed[k]];
      assert Elements(failed[..k + 1]) == Elements(failed[..k]) + {failed[k]};
      results := results[failed[k] := Fallback];
    }
    assert failed[..|failed|] == failed;
  }

  lemma FailsIffAllRaise(raises: Failures, f: int)
    ensures Succeeds(raises, f) <==> !RaisesBefore(raises, f, MAX_RETRIES + 1)
  {
  }

  lemma FinalFailures(frames: seq<int>, work: int -> FrameResult, raises: Failures, table: map<int, Entry>, failed: seq<int>)
    requires After(frames, work, raises, MAX_RETRIES + 1, table, failed, |table|)
    ensures table.Keys == Elements(frames) - Elements(failed) == Successes(frames, raises)
    ensures Elements(failed) <= Elements(frames)
  {
    forall f ensures f in Failing(frames, raises, MAX_RETRIES + 1) <==> f in Elements(frames) && !Succeeds(raises, f) {
      FailsIffAllRaise(raises, f);
    }
  }

  lemma FinalCount(frames: seq<int>, work: int -> FrameResult, raises: Failures, table: map<int, Entry>, failed: seq<int>)
    requires Distinct(frames) && After(frames, work, raises, MAX_RETRIES + 1, table, failed, |table|)
    ensures |table| == |Successes(frames, raises)| && |failed| == |frames| - |table|
  {
    FinalFailures(frames, work, raises, table, failed);
    DistinctSize(frames);
    DistinctSize(failed);
    assert |Elements(frames) - Elements(failed)| == |Elements(frames)| - |Elements(failed)|;
  }

  lemma FinalTable(frames: seq<int>, work: int -> FrameResult, raises: Failures, table: map<int, Entry>, failed: seq<int>,
                   results: map<int, Entry>)
    requires After(frames, work, raises, MAX_RETRIES + 1, table, failed, |table|)
    requires results.Keys == table.Keys + Elements(failed)
    requires forall f :: f in results ==> results[f] == if f in Elements(failed) then Fallback else table[f]
    ensures IsFinalTable(frames, work, raises, results)
  {
    FinalFailures(frames, work, raises, table, failed);
    forall f | f in Elements(frames)
      ensures f in results && results[f] == if Succeeds(raises, f) then Analyzed(work(f)) else Fallback
    {
      assert f in Successes(frames, raises) <==> f in table.Keys;
    }
  }

  lemma {:induction false} DistinctSize(s: seq<int>)
    requires Distinct(s)
    ensures |Elements(s)| == |s|
  {
    if s == [] {
      assert Elements(s) == {};
    } else {
      var front := s[..|s| - 1];
      DistinctSize(front);
      assert Elements(s) == Elements(front) + {s[|s| - 1]};
    }
  }

  // ---------------------------------------------------------------- merging the results

  /** `KeyError` is raised on the fallback record, which lacks the stage breakdown that is written back. */
  datatype Merged = KeyError | Totals(cpu: Summary, blocked: map<string, int>, wakers: map<string, int>, occupiers: seq<string>)

  function CpuTotal(frames: seq<int>, work: int -> FrameResult): Summary {
    if frames == [] then ZERO else CpuTotal(frames[..|frames| - 1], work).Plus(work(frames[|frames| - 1]).cpu)
  }

  function OccupiersOf(frames: seq<int>, work: int -> FrameResult): seq<string> {
    if frames == [] then [] else OccupiersOf(frames[..|frames| - 1], work) + work(frames[|frames| - 1]).occupiers
  }

  ghost function Sum(frames: seq<int>, f: int -> int): int {
    if frames == [] then 0 else Sum(frames[..|frames| - 1], f) + f(frames[|frames| - 1])
  }

  /** Counter by counter the total is the sum over the frames. */
  lemma {:induction false} CpuTotalIs(frames: seq<int>, work: int -> FrameResult)
    ensures var t := CpuTotal(frames, work);
            && t.sumRunning == Sum(frames, f => work(f).cpu.sumRunning)
            && t.bigCore == Sum(frames, f => work(f).cpu.bigCore)
            && t.smallCore == Sum(frames, f => work(f).cpu.smallCore)
            && t.runnable == Sum(frames, f => work(f).cpu.runnable)
            && t.sleep == Sum(frames, f => work(f).cpu.sleep)
            && t.blocked == Sum(frames, f => work(f).cpu.blocked)
            && t.gpuPhase == Sum(frames, f => work(f).cpu.gpuPhase)
            && t.beforeChorBigCore == Sum(frames, f => work(f).cpu.beforeChorBigCore)
  {
    if frames != [] {
      CpuTotalIs(frames[..|frames| - 1], work);
    }
  }

  /** The lists of the frames one after the other. */
  lemma {:induction false} OccupiersInOrder(a: seq<int>, b: seq<int>, work: int -> FrameResult)
    ensures OccupiersOf(a + b, work) == OccupiersOf(a, work) + OccupiersOf(b, work)
    ensures |b| == 1 ==> OccupiersOf(b, work) == work(b[0]).occupiers
    decreases |b|
  {
    if b == [] {
      assert a + b == a;
    } else {
      var n := |b| - 1;
      OccupiersInOrder(a, b[..n], work);
      assert (a + b)[..|a + b| - 1] == a + b[..n];
      assert n == 0 ==> b[..n] == [];
    }
  }

  ghost function BlockedTotal(frames: seq<int>, work: int -> FrameResult, key: string): int {
    if frames == [] then 0 else BlockedTotal(frames[..|frames| - 1], work, key) + Get(work(frames[|frames| - 1]).blocked, key)
  }

  ghost function WakerTotal(frames: seq<int>, work: int -> FrameResult, key: string): int {
    if frames == [] then 0 else WakerTotal(frames[..|frames| - 1], work, key) + Get(work(frames[|frames| - 1]).wakers, key)
  }

  lemma MoveOver(out: map<string, int>, rest: map<string, int>, k: string)
    requires k in rest
    ensures var out', rest' := Add(out, k, rest[k]), rest - {k};
            && (forall x :: Get(out', x) + Get(rest', x) == Get(out, x) + Get(rest, x))
            && Total(out') + Total(rest') == Total(out) + Total(rest)
  {
    TotalAdd(out, k, rest[k]);
    TotalRemove(rest, k);
  }

  /** `for k, x in local.items(): total[k] += x`, in whatever order the items come. */
  method Accumulate(total: map<string, int>, local: map<string, int>) returns (out: map<string, int>)
    ensures IsSum(out, total, local)
    ensures Total(out) == Total(total) + Total(local)
  {
    out := total;
    var rest := local;
    while rest != map[]
      invariant forall k :: Get(out, k) == Get(total, k) + Get(local, k) - Get(rest, k)
      invariant Total(out) == Total(total) + Total(local) - Total(rest)
      decreases |rest|
    {
      ghost var some := SomeKey(rest);
      var k :| k in rest;
      MoveOver(out, rest, k);
      out, rest := Add(out, k, rest[k]), rest - {k};
    }
  }

  /** Sums over the first frames. */
  ghost predicate SumsTo(frames: seq<int>, work: int -> FrameResult, cpu: Summary, blocked: map<string, int>,
                         wakers: map<string, int>, occupiers: seq<string>) {
    && cpu == CpuTotal(frames, work) && occupiers == OccupiersOf(frames, work)
    && (forall k :: Get(blocked, k) == BlockedTotal(frames, work, k))
    && (forall k :: Get(wakers, k) == WakerTotal(frames, work, k))
  }

  ghost predicate IsSum(out: map<string, int>, total: map<string, int>, local: map<string, int>) {
    forall k :: Get(out, k) == Get(total, k) + Get(local, k)
  }

  lemma OneMoreFrame(frames: seq<int>, n: nat, work: int -> FrameResult, cpu: Summary, blocked: map<string, int>,
                     wakers: map<string, int>, occupiers: seq<string>, nextBlocked: map<string, int>, nextWakers: map<string, int>)
    requires n < |frames| && SumsTo(frames[..n], work, cpu, blocked, wakers, occupiers)
    requires IsSum(nextBlocked, blocked, work(frames[n]).blocked) && IsSum(nextWakers, wakers, work(frames[n]).wakers)
    ensures var r := work(frames[n]);
            SumsTo(frames[..n + 1], work, cpu.Plus(r.cpu), nextBlocked, nextWakers, occupiers + r.occupiers)
  {
    assert frames[..n + 1][..n] == frames[..n];
  }

  /** The body of the merge loop. */
  method MergeOne(ghost frames: seq<int>, ghost n: nat, ghost work: int -> FrameResult, cpu: CpuStateSummary, r: FrameResult,
                  blocked: map<string, int>, wakers: map<string, int>, occupiers: seq<string>)
    returns (nextBlocked: map<string, int>, nextWakers: map<string, int>, nextOccupiers: seq<string>)
    requires n < |frames| && r == work(frames[n])
    requires SumsTo(frames[..n], work, cpu.View(), blocked, wakers, occupiers)
    modifies cpu
    ensures SumsTo(frames[..n + 1], work, cpu.View(), nextBlocked, nextWakers, nextOccupiers)
  {
    var local := new CpuStateSummary(r.cpu);
    nextBlocked := Accumulate(blocked, r.blocked);
    nextWakers := Accumulate(wakers, r.wakers);
    nextOccupiers := occupiers + r.occupiers;
    OneMoreFrame(frames, n, work, cpu.View(), blocked, wakers, occupiers, nextBlocked, nextWakers);
    cpu.Update(local);
  }

  lemma EntryOf(frames: seq<int>, n: nat, work: int -> FrameResult, raises: Failures, results: map<int, Entry>)
    requires IsFinalTable(frames, work, raises, results) && n < |frames|
    ensures frames[n] in results
    ensures results[frames[n]] == if Succeeds(raises, frames[n]) then Analyzed(work(frames[n])) else Fallback
  {
    assert frames[n] in Elements(frames);
  }

  /** Merging succeeds exactly when no frame failed for good; the totals are then sums over the frames. */
  method MergeResults(frames: seq<int>, work: int -> FrameResult, raises: Failures, results: map<int, Entry>)
    returns (m: Merged)
    requires IsFinalTable(frames, work, raises, results)
    ensures m == KeyError <==> exists f :: f in frames && !Succeeds(raises, f)
    ensures m.Totals? ==> SumsTo(frames, work, m.cpu, m.blocked, m.wakers, m.occupiers)
  {
    var cpu := new CpuStateSummary(ZERO);
    var blocked: map<string, int>, wakers: map<string, int>, occupiers: seq<string> := map[], map[], [];
    for n := 0 to |frames|
      invariant fresh(cpu)
      invariant forall i :: 0 <= i < n ==> Succeeds(raises, frames[i])
      invariant SumsTo(frames[..n], work, cpu.View(), blocked, wakers, occupiers)
    {
      EntryOf(frames, n, work, raises, results);
      var entry := results[frames[n]];
      if entry.Fallback? {
        return KeyError;
      }
      blocked, wakers, occupiers := MergeOne(frames, n, work, cpu, entry.result, blocked, wakers, occupiers);
    }
    assert frames[..|frames|] == frames;
    m := Totals(cpu.View(), blocked, wakers, occupiers);
  }
}
