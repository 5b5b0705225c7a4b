/** Greedy matching of recorded clicks to input events: each event, in order, takes the nearest unused click
    less than ten seconds away. */
module ClickMatching {
  import opened Options
  import opened StableSort

  /** Times are wall-clock nanoseconds. */
  datatype Click = Click(appName: string, buttonName: string, wallTime: int, inputTime: Option<int>)

  datatype Event = Event(ts: int, clickOn: Option<string>, appName: Option<string>, wallTime: Option<int>)

  const WINDOW := 10_000_000_000

  function TimeOf(c: Click): int {
    if c.inputTime.Some? then c.inputTime.value else c.wallTime
  }

  function Times(clicks: seq<Click>): seq<int> {
    seq(|clicks|, i requires 0 <= i < |clicks| => TimeOf(clicks[i]))
  }

  function Distance(a: int, b: int): nat {
    if a < b then b - a else a - b
  }

  /** A matching says for each event which click it took. */
  type Matching = seq<Option<nat>>

  ghost function Used(m: Matching): set<nat> {
    set k | 0 <= k < |m| && m[k].Some? :: m[k].value
  }

  ghost function Matched(m: Matching): set<nat> {
    set k: nat | k < |m| && m[k].Some?
  }

  ghost predicate Available(wall: int, times: seq<int>, used: set<nat>, i: nat) {
    i < |times| && i !in used && Distance(wall, times[i]) < WINDOW
  }

  /** `r` is the nearest available click (the first of them on ties), or None when there is none. */
  ghost predicate IsNearest(wall: int, times: seq<int>, used: set<nat>, r: Option<nat>) {
    && (r.None? ==> forall i: nat :: !Available(wall, times, used, i))
    && (r.Some? ==>
          && Available(wall, times, used, r.value)
          && forall i: nat :: Available(wall, times, used, i) ==>
               if i < r.value then Distance(wall, times[i]) > Distance(wall, times[r.value])
               else Distance(wall, times[i]) >= Distance(wall, times[r.value]))
  }

  ghost predicate IsGreedy(walls: seq<int>, times: seq<int>, m: Matching) {
    |m| == |walls| && forall k :: 0 <= k < |m| ==> IsNearest(walls[k], times, Used(m[..k]), m[k])
  }

  // ---------------------------------------------------------------- the nested loops

  method NearestUnused(wall: int, times: seq<int>, used: set<nat>) returns (best: Option<nat>)
    ensures IsNearest(wall, times, used, best)
  {
    best := None;
    var i := 0;
    while i < |times|
      invariant 0 <= i <= |times|
      invariant best.None? ==> forall j: nat :: j < i ==> !Available(wall, times, used, j)
      invariant best.Some? ==>
                  && best.value < i && Available(wall, times, used, best.value)
                  && forall j: nat :: j < i && Available(wall, times, used, j) ==>
                       if j < best.value then Distance(wall, times[j]) > Distance(wall, times[best.value])
                       else Distance(wall, times[j]) >= Distance(wall, times[best.value])
    {
      if i !in used {
        var diff := Distance(wall, times[i]);
        if diff < WINDOW && (best.None? || diff < Distance(wall, times[best.value])) {
          best := Some(i);
        }
      }
      i := i + 1;
    }
  }

  method MatchGreedily(walls: seq<int>, times: seq<int>) returns (m: Matching)
    ensures IsGreedy(walls, times, m)
  {
    m := [];
    var used: set<nat> := {};
    for k := 0 to |walls|
      invariant |m| == k && used == Used(m)
      invariant IsGreedy(walls[..k], times, m)
    {
      var best := NearestUnused(walls[k], times, used);
      ghost var before := m;
      m := m + [best];
      assert forall j :: 0 <= j <= k ==> m[..j] == before[..j];
      assert before[..k] == before;
      assert forall j :: 0 <= j < k ==> m[j] == before[j];
      assert Used(m) == used + if best.Some? then {best.value} else {} by {
        assert best.Some? ==> m[k] == best;
      }
      if best.Some? {
        used := used + {best.value};
      }
    }
    assert walls[..|walls|] == walls;
  }

  // ---------------------------------------------------------------- what greedy means

  lemma UsedGrows(m: Matching, j: nat, k: nat)
    requires j <= k <= |m|
    ensures Used(m[..j]) <= Used(m[..k]) <= Used(m)
  {
    forall x | x in Used(m[..j]) ensures x in Used(m[..k]) {
      var i :| 0 <= i < j && m[..j][i].Some? && m[..j][i].value == x;
      assert m[..k][i] == Some(x);
    }
    forall x | x in Used(m[..k]) ensures x in Used(m) {
      var i :| 0 <= i < k && m[..k][i].Some? && m[..k][i].value == x;
      assert m[i] == Some(x);
    }
  }

  /** The rule leaves no freedom: there is one greedy matching. */
  lemma {:induction false} GreedyIsUnique(walls: seq<int>, times: seq<int>, m: Matching, m': Matching, n: nat)
    requires IsGreedy(walls, times, m) && IsGreedy(walls, times, m') && n <= |walls|
    ensures m[..n] == m'[..n]
  {
    if n > 0 {
      GreedyIsUnique(walls, times, m, m', n - 1);
      assert IsNearest(walls[n - 1], times, Used(m[..n - 1]), m[n - 1]);
      assert IsNearest(walls[n - 1], times, Used(m'[..n - 1]), m'[n - 1]);
      assert m[..n] == m[..n - 1] + [m[n - 1]] && m'[..n] == m'[..n - 1] + [m'[n - 1]];
    }
  }

  ghost predicate WithinWindow(walls: seq<int>, times: seq<int>, m: Matching)
    requires |m| == |walls|
  {
    forall k :: 0 <= k < |m| && m[k].Some? ==> m[k].value < |times| && Distance(walls[k], times[m[k].value]) < WINDOW
  }

  ghost predicate Injective(m: Matching) {
    forall j, k :: 0 <= j < k < |m| && m[j].Some? ==> m[j] != m[k]
  }

  /** No unmatched event and unused click within the window remain. */
  ghost predicate Maximal(walls: seq<int>, times: seq<int>, m: Matching)
    requires |m| == |walls|
  {
    forall k, i: nat :: 0 <= k < |m| && m[k].None? ==> !Available(walls[k], times, Used(m), i)
  }

  lemma GreedyIsMaximalMatching(walls: seq<int>, times: seq<int>, m: Matching)
    requires IsGreedy(walls, times, m)
    ensures WithinWindow(walls, times, m) && Injective(m) && Maximal(walls, times, m)
  {
    forall j, k | 0 <= j < k < |m| && m[j].Some? ensures m[j] != m[k] {
      assert m[..k][j] == m[j];
      assert m[j].value in Used(m[..k]);
      assert IsNearest(walls[k], times, Used(m[..k]), m[k]);
    }
    forall k, i: nat | 0 <= k < |m| && m[k].None? ensures !Available(walls[k], times, Used(m), i) {
      UsedGrows(m, k, k);
      assert IsNearest(walls[k], times, Used(m[..k]), m[k]);
      assert !Available(walls[k], times, Used(m[..k]), i);
    }
  }

  /** Any way of pairing events with clicks within the window. */
  ghost predicate ValidPairing(walls: seq<int>, times: seq<int>, p: map<nat, nat>) {
    && (forall k :: k in p ==> k < |walls| && p[k] < |times| && Distance(walls[k], times[p[k]]) < WINDOW)
    && (forall j, k :: j in p && k in p && j != k ==> p[j] != p[k])
  }

  lemma {:induction false} InjectionBound(a: set<nat>, p: map<nat, nat>, b: set<nat>)
    requires a <= p.Keys
    requires forall j, k :: j in a && k in a && j != k ==> p[j] != p[k]
    requires forall k :: k in a ==> p[k] in b
    ensures |a| <= |b|
    decreases a
  {
    if a != {} {
      var x :| x in a;
      InjectionBound(a - {x}, p, b - {p[x]});
    }
  }

  lemma OneMoreUsed(m: Matching)
    requires m != []
    ensures var front, last := m[..|m| - 1], m[|m| - 1];
            if last.Some? then Used(m) == Used(front) + {last.value} && Matched(m) == Matched(front) + {|m| - 1}
            else Used(m) == Used(front) && Matched(m) == Matched(front)
  {
    var front := m[..|m| - 1];
    assert forall k :: 0 <= k < |front| ==> front[k] == m[k];
    forall x | x in Used(front) ensures x in Used(m) {
      var i :| 0 <= i < |front| && front[i].Some? && front[i].value == x;
      assert m[i] == Some(x);
    }
  }

  lemma {:induction false} NoMoreUsedThanMatched(m: Matching)
    ensures |Used(m)| <= |Matched(m)|
  {
    if m == [] {
      assert Used(m) == {};
    } else {
      NoMoreUsedThanMatched(m[..|m| - 1]);
      OneMoreUsed(m);
    }
  }

  /** Greedy finds at least half as many pairs as any pairing whatever. */
  lemma GreedyIsHalfOptimal(walls: seq<int>, times: seq<int>, m: Matching, p: map<nat, nat>)
    requires IsGreedy(walls, times, m) && ValidPairing(walls, times, p)
    ensures |p| <= 2 * |Matched(m)|
  {
    GreedyIsMaximalMatching(walls, times, m);
    var b := set k | k in p.Keys && k !in Matched(m);
    forall k | k in b ensures p[k] in Used(m) {
      assert !Available(walls[k], times, Used(m), p[k]);
    }
    InjectionBound(b, p, Used(m));
    NoMoreUsedThanMatched(m);
    assert p.Keys <= Matched(m) + b;
    SubsetSize(p.Keys, Matched(m) + b);
    assert |Matched(m) + b| <= |Matched(m)| + |b|;
  }

  lemma {:induction false} SubsetSize(a: set<nat>, b: set<nat>)
    requires a <= b
    ensures |a| <= |b|
  {
    if a != {} {
      var x :| x in a;
      SubsetSize(a - {x}, b - {x});
    }
  }

  /** Half is attained: the first event takes the click that is the only one in reach of the second. */
  lemma GreedyIsNotMaximum(walls: seq<int>, times: seq<int>, m: Matching)
    requires walls == [0, 5_000_000_000] && times == [0, -8_000_000_000] && IsGreedy(walls, times, m)
    ensures |Matched(m)| == 1
    ensures ValidPairing(walls, times, map[0 := 1, 1 := 0])
  {
    assert Available(walls[0], times, Used(m[..0]), 0);
    assert m[0] == Some(0);
    assert 0 in Used(m[..1]) by { assert m[..1][0] == Some(0); }
    assert IsNearest(walls[1], times, Used(m[..1]), m[1]);
    assert m[1] == None;
    assert Matched(m) == {0};
  }

  // ---------------------------------------------------------------- when greedy is best

  predicate InReach(wall: int, time: int) {
    -10_000_000_000 < wall - time < 10_000_000_000
  }

  lemma InReachIs(wall: int, time: int)
    ensures InReach(wall, time) <==> Distance(wall, time) < WINDOW
  {
  }

  /** No event has two clicks in reach. */
  ghost predicate OneClickEach(walls: seq<int>, times: seq<int>) {
    forall k, i, j :: 0 <= k < |walls| && 0 <= i < j < |times| ==> !(InReach(walls[k], times[i]) && InReach(walls[k], times[j]))
  }

  /** No click has two events in reach. */
  ghost predicate OneEventEach(walls: seq<int>, times: seq<int>) {
    forall i, j, k :: 0 <= i < |times| && 0 <= j < k < |walls| ==> !(InReach(walls[j], times[i]) && InReach(walls[k], times[i]))
  }

  lemma PairedClicksAreUsed(walls: seq<int>, times: seq<int>, m: Matching, p: map<nat, nat>, k: nat)
    requires IsGreedy(walls, times, m) && ValidPairing(walls, times, p) && OneClickEach(walls, times) && k in p
    ensures p[k] in Used(m)
  {
    GreedyIsMaximalMatching(walls, times, m);
    if m[k].Some? {
      var i, j := p[k], m[k].value;
      InReachIs(walls[k], times[i]);
      InReachIs(walls[k], times[j]);
      assert i == j;
    } else {
      assert !Available(walls[k], times, Used(m), p[k]);
    }
  }

  /** A click in reach of an event without a click was taken by another event. */
  lemma TakenByAnother(walls: seq<int>, times: seq<int>, m: Matching, k: nat, i: nat) returns (j: nat)
    requires IsGreedy(walls, times, m) && k < |m| && m[k].None? && i < |times| && Distance(walls[k], times[i]) < WINDOW
    ensures j < |m| && m[j] == Some(i) && Distance(walls[j], times[i]) < WINDOW
  {
    GreedyIsMaximalMatching(walls, times, m);
    assert !Available(walls[k], times, Used(m), i);
    j :| j < |m| && m[j] == Some(i);
  }

  lemma SameEvent(walls: seq<int>, times: seq<int>, i: nat, j: nat, k: nat)
    requires OneEventEach(walls, times) && i < |times| && j < |walls| && k < |walls|
    requires InReach(walls[j], times[i]) && InReach(walls[k], times[i])
    ensures j == k
  {
  }

  lemma UncontestedIsMatched(walls: seq<int>, times: seq<int>, m: Matching, k: nat, i: nat)
    requires IsGreedy(walls, times, m) && OneEventEach(walls, times)
    requires k < |m| && i < |times| && Distance(walls[k], times[i]) < WINDOW
    ensures m[k].Some?
  {
    if m[k].None? {
      var j := TakenByAnother(walls, times, m, k, i);
      InReachIs(walls[j], times[i]);
      InReachIs(walls[k], times[i]);
      SameEvent(walls, times, i, j, k);
    }
  }

  lemma PairedEventsAreMatched(walls: seq<int>, times: seq<int>, m: Matching, p: map<nat, nat>, k: nat)
    requires IsGreedy(walls, times, m) && ValidPairing(walls, times, p) && OneEventEach(walls, times) && k in p
    ensures k in Matched(m)
  {
    UncontestedIsMatched(walls, times, m, k, p[k]);
  }

  /** If no event has two clicks in reach, or no click two events, no pairing has more pairs than greedy finds. */
  lemma GreedyIsMaximumIfUncontested(walls: seq<int>, times: seq<int>, m: Matching, p: map<nat, nat>)
    requires IsGreedy(walls, times, m) && ValidPairing(walls, times, p)
    requires OneClickEach(walls, times) || OneEventEach(walls, times)
    ensures |p| <= |Matched(m)|
  {
    assert |p| == |p.Keys|;
    if OneClickEach(walls, times) {
      forall k | k in p.Keys ensures p[k] in Used(m) {
        PairedClicksAreUsed(walls, times, m, p, k);
      }
      InjectionBound(p.Keys, p, Used(m));
      NoMoreUsedThanMatched(m);
    } else {
      forall k | k in p.Keys ensures k in Matched(m) {
        PairedEventsAreMatched(walls, times, m, p, k);
      }
      SubsetSize(p.Keys, Matched(m));
    }
  }

  // ---------------------------------------------------------------- updating the profile

  /** Wall time of each event when the first event happens at the reference time. */
  function Walls(events: seq<Event>, reference: int): seq<int>
    requires events != []
  {
    seq(|events|, i requires 0 <= i < |events| => reference + (events[i].ts - events[0].ts))
  }

  function Labelled(e: Event, c: Click): Event {
    Event(e.ts, Some("[" + c.appName + "] " + c.buttonName), Some(c.appName), Some(TimeOf(c)))
  }

  /** The matched events, labelled with the click they took, in event order. */
  function LabelledEvents(events: seq<Event>, clicks: seq<Click>, m: Matching): seq<Event>
    requires |events| == |m|
    requires forall k :: 0 <= k < |m| && m[k].Some? ==> m[k].value < |clicks|
  {
    if events == [] then []
    else
      var n := |events| - 1;
      LabelledEvents(events[..n], clicks, m[..n]) + if m[n].Some? then [Labelled(events[n], clicks[m[n].value])] else []
  }

  function TsOf(e: Event): int { e.ts }

  ghost predicate SortedByTs(events: seq<Event>) {
    forall i, j :: 0 <= i < j < |events| ==> events[i].ts <= events[j].ts
  }

  // ---------------------------------------------------------------- the same in the fields of events and clicks

  /** `reference` is the input time of the first click that has one. */
  ghost predicate IsReference(clicks: seq<Click>, reference: int) {
    exists i :: 0 <= i < |clicks| && clicks[i].inputTime == Some(reference)
      && forall j :: 0 <= j < i ==> clicks[j].inputTime == None
  }

  method FindReference(clicks: seq<Click>) returns (reference: Option<int>)
    ensures reference.Some? ==> IsReference(clicks, reference.value)
    ensures reference.None? ==> forall c :: c in clicks ==> c.inputTime == None
  {
    for i := 0 to |clicks|
      invariant forall j :: 0 <= j < i ==> clicks[j].inputTime == None
    {
      if clicks[i].inputTime.Some? {
        reference := clicks[i].inputTime;
        return;
      }
    }
    reference := None;
  }

  /** A click is dated by its input time, or by its wall time if it has none. */
  ghost predicate IsDated(c: Click, t: int) {
    c.inputTime == Some(t) || (c.inputTime == None && c.wallTime == t)
  }

  /** Event `k` and click `i` are `d` apart when the first event is dated by the reference. */
  ghost predicate Apart(events: seq<Event>, clicks: seq<Click>, reference: int, k: nat, i: nat, d: int) {
    && k < |events| && i < |clicks| && d >= 0
    && exists t :: IsDated(clicks[i], t)
         && (t - reference == (events[k].ts - events[0].ts) + d || t - reference == (events[k].ts - events[0].ts) - d)
  }

  /** Click `i` is not taken by an event before `k`. */
  ghost predicate IsFree(m: Matching, k: nat, i: nat) {
    forall j :: 0 <= j < k && j < |m| ==> m[j] != Some(i)
  }

  /** Event `k` takes the click that is free, less than ten seconds apart and nearest, the first such on ties; it takes
      none only if no free click is less than ten seconds apart. */
  ghost predicate TakesNearest(events: seq<Event>, clicks: seq<Click>, reference: int, m: Matching, k: nat)
    requires k < |m|
  {
    match m[k]
    case None => forall i: nat, d :: IsFree(m, k, i) && Apart(events, clicks, reference, k, i, d) ==> d >= 10_000_000_000
    case Some(i) =>
      && IsFree(m, k, i) && i < |clicks|
      && (forall d :: Apart(events, clicks, reference, k, i, d) ==> d < 10_000_000_000)
      && (forall d, j: nat, e ::
            Apart(events, clicks, reference, k, i, d) && IsFree(m, k, j) && Apart(events, clicks, reference, k, j, e) ==>
              if j < i then d < e else d <= e)
  }

  lemma ApartIsDistance(events: seq<Event>, clicks: seq<Click>, reference: int, k: nat, i: nat, d: int)
    requires k < |events| && i < |clicks|
    ensures Apart(events, clicks, reference, k, i, d)
       <==> d == Distance(Walls(events, reference)[k], Times(clicks)[i])
  {
    var t := Times(clicks)[i];
    assert IsDated(clicks[i], t) && forall u :: IsDated(clicks[i], u) ==> u == t;
  }

  lemma FreeIsUnused(m: Matching, k: nat, i: nat)
    requires k < |m|
    ensures IsFree(m, k, i) <==> i !in Used(m[..k])
  {
    if i in Used(m[..k]) {
      var j :| 0 <= j < k && m[..k][j].Some? && m[..k][j].value == i;
      assert m[j] == Some(i);
    }
    if j :| 0 <= j < k && m[j] == Some(i) {
      assert m[..k][j] == Some(i);
    }
  }

  lemma FreeAndApart(events: seq<Event>, clicks: seq<Click>, reference: int, m: Matching, k: nat)
    requires k < |events| == |m|
    ensures forall i: nat :: IsFree(m, k, i) <==> i !in Used(m[..k])
    ensures var wall, times := Walls(events, reference)[k], Times(clicks);
            forall i: nat, d :: Apart(events, clicks, reference, k, i, d) <==> i < |clicks| && d == Distance(wall, times[i])
  {
    forall i: nat ensures IsFree(m, k, i) <==> i !in Used(m[..k]) {
      FreeIsUnused(m, k, i);
    }
    forall i: nat, d | i < |clicks|
      ensures Apart(events, clicks, reference, k, i, d)
         <==> d == Distance(Walls(events, reference)[k], Times(clicks)[i])
    {
      ApartIsDistance(events, clicks, reference, k, i, d);
    }
  }

  lemma NearestIsTaken(events: seq<Event>, clicks: seq<Click>, reference: int, m: Matching, k: nat)
    requires k < |events| == |m|
    requires IsNearest(Walls(events, reference)[k], Times(clicks), Used(m[..k]), m[k])
    ensures TakesNearest(events, clicks, reference, m, k)
  {
    var wall, times, used := Walls(events, reference)[k], Times(clicks), Used(m[..k]);
    FreeAndApart(events, clicks, reference, m, k);
    forall j: nat, e | IsFree(m, k, j) && Apart(events, clicks, reference, k, j, e)
      ensures e < 10_000_000_000 ==> Available(wall, times, used, j) && e == Distance(wall, times[j])
    {
    }
  }

  lemma TakenIsNearest(events: seq<Event>, clicks: seq<Click>, reference: int, m: Matching, k: nat)
    requires k < |events| == |m| && TakesNearest(events, clicks, reference, m, k)
    ensures IsNearest(Walls(events, reference)[k], Times(clicks), Used(m[..k]), m[k])
  {
    var wall, times, used := Walls(events, reference)[k], Times(clicks), Used(m[..k]);
    FreeAndApart(events, clicks, reference, m, k);
    forall j: nat | Available(wall, times, used, j)
      ensures IsFree(m, k, j) && Apart(events, clicks, reference, k, j, Distance(wall, times[j]))
    {
    }
    if m[k].Some? {
      assert Apart(events, clicks, reference, k, m[k].value, Distance(wall, times[m[k].value]));
    }
  }

  /** The greedy matching in the fields of events and clicks. */
  lemma GreedyInFields(events: seq<Event>, clicks: seq<Click>, reference: int, m: Matching)
    requires events != [] && |m| == |events|
    ensures IsGreedy(Walls(events, reference), Times(clicks), m)
       <==> forall k :: 0 <= k < |m| ==> TakesNearest(events, clicks, reference, m, k)
  {
    forall k | 0 <= k < |m|
      ensures IsNearest(Walls(events, reference)[k], Times(clicks), Used(m[..k]), m[k])
         <==> TakesNearest(events, clicks, reference, m, k)
    {
      if TakesNearest(events, clicks, reference, m, k) {
        TakenIsNearest(events, clicks, reference, m, k);
      } else if IsNearest(Walls(events, reference)[k], Times(clicks), Used(m[..k]), m[k]) {
        NearestIsTaken(events, clicks, reference, m, k);
      }
    }
  }

  ghost predicate Increasing(at: seq<nat>) {
    forall i, j :: 0 <= i < j < |at| ==> at[i] < at[j]
  }

  /** `e` is event `k` labelled with the click it took. */
  ghost predicate IsLabelled(events: seq<Event>, clicks: seq<Click>, m: Matching, k: nat, e: Event) {
    && k < |events| == |m| && m[k].Some? && m[k].value < |clicks|
    && var c := clicks[m[k].value];
       && e.ts == events[k].ts
       && e.clickOn == Some("[" + c.appName + "] " + c.buttonName)
       && e.appName == Some(c.appName)
       && e.wallTime.Some? && IsDated(c, e.wallTime.value)
  }

  /** One labelled event for every matched one, in their order. */
  lemma {:induction false} LabelledAt(events: seq<Event>, clicks: seq<Click>, m: Matching) returns (at: seq<nat>)
    requires |events| == |m| && forall k :: 0 <= k < |m| && m[k].Some? ==> m[k].value < |clicks|
    ensures Increasing(at) && forall k: nat :: k in at <==> k < |m| && m[k] != None
    ensures |LabelledEvents(events, clicks, m)| == |at|
    ensures forall j :: 0 <= j < |at| ==> IsLabelled(events, clicks, m, at[j], LabelledEvents(events, clicks, m)[j])
  {
    at := [];
    if events != [] {
      var n := |events| - 1;
      at := LabelledAt(events[..n], clicks, m[..n]);
      forall j | 0 <= j < |at|
        ensures IsLabelled(events, clicks, m, at[j], LabelledEvents(events[..n], clicks, m[..n])[j])
      {
        assert at[j] in at;
      }
      assert forall k: nat :: k < n ==> m[..n][k] == m[k];
      if m[n].Some? {
        at := at + [n];
      }
    }
  }

  /** The first event of every label (drop_duplicates with keep='first'). */
  function FirstOfEach(events: seq<Event>): seq<Event> {
    if events == [] then []
    else
      var front, last := events[..|events| - 1], events[|events| - 1];
      FirstOfEach(front) + if exists e :: e in front && e.clickOn == last.clickOn then [] else [last]
  }

  /** No earlier event has the label of event `i`. */
  ghost predicate IsNewLabel(events: seq<Event>, i: nat) {
    i < |events| && forall j :: 0 <= j < i ==> events[j].clickOn != events[i].clickOn
  }

  /** Exactly the events with a new label are kept, in their order. */
  lemma {:induction false} FirstOfEachKeepsNew(events: seq<Event>) returns (at: seq<nat>)
    ensures Increasing(at) && forall i: nat :: i in at <==> IsNewLabel(events, i)
    ensures |FirstOfEach(events)| == |at|
    ensures forall k :: 0 <= k < |at| ==> at[k] < |events| && FirstOfEach(events)[k] == events[at[k]]
  {
    at := [];
    if events != [] {
      var n := |events| - 1;
      var front := events[..n];
      at := FirstOfEachKeepsNew(front);
      assert forall i: nat :: IsNewLabel(events, i) <==> IsNewLabel(front, i) || (i == n && IsNewLabel(events, n));
      assert (exists e :: e in front && e.clickOn == events[n].clickOn) <==>
             exists j :: 0 <= j < n && events[j].clickOn == events[n].clickOn;
      if IsNewLabel(events, n) {
        at := at + [n];
      }
    }
  }

  /** `f` holds an event with the label of `e`, no later than `e`. */
  ghost predicate Represented(f: seq<Event>, e: Event) {
    exists k :: 0 <= k < |f| && f[k].clickOn == e.clickOn && f[k].ts <= e.ts
  }

  ghost predicate LabelsDiffer(f: seq<Event>) {
    forall i, j :: 0 <= i < j < |f| ==> f[i].clickOn != f[j].clickOn
  }

  lemma {:induction false} FirstOfEachSubset(events: seq<Event>)
    ensures forall e :: e in FirstOfEach(events) ==> e in events
    ensures LabelsDiffer(FirstOfEach(events))
  {
    if events != [] {
      var front := events[..|events| - 1];
      FirstOfEachSubset(front);
      var g, f := FirstOfEach(front), FirstOfEach(events);
      forall i, j | 0 <= i < j < |f| ensures f[i].clickOn != f[j].clickOn {
        if j == |g| {
          assert f[i] == g[i] && g[i] in g;
        }
      }
    }
  }

  /** In a list sorted by time, the event kept for a label is its earliest one, and each label is kept once. */
  lemma {:induction false} FirstOfEachIsEarliest(events: seq<Event>, e: Event)
    requires SortedByTs(events) && e in events
    ensures Represented(FirstOfEach(events), e) && LabelsDiffer(FirstOfEach(events))
  {
    FirstOfEachSubset(events);
    var front, last := events[..|events| - 1], events[|events| - 1];
    var g, f := FirstOfEach(front), FirstOfEach(events);
    if e in front {
      FirstOfEachIsEarliest(front, e);
      var k :| 0 <= k < |g| && g[k].clickOn == e.clickOn && g[k].ts <= e.ts;
      assert f[k] == g[k];
    } else if x :| x in front && x.clickOn == last.clickOn {
      FirstOfEachIsEarliest(front, x);
      var k :| 0 <= k < |g| && g[k].clickOn == x.clickOn && g[k].ts <= x.ts;
      assert f[k] == g[k];
    } else {
      assert f[|g|] == last;
    }
  }

  ghost predicate AllTakeNearest(events: seq<Event>, clicks: seq<Click>, reference: int, m: Matching) {
    |m| == |events| && forall k :: 0 <= k < |m| ==> TakesNearest(events, clicks, reference, m, k)
  }

  /** `matched` are the matched events in their order, each labelled with its click. */
  ghost predicate AreLabelled(events: seq<Event>, clicks: seq<Click>, m: Matching, matched: seq<Event>) {
    exists at :: Increasing(at) && LabelledEach(events, clicks, m, at, matched)
  }

  ghost predicate LabelledEach(events: seq<Event>, clicks: seq<Click>, m: Matching, at: seq<nat>, matched: seq<Event>) {
    && |at| == |matched| && (forall k: nat :: k in at <==> k < |m| && m[k] != None)
    && forall j :: 0 <= j < |at| ==> IsLabelled(events, clicks, m, at[j], matched[j])
  }

  /** `first` are the events with a new label, in their order. */
  ghost predicate AreFirst(events: seq<Event>, first: seq<Event>) {
    exists at ::
      && Increasing(at) && |at| == |first| && (forall i: nat :: i in at <==> IsNewLabel(events, i))
      && forall k :: 0 <= k < |at| ==> at[k] < |events| && first[k] == events[at[k]]
  }

  lemma LabelledIs(events: seq<Event>, clicks: seq<Click>, m: Matching)
    requires |events| == |m| && forall k :: 0 <= k < |m| && m[k].Some? ==> m[k].value < |clicks|
    ensures AreLabelled(events, clicks, m, LabelledEvents(events, clicks, m))
  {
    var at := LabelledAt(events, clicks, m);
    assert LabelledEach(events, clicks, m, at, LabelledEvents(events, clicks, m));
  }

  lemma FirstOfEachIs(events: seq<Event>)
    ensures AreFirst(events, FirstOfEach(events))
  {
    var at := FirstOfEachKeepsNew(events);
  }

  /** The labelled events replace the others, sorted by time; if there are none only the first events are emptied. */
  ghost predicate Updated(before: seq<Event>, clicks: seq<Click>, m: Matching, after: seq<Event>, first: Option<seq<Event>>) {
    exists matched :: AreLabelled(before, clicks, m, matched) && Replaced(before, matched, after, first)
  }

  ghost predicate Replaced(before: seq<Event>, matched: seq<Event>, after: seq<Event>, first: Option<seq<Event>>) {
    if matched == [] then after == before && first == Some([])
    else SortedByTs(after) && multiset(after) == multiset(matched) && first.Some? && AreFirst(after, first.value)
  }

  /** Every event afterwards is an event from before, dated by a click less than ten seconds apart and labelled with it. */
  lemma EventIsDatedByItsClick(before: seq<Event>, clicks: seq<Click>, reference: int, m: Matching,
                               after: seq<Event>, first: Option<seq<Event>>, e: Event)
    returns (k: nat, i: nat, t: int)
    requires AllTakeNearest(before, clicks, reference, m) && Updated(before, clicks, m, after, first)
    requires e in after && exists j :: 0 <= j < |m| && m[j] != None
    ensures k < |before| && i < |clicks| && m[k] == Some(i)
    ensures e == Event(before[k].ts, Some("[" + clicks[i].appName + "] " + clicks[i].buttonName),
                       Some(clicks[i].appName), Some(t))
    ensures clicks[i].inputTime == Some(t) || (clicks[i].inputTime == None && clicks[i].wallTime == t)
    ensures -10_000_000_000 < (t - reference) - (before[k].ts - before[0].ts) < 10_000_000_000
  {
    k := MatchedFrom(before, clicks, m, after, first, e);
    i, t := m[k].value, e.wallTime.value;
    var d := (t - reference) - (before[k].ts - before[0].ts);
    assert TakesNearest(before, clicks, reference, m, k);
    assert IsDated(clicks[i], t);
    assert Apart(before, clicks, reference, k, i, if d < 0 then -d else d);
  }

  lemma MatchedFrom(before: seq<Event>, clicks: seq<Click>, m: Matching,
                    after: seq<Event>, first: Option<seq<Event>>, e: Event) returns (k: nat)
    requires |m| == |before| && Updated(before, clicks, m, after, first)
    requires e in after && exists j :: 0 <= j < |m| && m[j] != None
    ensures k < |m| && m[k] != None && IsLabelled(before, clicks, m, k, e)
  {
    var matched :| AreLabelled(before, clicks, m, matched) && Replaced(before, matched, after, first);
    var at :| Increasing(at) && LabelledEach(before, clicks, m, at, matched);
    k := LabelledFrom(before, clicks, m, at, matched, after, first, e);
  }

  lemma LabelledFrom(before: seq<Event>, clicks: seq<Click>, m: Matching, at: seq<nat>, matched: seq<Event>,
                     after: seq<Event>, first: Option<seq<Event>>, e: Event) returns (k: nat)
    requires LabelledEach(before, clicks, m, at, matched) && Replaced(before, matched, after, first)
    requires e in after && exists j :: 0 <= j < |m| && m[j] != None
    ensures k < |m| && m[k] != None && IsLabelled(before, clicks, m, k, e)
  {
    var j: nat :| j < |m| && m[j] != None;
    assert j in at;
    assert e in multiset(after) && e in matched;
    var l :| 0 <= l < |matched| && matched[l] == e;
    k := at[l];
    assert k in at;
  }

  /** No event without a click and click without an event are less than ten seconds apart. */
  lemma LeftOverIsFar(events: seq<Event>, clicks: seq<Click>, reference: int, m: Matching, k: nat, i: nat, t: int)
    requires AllTakeNearest(events, clicks, reference, m)
    requires k < |m| && m[k] == None && i < |clicks| && forall j :: 0 <= j < |m| ==> m[j] != Some(i)
    requires clicks[i].inputTime == Some(t) || (clicks[i].inputTime == None && clicks[i].wallTime == t)
    ensures !(-10_000_000_000 < (t - reference) - (events[k].ts - events[0].ts) < 10_000_000_000)
  {
    assert TakesNearest(events, clicks, reference, m, k);
    var d := (t - reference) - (events[k].ts - events[0].ts);
    assert IsDated(clicks[i], t);
    assert Apart(events, clicks, reference, k, i, if d < 0 then -d else d);
  }

  method MatchEvents(events: seq<Event>, clicks: seq<Click>, reference: int) returns (m: Matching)
    requires events != []
    ensures AllTakeNearest(events, clicks, reference, m)
    ensures forall k :: 0 <= k < |m| && m[k].Some? ==> m[k].value < |clicks|
  {
    var walls := Walls(events, reference);
    m := MatchGreedily(walls, Times(clicks));
    GreedyIsMaximalMatching(walls, Times(clicks), m);
    GreedyInFields(events, clicks, reference, m);
  }

  lemma ProfileIsUpdated(before: seq<Event>, clicks: seq<Click>, m: Matching, matched: seq<Event>,
                         after: seq<Event>, first: Option<seq<Event>>)
    requires |before| == |m| && forall k :: 0 <= k < |m| && m[k].Some? ==> m[k].value < |clicks|
    requires matched == LabelledEvents(before, clicks, m)
    requires if matched == [] then after == before && first == Some([])
             else SortedByTs(after) && multiset(after) == multiset(matched) && first == Some(FirstOfEach(after))
    ensures Updated(before, clicks, m, after, first)
  {
    LabelledIs(before, clicks, m);
    FirstOfEachIs(after);
  }

  class Profile {
    var events: seq<Event>
    var firstEvents: Option<seq<Event>>

    constructor (events: seq<Event>)
      ensures this.events == events && firstEvents == None
    {
      this.events, firstEvents := events, None;
    }

    /** Replaces the events by the matched ones, labelled and sorted; an empty input, or no click with an input
        time, leaves the profile alone, and an empty result only empties `firstEvents`. */
    method MatchClicksToInputEvents(clicks: seq<Click>)
      modifies this
      ensures old(events) == [] || (forall c :: c in clicks ==> c.inputTime == None) ==>
                events == old(events) && firstEvents == old(firstEvents)
      ensures old(events) != [] && (exists c :: c in clicks && c.inputTime != None) ==>
                exists reference, m ::
                  && IsReference(clicks, reference)
                  && AllTakeNearest(old(events), clicks, reference, m)
                  && Updated(old(events), clicks, m, events, firstEvents)
    {
      if events == [] {
        return;
      }
      var reference := FindReference(clicks);
      if reference.None? {
        return;
      }
      var m := MatchEvents(events, clicks, reference.value);
      ghost var before := events;
      var matched := LabelledEvents(events, clicks, m);
      if matched != [] {
        events := Sort(matched, TsOf);
        firstEvents := Some(FirstOfEach(events));
      } else {
        firstEvents := Some([]);
      }
      ProfileIsUpdated(before, clicks, m, matched, events, firstEvents);
    }
  }
}
