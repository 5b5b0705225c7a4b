/** Streams of trace slices and the searches a frame sweep performs on them. */
module FrameStreams {
  import opened Options

  /** One row of a slice query; `tag` is what the sweep reads from the slice's name. */
  datatype Slice<+T> = Slice(ts: int, dur: int, tag: T) {
    function End(): int { ts + dur }
  }

  /** Index of the first slice at or after `from` that starts at `t` or later; |s| when there is none. */
  function FirstAt<T>(s: seq<Slice<T>>, t: int, from: nat := 0): (k: nat)
    requires from <= |s|
    ensures from <= k <= |s|
    decreases |s| - from
  {
    if from == |s| || s[from].ts >= t then from else FirstAt(s, t, from + 1)
  }

  lemma {:induction false} FirstAtMeans<T>(s: seq<Slice<T>>, t: int, from: nat := 0)
    requires from <= |s|
    ensures var k := FirstAt(s, t, from);
            (forall j :: from <= j < k ==> s[j].ts < t) && (k < |s| ==> s[k].ts >= t)
    decreases |s| - from
  {
    if from < |s| && s[from].ts < t {
      FirstAtMeans(s, t, from + 1);
    }
  }

  /** The loop `while x is not None and x.ts < t: x = get_next_or_None(itr)`. The current item is s[pos],
      or None when pos == |s|; the program's move counter grows by next - pos. */
  method SkipBefore<T>(s: seq<Slice<T>>, pos: nat, t: int) returns (next: nat)
    requires pos <= |s|
    ensures next == FirstAt(s, t, pos)
  {
    next := pos;
    while next < |s| && s[next].ts < t
      invariant pos <= next <= |s|
      invariant FirstAt(s, t, next) == FirstAt(s, t, pos)
    {
      next := next + 1;
    }
  }

  /** The highest bound a cursor has been advanced to so far; None for a cursor that never moved. */
  type Floor = Option<int>

  function Raise(f: Floor, t: int): Floor {
    if f.Some? && f.value > t then f else Some(t)
  }

  predicate AtMost(f: Floor, t: int) {
    f.Some? ==> f.value <= t
  }

  function Position<T>(s: seq<Slice<T>>, f: Floor): (k: nat)
    ensures k <= |s|
  {
    if f.None? then 0 else FirstAt(s, f.value)
  }

  function At<T>(s: seq<Slice<T>>, f: Floor): Option<Slice<T>> {
    var k := Position(s, f);
    if k < |s| then Some(s[k]) else None
  }

  /** A cursor remembers of its past only the highest bound it was advanced to. */
  lemma AdvanceRaisesFloor<T>(s: seq<Slice<T>>, f: Floor, t: int)
    ensures FirstAt(s, t, Position(s, f)) == Position(s, Raise(f, t))
  {
    FirstAtMeans(s, t, Position(s, f));
    if f.Some? {
      FirstAtMeans(s, f.value);
      FirstAtMeans(s, Raise(f, t).value);
      var b, c := FirstAt(s, t, FirstAt(s, f.value)), Position(s, Raise(f, t));
      assert b < c ==> s[b].ts < Raise(f, t).value;
    }
  }

  lemma PositionMonotone<T>(s: seq<Slice<T>>, f: Floor, t: int)
    ensures Position(s, f) <= Position(s, Raise(f, t))
  {
    AdvanceRaisesFloor(s, f, t);
  }

  /** `x` is the first slice of `s` starting at `t` or later. */
  ghost predicate IsFirst<T>(s: seq<Slice<T>>, t: int, x: Slice<T>) {
    exists k :: 0 <= k < |s| && s[k] == x && x.ts >= t && forall j :: 0 <= j < k ==> s[j].ts < t
  }

  lemma AtIsFirst<T>(s: seq<Slice<T>>, t: int, x: Slice<T>)
    ensures At(s, Some(t)) == Some(x) <==> IsFirst(s, t, x)
  {
    var p := FirstAt(s, t);
    FirstAtMeans(s, t);
    if IsFirst(s, t, x) {
      var k :| 0 <= k < |s| && s[k] == x && x.ts >= t && forall j :: 0 <= j < k ==> s[j].ts < t;
      assert p == k;
    }
  }

  /** The slice with the biggest start among those that end before `t`, the first such on ties. */
  function BiggestBefore<T>(s: seq<Slice<T>>, t: int): (r: Option<Slice<T>>)
    ensures r.Some? ==> r.value.End() < t
  {
    if s == [] then None
    else
      var before := BiggestBefore(s[..|s| - 1], t);
      var x := s[|s| - 1];
      if x.End() < t && (before.None? || x.ts > before.value.ts) then Some(x) else before
  }

  lemma {:induction false} BiggestBeforeMeans<T>(s: seq<Slice<T>>, t: int)
    ensures var r := BiggestBefore(s, t);
            && (r.Some? ==> r.value in s)
            && (forall x :: x in s && x.End() < t ==> r.Some? && x.ts <= r.value.ts)
  {
    if s != [] {
      BiggestBeforeMeans(s[..|s| - 1], t);
      assert s == s[..|s| - 1] + [s[|s| - 1]];
    }
  }

  ghost predicate IsBiggestAt<T>(s: seq<Slice<T>>, t: int, k: nat) {
    && k < |s| && s[k].ts + s[k].dur < t
    && (forall j :: 0 <= j < |s| && s[j].ts + s[j].dur < t ==> s[j].ts <= s[k].ts)
    && (forall j :: 0 <= j < k && s[j].ts + s[j].dur < t ==> s[j].ts < s[k].ts)
  }

  /** `x` ends before `t`, starts no earlier than any other such slice, and is the first to do so. */
  ghost predicate IsBiggestBefore<T>(s: seq<Slice<T>>, t: int, x: Slice<T>) {
    exists k: nat :: IsBiggestAt(s, t, k) && s[k] == x
  }

  lemma {:induction false} BiggestBeforeAt<T>(s: seq<Slice<T>>, t: int) returns (k: nat)
    requires BiggestBefore(s, t).Some?
    ensures IsBiggestAt(s, t, k) && s[k] == BiggestBefore(s, t).value
  {
    var front, last := s[..|s| - 1], s[|s| - 1];
    var before := BiggestBefore(front, t);
    BiggestBeforeMeans(front, t);
    if before.Some? {
      k := BiggestBeforeAt(front, t);
      assert forall j :: 0 <= j < |front| ==> front[j] == s[j];
    }
    if last.End() < t && (before.None? || last.ts > before.value.ts) {
      k := |s| - 1;
      forall j | 0 <= j < k && s[j].End() < t ensures s[j].ts < last.ts {
        assert s[j] == front[j] && front[j] in front;
      }
    }
  }

  lemma BiggestBeforeIs<T>(s: seq<Slice<T>>, t: int, x: Slice<T>)
    ensures BiggestBefore(s, t) == Some(x) <==> IsBiggestBefore(s, t, x)
  {
    if BiggestBefore(s, t).Some? {
      var l := BiggestBeforeAt(s, t);
      if IsBiggestBefore(s, t, x) {
        var k: nat :| IsBiggestAt(s, t, k) && s[k] == x;
        assert s[k].ts <= s[l].ts && s[l].ts <= s[k].ts;
      }
    } else {
      BiggestBeforeMeans(s, t);
      assert forall k: nat :: k < |s| ==> s[k] in s;
    }
  }
}
