/** The bounded window of message ids already seen: a queue that drops its oldest id, beside the set of its ids and a
    shorter ring of the ids remembered last. */
module SeenIds {

  datatype Limits = Limits(seen: nat, recent: nat, saved: nat) {
    predicate Valid() { seen >= 1 }
  }

  datatype Seen = Seen(ids: set<string>, order: seq<string>, recent: seq<string>)

  /** What a queue of length `n` keeps. */
  function Last(n: nat, s: seq<string>): seq<string> {
    if |s| > n then s[|s| - n..] else s
  }

  function Remember(lim: Limits, s: Seen, id: string): Seen
    requires lim.Valid()
  {
    if id == "" || id in s.ids then s
    else Seen((if |s.order| == lim.seen then s.ids - {s.order[0]} else s.ids) + {id},
              Last(lim.seen, s.order + [id]), Last(lim.recent, s.recent + [id]))
  }

  predicate IsNew(s: Seen, id: string) {
    id != "" && id !in s.ids
  }

  function RememberAll(lim: Limits, s: Seen, ids: seq<string>): Seen
    requires lim.Valid()
  {
    if ids == [] then s else Remember(lim, RememberAll(lim, s, ids[..|ids| - 1]), ids[|ids| - 1])
  }

  /** The ids that were not in the window when their turn came. */
  function News(lim: Limits, s: Seen, ids: seq<string>): (r: seq<string>)
    requires lim.Valid()
    ensures |r| <= |ids|
  {
    if ids == [] then []
    else
      var front, id := ids[..|ids| - 1], ids[|ids| - 1];
      News(lim, s, front) + if IsNew(RememberAll(lim, s, front), id) then [id] else []
  }

  ghost predicate NoneNew(s: Seen, ids: seq<string>) {
    forall k :: 0 <= k < |ids| ==> !IsNew(s, ids[k])
  }

  /** Nothing is new exactly if nothing was new to begin with, and then nothing changes. */
  lemma {:induction false} NothingNewIff(lim: Limits, s: Seen, ids: seq<string>)
    requires lim.Valid()
    ensures News(lim, s, ids) == [] <==> NoneNew(s, ids)
    ensures NoneNew(s, ids) ==> RememberAll(lim, s, ids) == s
  {
    if ids != [] {
      var front := ids[..|ids| - 1];
      NothingNewIff(lim, s, front);
      assert forall k :: 0 <= k < |front| ==> front[k] == ids[k];
    }
  }

  lemma LastRememberedIsSeen(lim: Limits, s: Seen, id: string)
    requires lim.Valid() && id != ""
    ensures id in Remember(lim, s, id).ids
  {
  }

  ghost predicate Distinct(s: seq<string>) {
    forall i, j :: 0 <= i < j < |s| ==> s[i] != s[j]
  }

  /** Set and queue agree, without repetition and within the limit. */
  ghost predicate Window(lim: Limits, s: Seen) {
    && Distinct(s.order) && |s.order| <= lim.seen && "" !in s.order
    && (forall id :: id in s.ids <==> id in s.order)
    && |s.recent| <= lim.recent
  }

  /** A queue without repetition stays so when a new id comes in, and loses only its oldest when it is full. */
  lemma PushKeepsDistinct(n: nat, order: seq<string>, id: string)
    requires n >= 1 && Distinct(order) && |order| <= n && id !in order
    ensures var order' := Last(n, order + [id]);
            && Distinct(order') && |order'| <= n
            && order' == (if |order| == n then order[1..] else order) + [id]
  {
  }

  lemma FirstIsGone(order: seq<string>, x: string)
    requires order != [] && Distinct(order)
    ensures x in order[1..] <==> x in order && x != order[0]
  {
    assert order == [order[0]] + order[1..];
  }

  lemma RememberKeeps(lim: Limits, s: Seen, id: string)
    requires lim.Valid() && Window(lim, s)
    ensures Window(lim, Remember(lim, s, id))
    ensures Remember(lim, s, id).order == Last(lim.seen, s.order + if IsNew(s, id) then [id] else [])
  {
    if !IsNew(s, id) {
      assert s.order + [] == s.order;
      return;
    }
    var s' := Remember(lim, s, id);
    PushKeepsDistinct(lim.seen, s.order, id);
    forall x ensures x in s'.ids <==> x in s'.order {
      if |s.order| == lim.seen {
        FirstIsGone(s.order, x);
      }
    }
    assert "" in s'.order <==> "" in s'.ids;
  }

  /** The window after `id` was remembered: unchanged if there is no id or it is known; otherwise the id comes last in
      queue and ring, the oldest one leaves where there is no room, and the set holds what the queue holds. */
  ghost predicate Pushed(lim: Limits, s: Seen, id: string, s': Seen)
    requires lim.Valid()
  {
    if id == "" || id in s.ids then s' == s
    else
      && s'.order == (if |s.order| < lim.seen then s.order else s.order[1..]) + [id]
      && (forall x :: x in s'.ids <==> x in s'.order)
      && s'.recent == (if lim.recent == 0 then []
                       else (if |s.recent| < lim.recent then s.recent else s.recent[1..]) + [id])
  }

  lemma RememberPushes(lim: Limits, s: Seen, id: string)
    requires lim.Valid() && Window(lim, s)
    ensures Pushed(lim, s, id, Remember(lim, s, id)) && Window(lim, Remember(lim, s, id))
  {
    RememberKeeps(lim, s, id);
    RingDropsOldest(lim.recent, s.recent, id);
  }

  lemma RingDropsOldest(n: nat, ring: seq<string>, id: string)
    requires |ring| <= n
    ensures Last(n, ring + [id]) == if n == 0 then [] else (if |ring| < n then ring else ring[1..]) + [id]
  {
  }

  lemma LastOfLast(n: nat, s: seq<string>, t: seq<string>)
    ensures Last(n, Last(n, s) + t) == Last(n, s + t)
  {
  }

  lemma ThenLast(n: nat, order: seq<string>, a: seq<string>, mid: seq<string>, b: seq<string>)
    requires mid == Last(n, order + a)
    ensures Last(n, mid + b) == Last(n, order + (a + b))
  {
    LastOfLast(n, order + a, b);
    assert order + (a + b) == order + a + b;
  }

  /** The window after any ids is the end of the old window followed by the new ids. */
  lemma {:induction false} RememberAllKeeps(lim: Limits, s: Seen, ids: seq<string>)
    requires lim.Valid() && Window(lim, s)
    ensures Window(lim, RememberAll(lim, s, ids))
    ensures RememberAll(lim, s, ids).order == Last(lim.seen, s.order + News(lim, s, ids))
  {
    if ids == [] {
      assert s.order + [] == s.order;
      return;
    }
    var front, id := ids[..|ids| - 1], ids[|ids| - 1];
    RememberAllKeeps(lim, s, front);
    var mid := RememberAll(lim, s, front);
    RememberKeeps(lim, mid, id);
    var t := if IsNew(mid, id) then [id] else [];
    ThenLast(lim.seen, s.order, News(lim, s, front), mid.order, t);
  }

  lemma LastOfLong(n: nat, s: seq<string>, t: seq<string>)
    requires |t| >= n
    ensures Last(n, s + t) == Last(n, t)
  {
  }

  /** `x` is among the last `k + 1` ids of a window. */
  ghost predicate Held(x: string, k: nat, order: seq<string>) {
    x in Last(k + 1, order)
  }

  lemma HeldAt(x: string, k: nat, order: seq<string>, p: nat)
    requires p < |order| <= p + k + 1 && order[p] == x
    ensures Held(x, k, order)
  {
    var from := |order| - |Last(k + 1, order)|;
    assert Last(k + 1, order)[p - from] == x;
  }

  lemma HeldWhere(x: string, k: nat, order: seq<string>) returns (p: nat)
    requires Held(x, k, order)
    ensures p < |order| <= p + k + 1 && order[p] == x
  {
    var i :| 0 <= i < |Last(k + 1, order)| && Last(k + 1, order)[i] == x;
    p := |order| - |Last(k + 1, order)| + i;
  }

  /** An id stays in the window until as many ids as the window holds have come after it. */
  lemma HeldAfter(n: nat, x: string, k: nat, order: seq<string>, news: seq<string>)
    requires Held(x, k, order) && k + |news| < n
    ensures Held(x, k + |news|, Last(n, order + news))
  {
    var p := HeldWhere(x, k, order);
    var all := order + news;
    assert all[p] == x;
    HeldAt(x, k + |news|, Last(n, all), p - (|all| - |Last(n, all)|));
  }

  lemma HeldLonger(x: string, k: nat, k': nat, order: seq<string>)
    requires Held(x, k, order) && k <= k'
    ensures Held(x, k', order)
  {
    var p := HeldWhere(x, k, order);
    HeldAt(x, k', order, p);
  }

  lemma HeldIsSeen(lim: Limits, x: string, k: nat, s: Seen)
    requires Window(lim, s) && Held(x, k, s.order)
    ensures x in s.ids
  {
    var p := HeldWhere(x, k, s.order);
  }

  lemma NewIsHeld(lim: Limits, s: Seen, id: string)
    requires lim.Valid() && Window(lim, s) && IsNew(s, id)
    ensures Held(id, 0, Remember(lim, s, id).order)
  {
    var order := s.order + [id];
    assert Last(1, Last(lim.seen, order)) == [id];
  }

  /** Two ids that are new end up as the last two of the window. */
  lemma TwoNewAreHeld(lim: Limits, s: Seen, a: string, b: string)
    requires lim.Valid() && Window(lim, s) && IsNew(s, a) && IsNew(s, b)
    ensures Held(b, 0, Remember(lim, Remember(lim, s, a), b).order)
    ensures lim.seen >= 2 ==> Held(a, 1, Remember(lim, Remember(lim, s, a), b).order)
  {
    var mid := Remember(lim, s, a);
    RememberKeeps(lim, s, a);
    NewIsHeld(lim, s, a);
    if a == b {
      if lim.seen >= 2 {
        HeldLonger(a, 0, 1, mid.order);
      }
      return;
    }
    NewIsHeld(lim, mid, b);
    if lim.seen >= 2 {
      HeldAfter(lim.seen, a, 0, mid.order, [b]);
    }
  }

  /** The first phase of a start: remembering a stored window gives that window back. */
  lemma {:induction false} ReloadIsExact(lim: Limits, recent: seq<string>, order: seq<string>)
    requires lim.Valid() && Distinct(order) && |order| <= lim.seen && "" !in order
    ensures RememberAll(lim, Seen({}, [], recent), order).order == order
    ensures forall id :: id in RememberAll(lim, Seen({}, [], recent), order).ids <==> id in order
  {
    if order != [] {
      var front, id := order[..|order| - 1], order[|order| - 1];
      assert "" !in front;
      ReloadIsExact(lim, recent, front);
      assert order == front + [id];
      assert id !in front;
    }
  }

  lemma {:induction false} RecentStaysShort(lim: Limits, s: Seen, ids: seq<string>)
    requires lim.Valid() && |s.recent| <= lim.recent
    ensures |RememberAll(lim, s, ids).recent| <= lim.recent
  {
    if ids != [] {
      RecentStaysShort(lim, s, ids[..|ids| - 1]);
    }
  }
}
