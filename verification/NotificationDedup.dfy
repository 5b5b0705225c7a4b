/** No notification is shown twice while the window of seen ids still reaches back to it, over any events in
    between, restarts and clears included. */
module NotificationDedup {
  import opened SeenIds
  import opened NotificationState
  import opened NotificationRuns

  function StoredNews(cfg: Config, s: Seen, messages: seq<Message>): (r: seq<string>)
    requires cfg.Valid()
    ensures |r| <= 2 * |messages|
  {
    if messages == [] then []
    else
      var front, m := messages[..|messages| - 1], messages[|messages| - 1];
      var s' := RememberStored(cfg, s, front);
      StoredNews(cfg, s, front) + News(cfg.lim, PushRecent(cfg, s', Identified(cfg, m).id), IdsOf(cfg, m))
  }

  /** Ids a start remembers beyond the stored window: from the ring and from the stored messages. */
  function LoadNews(cfg: Config, s: Settings): seq<string>
    requires cfg.Valid()
  {
    var r := ReloadWindow(cfg, s);
    News(cfg.lim, r, r.recent) + StoredNews(cfg, RememberAll(cfg.lim, r, r.recent), s.messages)
  }

  /** The ids an event newly puts into the window. */
  function NewIds(cfg: Config, st: State, e: Event): seq<string>
    requires cfg.Valid()
  {
    match e
    case Arrive(m) => News(cfg.lim, st.seen, IdsOf(cfg, Incoming(cfg, m)))
    case Restart => LoadNews(cfg, st.saved)
    case _ => []
  }

  function RunNews(cfg: Config, st: State, events: seq<Event>): seq<string>
    requires cfg.Valid()
  {
    if events == [] then []
    else
      var front := events[..|events| - 1];
      RunNews(cfg, st, front) + NewIds(cfg, Run(cfg, st, front), events[|events| - 1])
  }

  lemma {:induction false} RememberStoredOrder(cfg: Config, s: Seen, messages: seq<Message>)
    requires cfg.Valid() && Window(cfg.lim, s)
    ensures RememberStored(cfg, s, messages).order == Last(cfg.lim.seen, s.order + StoredNews(cfg, s, messages))
  {
    if messages == [] {
      assert s.order + [] == s.order;
      return;
    }
    var front, m := messages[..|messages| - 1], messages[|messages| - 1];
    var s' := RememberStored(cfg, s, front);
    RememberStoredOrder(cfg, s, front);
    RememberStoredKeeps(cfg, s, front);
    StoredStep(cfg, s', m);
    var pushed := PushRecent(cfg, s', Identified(cfg, m).id);
    ThenLast(cfg.lim.seen, s.order, StoredNews(cfg, s, front), s'.order, News(cfg.lim, pushed, IdsOf(cfg, m)));
  }

  /** Stored settings that a page has written: their window is one a page can have had. */
  ghost predicate Stored(cfg: Config, s: Settings) {
    Distinct(s.seen) && |s.seen| <= cfg.lim.seen && "" !in s.seen && |s.messages| <= cfg.lim.saved
  }

  lemma ReloadKeeps(cfg: Config, s: Settings)
    requires cfg.Valid() && Stored(cfg, s)
    ensures ReloadWindow(cfg, s).order == s.seen && Window(cfg.lim, ReloadWindow(cfg, s))
  {
    var recent := Last(cfg.lim.recent, s.recent);
    ReloadIsExact(cfg.lim, recent, s.seen);
    RememberAllKeeps(cfg.lim, Seen({}, [], recent), s.seen);
  }

  /** The window after a start is the stored window, exactly, followed by the ids found elsewhere. */
  lemma LoadOrder(cfg: Config, s: Settings)
    requires cfg.Valid() && Stored(cfg, s)
    ensures ReloadWindow(cfg, s).order == s.seen
    ensures LoadSeen(cfg, s).order == Last(cfg.lim.seen, s.seen + LoadNews(cfg, s))
  {
    var lim, r := cfg.lim, ReloadWindow(cfg, s);
    ReloadKeeps(cfg, s);
    RememberAllKeeps(lim, r, r.recent);
    var mid := RememberAll(lim, r, r.recent);
    RememberStoredOrder(cfg, mid, s.messages);
    ThenLast(lim.seen, s.seen, News(lim, r, r.recent), mid.order, StoredNews(cfg, mid, s.messages));
  }

  lemma {:induction false} AppendAllOnlyRows(cfg: Config, st: State, messages: seq<Message>)
    ensures AppendAll(cfg, st, messages).(rows := st.rows, count := st.count) == st
  {
    if messages != [] {
      AppendAllOnlyRows(cfg, st, messages[..|messages| - 1]);
    }
  }

  /** `x` is near the end of the window, and of the window as it was last stored. */
  ghost predicate Remembered(cfg: Config, x: string, k: nat, st: State) {
    Stored(cfg, st.saved) && Held(x, k, st.seen.order) && Held(x, k, st.saved.seen)
  }

  lemma PersistStores(cfg: Config, st: State)
    requires cfg.Valid() && Invariant(cfg, st)
    ensures Stored(cfg, Persist(cfg, st).saved)
  {
    OldestFirstMeans(Newest(st.rows, cfg.lim.saved));
  }

  lemma ReceiveRemembers(cfg: Config, x: string, k: nat, st: State, m: Message)
    requires cfg.Valid() && Invariant(cfg, st) && Remembered(cfg, x, k, st)
    requires k + |NewIds(cfg, st, Arrive(m))| < cfg.lim.seen
    ensures Remembered(cfg, x, k + |NewIds(cfg, st, Arrive(m))|, Receive(cfg, st, m))
  {
    var y, news := Incoming(cfg, m), NewIds(cfg, st, Arrive(m));
    var st' := Receive(cfg, st, m);
    MessageIsTwoIds(cfg, st.seen, y);
    RememberAllKeeps(cfg.lim, st.seen, IdsOf(cfg, y));
    HeldAfter(cfg.lim.seen, x, k, st.seen.order, news);
    assert Identified(cfg, y) == y;
    assert st'.seen == RememberMessage(cfg, st.seen, y);
    if Duplicate(cfg, st, m) {
      HeldLonger(x, k, k + |news|, st.saved.seen);
    } else {
      ReceiveKeeps(cfg, st, m);
      PersistStores(cfg, st');
      assert Persist(cfg, st') == st';
    }
  }

  lemma RestartRemembers(cfg: Config, x: string, k: nat, st: State)
    requires cfg.Valid() && Remembered(cfg, x, k, st)
    requires k + |LoadNews(cfg, st.saved)| < cfg.lim.seen
    ensures Remembered(cfg, x, k + |LoadNews(cfg, st.saved)|, Load(cfg, st.saved))
  {
    var news := LoadNews(cfg, st.saved);
    LoadOrder(cfg, st.saved);
    HeldAfter(cfg.lim.seen, x, k, st.saved.seen, news);
    HeldLonger(x, k, k + |news|, st.saved.seen);
    AppendAllOnlyRows(cfg, LoadChips(cfg, st.saved), st.saved.messages);
  }

  lemma StepRemembers(cfg: Config, x: string, k: nat, st: State, e: Event)
    requires cfg.Valid() && Invariant(cfg, st) && Remembered(cfg, x, k, st)
    requires k + |NewIds(cfg, st, e)| < cfg.lim.seen
    ensures Remembered(cfg, x, k + |NewIds(cfg, st, e)|, Step(cfg, st, e))
  {
    if e.Arrive? {
      ReceiveRemembers(cfg, x, k, st, e.message);
    } else if e.Restart? {
      RestartRemembers(cfg, x, k, st);
    } else {
      QuietRemembers(cfg, x, k, st, e);
    }
  }

  lemma QuietRemembers(cfg: Config, x: string, k: nat, st: State, e: Event)
    requires cfg.Valid() && Invariant(cfg, st) && Remembered(cfg, x, k, st) && !e.Arrive? && !e.Restart?
    ensures Remembered(cfg, x, k, Step(cfg, st, e))
  {
    match e
    case Click(_) =>
    case OpenRow(_) =>
    case Clear(_) => PersistStores(cfg, st.(rows := [], count := 0));
    case Shutdown => PersistStores(cfg, st);
  }

  lemma {:induction false} RunRemembers(cfg: Config, x: string, k: nat, st: State, events: seq<Event>)
    requires cfg.Valid() && Invariant(cfg, st) && Remembered(cfg, x, k, st)
    requires k + |RunNews(cfg, st, events)| < cfg.lim.seen
    ensures Remembered(cfg, x, k + |RunNews(cfg, st, events)|, Run(cfg, st, events))
  {
    if events != [] {
      var front, e := events[..|events| - 1], events[|events| - 1];
      var mid, k' := Run(cfg, st, front), k + |RunNews(cfg, st, front)|;
      var last := NewIds(cfg, mid, e);
      assert |RunNews(cfg, st, events)| == |RunNews(cfg, st, front)| + |last|;
      RunRemembers(cfg, x, k, st, front);
      RunKeeps(cfg, st, front);
      StepRemembers(cfg, x, k', mid, e);
    }
  }

  /** An accepted message leaves its two ids at the end of the window, and of the stored one. */
  lemma AcceptedIsRemembered(cfg: Config, st: State, m: Message)
    requires cfg.Valid() && Invariant(cfg, st) && !Duplicate(cfg, st, m)
    ensures Invariant(cfg, Receive(cfg, st, m))
    ensures Remembered(cfg, Fallback(cfg, Incoming(cfg, m)), 0, Receive(cfg, st, m))
    ensures cfg.lim.seen >= 2 ==> Remembered(cfg, Incoming(cfg, m).id, 1, Receive(cfg, st, m))
  {
    var x, st' := Incoming(cfg, m), Receive(cfg, st, m);
    ReceiveKeeps(cfg, st, m);
    PersistStores(cfg, st');
    assert Identified(cfg, x) == x;
    TwoNewAreHeld(cfg.lim, st.seen, x.id, Fallback(cfg, x));
    assert st'.saved.seen == st'.seen.order && Persist(cfg, st') == st';
  }

  lemma StillSeen(cfg: Config, x: string, k: nat, st: State, events: seq<Event>)
    requires cfg.Valid() && Invariant(cfg, st) && Remembered(cfg, x, k, st)
    requires k + |RunNews(cfg, st, events)| < cfg.lim.seen
    ensures x in Run(cfg, st, events).seen.ids
  {
    RunKeeps(cfg, st, events);
    RunRemembers(cfg, x, k, st, events);
    HeldIsSeen(cfg.lim, x, k + |RunNews(cfg, st, events)|, Run(cfg, st, events).seen);
  }

  /** After a message was accepted, the same message is dropped, whatever id it comes with, as long as fewer ids
      than the window holds were newly remembered since. */
  lemma NoDoubleNotification(cfg: Config, st: State, m: Message, events: seq<Event>, again: Message)
    requires cfg.Valid() && Invariant(cfg, st) && !Duplicate(cfg, st, m)
    requires Fallback(cfg, Incoming(cfg, again)) == Fallback(cfg, Incoming(cfg, m))
    requires |RunNews(cfg, Receive(cfg, st, m), events)| < cfg.lim.seen
    ensures Duplicate(cfg, Run(cfg, Receive(cfg, st, m), events), again)
  {
    AcceptedIsRemembered(cfg, st, m);
    StillSeen(cfg, Fallback(cfg, Incoming(cfg, m)), 0, Receive(cfg, st, m), events);
  }

  /** So is any message with the same id, one id earlier. */
  lemma NoDoubleId(cfg: Config, st: State, m: Message, events: seq<Event>, again: Message)
    requires cfg.Valid() && Invariant(cfg, st) && !Duplicate(cfg, st, m)
    requires Incoming(cfg, again).id == Incoming(cfg, m).id
    requires |RunNews(cfg, Receive(cfg, st, m), events)| + 1 < cfg.lim.seen
    ensures Duplicate(cfg, Run(cfg, Receive(cfg, st, m), events), again)
  {
    AcceptedIsRemembered(cfg, st, m);
    StillSeen(cfg, Incoming(cfg, m).id, 1, Receive(cfg, st, m), events);
  }

  /** A duplicate, by whichever of its two ids, changes nothing but the window, and from then on every copy of it is
      one, under any id. */
  lemma DuplicateIsDropped(cfg: Config, st: State, m: Message, copy: Message)
    requires cfg.Valid() && Invariant(cfg, st) && Duplicate(cfg, st, m)
    requires Fallback(cfg, Incoming(cfg, copy)) == Fallback(cfg, Incoming(cfg, m))
    ensures Receive(cfg, st, m).(seen := st.seen) == st
    ensures Duplicate(cfg, Receive(cfg, st, m), copy)
  {
    var x := Incoming(cfg, m);
    assert Identified(cfg, x) == x;
    LastRememberedIsSeen(cfg.lim, Remember(cfg.lim, st.seen, x.id), Fallback(cfg, x));
  }

  // ---------------------------------------------------------------- how long the window lasts

  lemma {:induction false} StoredAllSeen(cfg: Config, s: Seen, messages: seq<Message>)
    requires cfg.Valid()
    ensures AllSeen(cfg, s, messages) ==>
              var s' := RememberStored(cfg, s, messages); s'.ids == s.ids && s'.order == s.order
    ensures StoredNews(cfg, s, messages) == [] <==> AllSeen(cfg, s, messages)
  {
    if messages != [] {
      var front, m := messages[..|messages| - 1], messages[|messages| - 1];
      StoredAllSeen(cfg, s, front);
      OneMoreSeen(cfg, s, messages);
      var pushed := PushRecent(cfg, RememberStored(cfg, s, front), Identified(cfg, m).id);
      MessageIsTwoIds(cfg, pushed, m);
      NothingNewIff(cfg.lim, pushed, IdsOf(cfg, m));
    }
  }

  /** Both ids of every message are in the window. */
  ghost predicate AllSeen(cfg: Config, s: Seen, messages: seq<Message>) {
    forall k :: 0 <= k < |messages| ==> NoneNew(s, IdsOf(cfg, messages[k]))
  }

  lemma OneMoreSeen(cfg: Config, s: Seen, messages: seq<Message>)
    requires messages != []
    ensures AllSeen(cfg, s, messages)
       <==> AllSeen(cfg, s, messages[..|messages| - 1]) && NoneNew(s, IdsOf(cfg, messages[|messages| - 1]))
  {
    var front := messages[..|messages| - 1];
    assert forall k :: 0 <= k < |front| ==> front[k] == messages[k];
  }

  /** A restart adds nothing to the window exactly if the ids of the ring and of the stored messages are all in it. */
  lemma RestartAddsNothingIff(cfg: Config, s: Settings)
    requires cfg.Valid()
    ensures var r := ReloadWindow(cfg, s);
            LoadNews(cfg, s) == [] <==> NoneNew(r, r.recent) && AllSeen(cfg, r, s.messages)
  {
    var r := ReloadWindow(cfg, s);
    NothingNewIff(cfg.lim, r, r.recent);
    StoredAllSeen(cfg, RememberAll(cfg.lim, r, r.recent), s.messages);
  }

  lemma StepStores(cfg: Config, st: State, e: Event)
    requires cfg.Valid() && Invariant(cfg, st) && Stored(cfg, st.saved)
    ensures Stored(cfg, Step(cfg, st, e).saved)
  {
    StepKeeps(cfg, st, e);
    match e
    case Arrive(m) =>
      if !Duplicate(cfg, st, m) {
        PersistStores(cfg, Step(cfg, st, e));
        assert Persist(cfg, Step(cfg, st, e)) == Step(cfg, st, e);
      }
    case Click(_) =>
    case Clear(_) => PersistStores(cfg, st.(rows := [], count := 0));
    case OpenRow(_) =>
    case Shutdown => PersistStores(cfg, st);
    case Restart => AppendAllOnlyRows(cfg, LoadChips(cfg, st.saved), st.saved.messages);
  }

  /** At most so many ids are newly remembered by the events. */
  function Cost(lim: Limits, events: seq<Event>): nat {
    if events == [] then 0
    else
      Cost(lim, events[..|events| - 1])
      + match events[|events| - 1] case Arrive(_) => 2 case Restart => lim.recent + 2 * lim.saved case _ => 0
  }

  lemma {:induction false} RunNewsBound(cfg: Config, st: State, events: seq<Event>)
    requires cfg.Valid() && Invariant(cfg, st) && Stored(cfg, st.saved)
    ensures |RunNews(cfg, st, events)| <= Cost(cfg.lim, events)
    ensures Invariant(cfg, Run(cfg, st, events)) && Stored(cfg, Run(cfg, st, events).saved)
  {
    if events != [] {
      var front, e := events[..|events| - 1], events[|events| - 1];
      var mid := Run(cfg, st, front);
      RunNewsBound(cfg, st, front);
      StepKeeps(cfg, mid, e);
      StepStores(cfg, mid, e);
      RecentStaysShort(cfg.lim, Seen({}, [], Last(cfg.lim.recent, mid.saved.recent)), mid.saved.seen);
    }
  }

  /** Within any events that cost less than the window holds, the same message is not shown again. */
  lemma NoDoubleWithin(cfg: Config, st: State, m: Message, events: seq<Event>, again: Message)
    requires cfg.Valid() && Invariant(cfg, st) && !Duplicate(cfg, st, m)
    requires Fallback(cfg, Incoming(cfg, again)) == Fallback(cfg, Incoming(cfg, m))
    requires Cost(cfg.lim, events) < cfg.lim.seen
    ensures Duplicate(cfg, Run(cfg, Receive(cfg, st, m), events), again)
  {
    AcceptedIsRemembered(cfg, st, m);
    RunNewsBound(cfg, Receive(cfg, st, m), events);
    NoDoubleNotification(cfg, st, m, events, again);
  }

  function Arrivals(events: seq<Event>): nat {
    if events == [] then 0
    else Arrivals(events[..|events| - 1]) + if events[|events| - 1].Arrive? then 1 else 0
  }

  lemma {:induction false} CostOfArrivals(lim: Limits, events: seq<Event>)
    requires Restart !in events
    ensures Cost(lim, events) == 2 * Arrivals(events)
  {
    if events != [] {
      CostOfArrivals(lim, events[..|events| - 1]);
    }
  }

  /** With the limits of the program: not within 2499 messages, and clears and clicks in any number among them do not
      matter. */
  lemma NoDoubleWithin2499(cfg: Config, st: State, m: Message, events: seq<Event>, again: Message)
    requires cfg.Valid() && Invariant(cfg, st) && !Duplicate(cfg, st, m) && cfg.lim == Limits(5000, 200, 500)
    requires Fallback(cfg, Incoming(cfg, again)) == Fallback(cfg, Incoming(cfg, m))
    requires Restart !in events && Arrivals(events) <= 2499
    ensures Duplicate(cfg, Run(cfg, Receive(cfg, st, m), events), again)
  {
    CostOfArrivals(cfg.lim, events);
    NoDoubleWithin(cfg, st, m, events, again);
  }

  lemma {:induction false} RunOrder(cfg: Config, st: State, events: seq<Event>)
    requires cfg.Valid() && Invariant(cfg, st) && Restart !in events
    ensures Invariant(cfg, Run(cfg, st, events))
    ensures Run(cfg, st, events).seen.order == Last(cfg.lim.seen, st.seen.order + RunNews(cfg, st, events))
  {
    if events == [] {
      assert st.seen.order + [] == st.seen.order;
      return;
    }
    var front, e := events[..|events| - 1], events[|events| - 1];
    var mid := Run(cfg, st, front);
    assert e in events;
    RunOrder(cfg, st, front);
    StepKeeps(cfg, mid, e);
    StepOrder(cfg, mid, e);
    ThenLast(cfg.lim.seen, st.seen.order, RunNews(cfg, st, front), mid.seen.order, NewIds(cfg, mid, e));
  }

  lemma StepOrder(cfg: Config, st: State, e: Event)
    requires cfg.Valid() && Invariant(cfg, st) && !e.Restart?
    ensures Step(cfg, st, e).seen.order == Last(cfg.lim.seen, st.seen.order + NewIds(cfg, st, e))
  {
    if e.Arrive? {
      var x := Incoming(cfg, e.message);
      assert Identified(cfg, x) == x;
      MessageIsTwoIds(cfg, st.seen, x);
      RememberAllKeeps(cfg.lim, st.seen, IdsOf(cfg, x));
    } else {
      assert st.seen.order + [] == st.seen.order;
    }
  }

  /** The bound is exact: between restarts, an accepted message is still known by its derived id if and only if fewer
      ids than the window holds were newly remembered since, or that id is itself among the last of those. */
  lemma WindowIsExact(cfg: Config, st: State, m: Message, events: seq<Event>)
    requires cfg.Valid() && Invariant(cfg, st) && !Duplicate(cfg, st, m) && Restart !in events
    ensures var st', f := Receive(cfg, st, m), Fallback(cfg, Incoming(cfg, m));
            var news := RunNews(cfg, st', events);
            f in Run(cfg, st', events).seen.ids <==> |news| < cfg.lim.seen || f in Last(cfg.lim.seen, news)
  {
    AcceptedIsRemembered(cfg, st, m);
    ExactlyWhile(cfg, Fallback(cfg, Incoming(cfg, m)), Receive(cfg, st, m), events);
  }

  lemma ExactlyWhile(cfg: Config, x: string, st: State, events: seq<Event>)
    requires cfg.Valid() && Invariant(cfg, st) && Remembered(cfg, x, 0, st) && Restart !in events
    ensures x in Run(cfg, st, events).seen.ids
       <==> |RunNews(cfg, st, events)| < cfg.lim.seen || x in Last(cfg.lim.seen, RunNews(cfg, st, events))
  {
    var news := RunNews(cfg, st, events);
    RunOrder(cfg, st, events);
    if |news| < cfg.lim.seen {
      StillSeen(cfg, x, 0, st, events);
    } else {
      LastOfLong(cfg.lim.seen, st.seen.order, news);
    }
  }
}
