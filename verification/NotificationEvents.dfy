/** What each event of a run does to the page, field by field, whatever was stored at the start. */
module NotificationEvents {
  import opened Options
  import opened SeenIds
  import opened SessionLabels
  import opened StoredChips
  import opened NotificationState
  import opened NotificationRuns

  function Reached(cfg: Config, s: Settings, events: seq<Event>): State
    requires cfg.Valid()
  {
    Run(cfg, Load(cfg, s), events)
  }

  lemma ThenStep(cfg: Config, s: Settings, events: seq<Event>, e: Event)
    requires cfg.Valid()
    ensures Reached(cfg, s, events + [e]) == Step(cfg, Reached(cfg, s, events), e)
  {
    assert (events + [e])[..|events|] == events;
  }

  // ---------------------------------------------------------------- the filter in the settings

  /** What is stored as the filter is the label filtered by, or no label where there is no filter; and chips, where there
      are any, are stored as they are. */
  ghost predicate FilterStored(st: State) {
    && (st.filter == None ==> st.saved.filter == "" || st.saved.filter == "__all__")
    && (st.filter.Some? ==> st.saved.filter == st.filter.value != "" && st.filter.value != "__all__")
    && "" !in st.known
    && (st.known != [] ==> st.saved.known == Join(st.known))
  }

  lemma FilterStays(st: State)
    requires FilterStored(st)
    ensures FilterStored(SaveChips(st))
  {
  }

  lemma {:induction false} AppendAllFilter(cfg: Config, st: State, messages: seq<Message>)
    ensures var st' := AppendAll(cfg, st, messages);
            st'.filter == st.filter && st'.saved == st.saved && st'.known == st.known
  {
    if messages != [] {
      AppendAllFilter(cfg, st, messages[..|messages| - 1]);
    }
  }

  lemma {:induction false} NoEmptyLabel(messages: seq<Message>)
    ensures "" !in LabelsOf(messages)
  {
    if messages != [] {
      NoEmptyLabel(messages[..|messages| - 1]);
    }
  }

  lemma LoadStoresFilter(cfg: Config, s: Settings)
    requires cfg.Valid()
    ensures FilterStored(Load(cfg, s))
  {
    var st := LoadChips(cfg, s);
    PartsHaveNoComma(s.known);
    NoEmptyLabel(s.messages);
    ReplayMembers(Parse(s.known), LabelsOf(s.messages), "");
    AppendAllFilter(cfg, st, s.messages);
  }

  lemma StepStoresFilter(cfg: Config, st: State, e: Event)
    requires cfg.Valid() && FilterStored(st)
    ensures FilterStored(Step(cfg, st, e))
  {
    if e.Arrive? {
      MoveToFrontMembers(st.known, ExtractLabel(e.message.content), "");
    } else if e.Restart? {
      LoadStoresFilter(cfg, st.saved);
    }
  }

  lemma {:induction false} ReachedStoresFilter(cfg: Config, s: Settings, events: seq<Event>)
    requires cfg.Valid()
    ensures FilterStored(Reached(cfg, s, events))
  {
    if events == [] {
      LoadStoresFilter(cfg, s);
    } else {
      ReachedStoresFilter(cfg, s, events[..|events| - 1]);
      StepStoresFilter(cfg, Reached(cfg, s, events[..|events| - 1]), events[|events| - 1]);
    }
  }

  // ---------------------------------------------------------------- clicks

  /** A click on a known chip filters by its label and takes its unread mark, a click on the first chip shows all rows;
      the filter is what is stored, and nothing else changes. */
  lemma ClickFilters(cfg: Config, s: Settings, events: seq<Event>, tag: string)
    requires cfg.Valid() && (tag == "__all__" || tag in Reached(cfg, s, events).known)
    ensures var st, st' := Reached(cfg, s, events), Reached(cfg, s, events + [Click(tag)]);
            && st'.filter == (if tag == "__all__" then None else Some(tag))
            && (if tag == "__all__" then st'.saved.filter == "" || st'.saved.filter == "__all__" else st'.saved.filter == tag)
            && (forall l :: l in st'.unread <==> l in st.unread && (l != tag || tag == "__all__"))
            && |st'.rows| == |st.rows|
            && (forall k :: 0 <= k < |st.rows| ==>
                  && st'.rows[k].message == st.rows[k].message
                  && (st'.rows[k].hidden <==> tag != "__all__" && ExtractLabel(st.rows[k].message.content) != tag))
            && st'.seen == st.seen && st'.known == st.known && st'.count == st.count
            && st'.saved.messages == st.saved.messages && st'.saved.recent == st.saved.recent
            && st'.saved.seen == st.saved.seen
            && Load(cfg, st'.saved).filter == st'.filter
  {
    var st := Reached(cfg, s, events);
    ThenStep(cfg, s, events, Click(tag));
    ReachableIsConsistent(cfg, s, events);
    ReachedStoresFilter(cfg, s, events);
    ReachedStoresFilter(cfg, s, events + [Click(tag)]);
    RefilteredMeans(st.rows, if tag == "__all__" then None else Some(tag));
    var st' := Reached(cfg, s, events + [Click(tag)]);
    AppendAllFilter(cfg, LoadChips(cfg, st'.saved), st'.saved.messages);
  }

  /** Opening a row takes the unread mark of its label, and changes nothing else. */
  lemma OpeningReads(cfg: Config, s: Settings, events: seq<Event>, k: nat)
    requires cfg.Valid() && k < |Reached(cfg, s, events).rows|
    ensures var st, st' := Reached(cfg, s, events), Reached(cfg, s, events + [OpenRow(k)]);
            && (forall l :: l in st'.unread <==> l in st.unread && l != ExtractLabel(st.rows[k].message.content))
            && st'.(unread := st.unread) == st
  {
    ThenStep(cfg, s, events, OpenRow(k));
  }

  // ---------------------------------------------------------------- what is stored

  /** The newest rows, as many as may be stored, are stored oldest first, with ring and queue. */
  ghost predicate RowsStored(cfg: Config, st: State) {
    var n := if |st.rows| < cfg.lim.saved then |st.rows| else cfg.lim.saved;
    && |st.saved.messages| == n
    && (forall k :: 0 <= k < n ==> st.saved.messages[k] == st.rows[n - 1 - k].message)
    && st.saved.recent == st.seen.recent && st.saved.seen == st.seen.order
  }

  lemma PersistStoresRows(cfg: Config, st: State)
    ensures RowsStored(cfg, Persist(cfg, st))
    ensures Persist(cfg, st).(saved := st.saved) == st
    ensures Persist(cfg, st).saved.known == st.saved.known && Persist(cfg, st).saved.filter == st.saved.filter
  {
    OldestFirstMeans(Newest(st.rows, cfg.lim.saved));
  }

  /** Clearing asks if there are rows; confirmed, or without rows, it empties and stores them, and changes nothing else. */
  lemma ClearingEmpties(cfg: Config, s: Settings, events: seq<Event>, confirmed: bool)
    requires cfg.Valid()
    ensures var st, st' := Reached(cfg, s, events), Reached(cfg, s, events + [Clear(confirmed)]);
            if st.rows != [] && !confirmed then st' == st
            else
              && st'.rows == [] && st'.count == 0 && st'.saved.messages == []
              && st'.saved.recent == st.seen.recent && st'.saved.seen == st.seen.order
              && st'.(rows := st.rows, count := st.count, saved := st.saved) == st
              && st'.saved.known == st.saved.known && st'.saved.filter == st.saved.filter
  {
    var st := Reached(cfg, s, events);
    ThenStep(cfg, s, events, Clear(confirmed));
    ReachableIsConsistent(cfg, s, events);
    PersistStoresRows(cfg, st.(rows := [], count := 0));
  }

  /** A shutdown stores rows and window, and changes nothing else. */
  lemma ShutdownStores(cfg: Config, s: Settings, events: seq<Event>)
    requires cfg.Valid()
    ensures var st, st' := Reached(cfg, s, events), Reached(cfg, s, events + [Shutdown]);
            && RowsStored(cfg, st') && st'.(saved := st.saved) == st
            && st'.saved.known == st.saved.known && st'.saved.filter == st.saved.filter
  {
    ThenStep(cfg, s, events, Shutdown);
    PersistStoresRows(cfg, Reached(cfg, s, events));
  }

  // ---------------------------------------------------------------- arrivals

  /** `channel` is the message's channel, or the default; `derived` the id derived from it; and `id` the message's own
      id, or the derived one. */
  ghost predicate IsTaken(cfg: Config, m: Message, channel: string, derived: string, id: string) {
    && channel == (if m.channel == "" then "default" else m.channel)
    && derived == cfg.hash(channel, m.content, m.icon, m.timestamp)
    && id == (if m.id == "" then derived else m.id)
  }

  /** What the names of the deduplication laws stand for. */
  lemma DuplicateIs(cfg: Config, st: State, m: Message, channel: string, derived: string, id: string)
    requires IsTaken(cfg, m, channel, derived, id)
    ensures Duplicate(cfg, st, m) <==> id in st.seen.ids || derived in st.seen.ids
    ensures Incoming(cfg, m) == Message(channel, m.content, m.icon, m.timestamp, id)
    ensures Fallback(cfg, Incoming(cfg, m)) == derived
  {
  }

  /** Both ids of a message are remembered, its own first. */
  lemma BothAreRemembered(cfg: Config, seen: Seen, m: Message, channel: string, derived: string, id: string)
    returns (mid: Seen)
    requires cfg.Valid() && Window(cfg.lim, seen) && IsTaken(cfg, m, channel, derived, id)
    ensures Pushed(cfg.lim, seen, id, mid) && Pushed(cfg.lim, mid, derived, RememberMessage(cfg, seen, Incoming(cfg, m)))
  {
    mid := Remember(cfg.lim, seen, id);
    RememberPushes(cfg.lim, seen, id);
    RememberPushes(cfg.lim, mid, derived);
  }

  /** A message known by either id only has both of them remembered. */
  lemma DuplicateIsNoted(cfg: Config, s: Settings, events: seq<Event>, m: Message, channel: string, derived: string, id: string)
    returns (mid: Seen)
    requires cfg.Valid() && IsTaken(cfg, m, channel, derived, id)
    requires var known := Reached(cfg, s, events).seen.ids; id in known || derived in known
    ensures var st, st' := Reached(cfg, s, events), Reached(cfg, s, events + [Arrive(m)]);
            && Pushed(cfg.lim, st.seen, id, mid) && Pushed(cfg.lim, mid, derived, st'.seen)
            && st'.(seen := st.seen) == st
  {
    var st := Reached(cfg, s, events);
    ThenStep(cfg, s, events, Arrive(m));
    ReachableIsConsistent(cfg, s, events);
    mid := BothAreRemembered(cfg, st.seen, m, channel, derived, id);
  }

  /** Any other message has both ids remembered, becomes the first row, hidden if its label is not the one filtered by,
      and its label becomes the first chip and is unread; all of that is stored, and nothing else changes. */
  lemma MessageIsShown(cfg: Config, s: Settings, events: seq<Event>, m: Message, channel: string, derived: string, id: string)
    returns (mid: Seen)
    requires cfg.Valid() && IsTaken(cfg, m, channel, derived, id)
    requires var known := Reached(cfg, s, events).seen.ids; id !in known && derived !in known
    ensures var st, st' := Reached(cfg, s, events), Reached(cfg, s, events + [Arrive(m)]);
            var l := ExtractLabel(m.content);
            && Pushed(cfg.lim, st.seen, id, mid) && Pushed(cfg.lim, mid, derived, st'.seen)
            && st'.rows == [Row(Message(channel, m.content, m.icon, m.timestamp, id),
                                st.filter != None && st.filter != Some(l))] + st.rows
            && st'.count == st.count + 1 && st'.filter == st.filter
            && ChipMoved(st.known, l, st'.known)
            && st'.unread == (if st.known != [] && st.known[0] == "__all__" == l then st.unread else st.unread + {l})
            && RowsStored(cfg, st') && FilterStored(st')
  {
    var st := Reached(cfg, s, events);
    var x := Incoming(cfg, m);
    var noted := st.(seen := RememberMessage(cfg, st.seen, x));
    ThenStep(cfg, s, events, Arrive(m));
    ReachableIsConsistent(cfg, s, events);
    ReachedStoresFilter(cfg, s, events + [Arrive(m)]);
    mid := BothAreRemembered(cfg, st.seen, m, channel, derived, id);
    PersistStoresRows(cfg, Append(cfg, Touch(noted, x.content), x));
    ChipMoves(st.known, ExtractLabel(m.content));
  }

  /** `l` comes first, and gives up its first earlier place. */
  ghost predicate ChipMoved(known: seq<string>, l: string, known': seq<string>) {
    && (l !in known ==> known' == [l] + known)
    && (forall p :: 0 <= p < |known| && known[p] == l && (forall j :: 0 <= j < p ==> known[j] != l) ==>
          known' == [l] + (known[..p] + known[p + 1..]))
  }

  lemma ChipMoves(known: seq<string>, l: string)
    ensures ChipMoved(known, l, MoveToFront(known, l))
    ensures known != [] && known[0] == l ==> MoveToFront(known, l) == known
  {
    if l !in known {
      NothingToRemove(known, l);
    }
    forall p | 0 <= p < |known| && known[p] == l && forall j :: 0 <= j < p ==> known[j] != l
      ensures MoveToFront(known, l) == [l] + (known[..p] + known[p + 1..])
    {
      RemovedAt(known, l, p);
    }
  }
}
