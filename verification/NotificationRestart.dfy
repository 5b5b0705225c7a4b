/** A restart of the notification page: what was stored always brings back the rows and the filter, and brings back
    the chips in their order exactly if the comma-separated text could hold them. */
module NotificationRestart {
  import opened Options
  import opened SeenIds
  import opened SessionLabels
  import opened StoredChips
  import opened NotificationState
  import opened NotificationRuns
  import opened NotificationDedup

  const FRESH := Settings([], [], [], "", "")

  /** The accepted messages, oldest first. */
  function History(cfg: Config, st: State, events: seq<Event>): seq<Message>
    requires cfg.Valid()
  {
    if events == [] then []
    else
      var front, e := events[..|events| - 1], events[|events| - 1];
      History(cfg, st, front)
      + if e.Arrive? && !Duplicate(cfg, Run(cfg, st, front), e.message) then [Incoming(cfg, e.message)] else []
  }

  /** The rows are the newest accepted messages, newest first. */
  ghost predicate ShowsNewest(accepted: seq<Message>, rows: seq<Row>) {
    |rows| <= |accepted| && forall k :: 0 <= k < |rows| ==> rows[k].message == accepted[|accepted| - 1 - k]
  }

  ghost predicate HaveIds(accepted: seq<Message>) {
    forall k :: 0 <= k < |accepted| ==> accepted[k].id != ""
  }

  /** Wherever there are chips, they and the filter are stored as they are. */
  ghost predicate ChipsStored(st: State) {
    st.known != [] ==> st.saved.known == Join(st.known) && st.saved.filter == SavedFilter(st.filter)
  }

  /** The rows are the newest accepted messages, and the settings are in step with rows, filter and chips. */
  ghost predicate Shown(cfg: Config, accepted: seq<Message>, st: State) {
    && HaveIds(accepted) && ShowsNewest(accepted, st.rows)
    && st.saved.messages == OldestFirst(Newest(st.rows, cfg.lim.saved))
    && LoadedFilter(st.saved.filter) == st.filter && Storable(st.filter)
    && "" !in st.known && ChipsStored(st)
    && Stored(cfg, st.saved)
  }

  /** The chips are the labels of the accepted messages by last arrival, and their stored text is in step. */
  ghost predicate ChipsTrack(accepted: seq<Message>, st: State) {
    ByLastArrival(LabelsOf(accepted), st.known) && st.saved.known == Join(st.known)
  }

  lemma {:induction false} LabelsConcat(a: seq<Message>, b: seq<Message>)
    ensures LabelsOf(a + b) == LabelsOf(a) + LabelsOf(b)
  {
    if b == [] {
      assert a + b == a;
    } else {
      assert (a + b)[..|a + b| - 1] == a + b[..|b| - 1];
      LabelsConcat(a, b[..|b| - 1]);
    }
  }

  lemma LabelsNext(a: seq<Message>, m: Message)
    ensures LabelsOf(a + [m]) == LabelsOf(a) + [ExtractLabel(m.content)]
  {
    assert (a + [m])[..|a|] == a;
  }

  lemma {:induction false} LabelsAreNonEmpty(accepted: seq<Message>)
    ensures "" !in LabelsOf(accepted)
  {
    if accepted != [] {
      LabelsAreNonEmpty(accepted[..|accepted| - 1]);
    }
  }

  /** A filter that came from the settings or from a chip survives being stored. */
  ghost predicate Storable(filter: Option<string>) {
    filter.None? || (filter.value != "" && filter.value != ALL)
  }

  lemma FilterSurvives(filter: Option<string>)
    ensures LoadedFilter(SavedFilter(filter)) == filter <==> Storable(filter)
  {
  }

  // ---------------------------------------------------------------- rows and filter, step by step

  lemma TouchShows(st: State, content: string)
    requires "" !in st.known && ChipsStored(st) && Storable(st.filter) && LoadedFilter(st.saved.filter) == st.filter
    ensures var st' := Touch(st, content);
            "" !in st'.known && ChipsStored(st') && LoadedFilter(st'.saved.filter) == st'.filter
  {
    FilterSurvives(st.filter);
    MoveToFrontMembers(st.known, ExtractLabel(content), "");
  }

  lemma AppendShows(cfg: Config, accepted: seq<Message>, st: State, x: Message)
    requires ShowsNewest(accepted, st.rows) && x.id != ""
    ensures ShowsNewest(accepted + [x], Append(cfg, st, x).rows)
  {
    var rows := Append(cfg, st, x).rows;
    assert forall k :: 1 <= k < |rows| ==> rows[k] == st.rows[k - 1];
  }

  lemma AcceptShows(cfg: Config, accepted: seq<Message>, st: State, m: Message)
    requires cfg.Valid() && Invariant(cfg, st) && Shown(cfg, accepted, st) && !Duplicate(cfg, st, m)
    ensures Shown(cfg, accepted + [Incoming(cfg, m)], Receive(cfg, st, m))
  {
    var x := Incoming(cfg, m);
    var noted := st.(seen := RememberMessage(cfg, st.seen, x));
    TouchShows(noted, x.content);
    AppendShows(cfg, accepted, Touch(noted, x.content), x);
    StepStores(cfg, st, Arrive(m));
  }

  lemma ClickShows(cfg: Config, accepted: seq<Message>, st: State, tag: string)
    requires Shown(cfg, accepted, st) && (tag == ALL || tag in st.known)
    ensures Shown(cfg, accepted, ClickChip(st, tag))
  {
    var filter := if tag == ALL then None else Some(tag);
    RefilteredMeans(st.rows, filter);
    FilterSurvives(filter);
    SameMessages(Newest(st.rows, cfg.lim.saved), Newest(Refiltered(st.rows, filter), cfg.lim.saved));
  }

  lemma {:induction false} SameMessages(a: seq<Row>, b: seq<Row>)
    requires |a| == |b| && forall k :: 0 <= k < |a| ==> a[k].message == b[k].message
    ensures OldestFirst(a) == OldestFirst(b)
  {
    if a != [] {
      SameMessages(a[1..], b[1..]);
    }
  }

  lemma QuietShows(cfg: Config, accepted: seq<Message>, st: State, e: Event)
    requires cfg.Valid() && Invariant(cfg, st) && Shown(cfg, accepted, st)
    requires e.Clear? || e.OpenRow? || e.Shutdown? || (e.Arrive? && Duplicate(cfg, st, e.message))
    ensures Shown(cfg, accepted, Step(cfg, st, e))
  {
    StepStores(cfg, st, e);
  }

  // ---------------------------------------------------------------- the restart

  /** What is stored is the end of the history. */
  lemma StoredIsSuffix(cfg: Config, accepted: seq<Message>, st: State)
    requires Shown(cfg, accepted, st)
    ensures var k := |Newest(st.rows, cfg.lim.saved)|;
            k <= |accepted| && st.saved.messages == accepted[|accepted| - k..]
  {
    OldestFirstMeans(Newest(st.rows, cfg.lim.saved));
  }

  /** The rows that show the messages, oldest first, newest on top. */
  function RowsOf(filter: Option<string>, messages: seq<Message>): seq<Row> {
    if messages == [] then []
    else
      var m := messages[|messages| - 1];
      [Row(m, Hidden(filter, m.content))] + RowsOf(filter, messages[..|messages| - 1])
  }

  lemma {:induction false} AppendAllRows(cfg: Config, st: State, messages: seq<Message>)
    requires st.rows == [] && HaveIds(messages)
    ensures AppendAll(cfg, st, messages).rows == RowsOf(st.filter, messages)
  {
    if messages != [] {
      var front, m := messages[..|messages| - 1], messages[|messages| - 1];
      AppendAllRows(cfg, st, front);
      AppendAllOnlyRows(cfg, st, front);
      assert Identified(cfg, m) == m;
    }
  }

  /** Filtered rows are the rows of their messages. */
  lemma {:induction false} RowsComeBack(rows: seq<Row>, filter: Option<string>)
    requires RowsFiltered(rows, filter)
    ensures RowsOf(filter, OldestFirst(rows)) == rows
  {
    if rows != [] {
      assert forall k :: 0 <= k < |rows| - 1 ==> rows[1..][k] == rows[k + 1];
      RowsComeBack(rows[1..], filter);
      var messages := OldestFirst(rows);
      assert messages[..|messages| - 1] == OldestFirst(rows[1..]);
      assert rows == [rows[0]] + rows[1..];
    }
  }

  /** The restarted page shows the newest rows, hidden as they were, with the same filter; no label is unread; and
      the stored window of seen ids is rebuilt exactly before anything is added. */
  ghost predicate SameRows(cfg: Config, st: State, st': State)
    requires cfg.Valid()
  {
    && st'.rows == Newest(st.rows, cfg.lim.saved)
    && st'.filter == st.filter && st'.unread == {}
    && ReloadWindow(cfg, st.saved).order == st.saved.seen
  }

  lemma LoadShowsTheRows(cfg: Config, accepted: seq<Message>, st: State)
    requires cfg.Valid() && Invariant(cfg, st) && Shown(cfg, accepted, st)
    ensures SameRows(cfg, st, Load(cfg, st.saved))
  {
    var rows := Newest(st.rows, cfg.lim.saved);
    StoredIsSuffix(cfg, accepted, st);
    AppendAllRows(cfg, LoadChips(cfg, st.saved), st.saved.messages);
    AppendAllOnlyRows(cfg, LoadChips(cfg, st.saved), st.saved.messages);
    RowsComeBack(rows, st.filter);
    ReloadKeeps(cfg, st.saved);
  }

  lemma LoadedLabels(cfg: Config, s: Settings)
    requires cfg.Valid()
    ensures "" !in LoadChips(cfg, s).known
  {
    PartsHaveNoComma(s.known);
    LabelsAreNonEmpty(s.messages);
    ReplayMembers(Parse(s.known), LabelsOf(s.messages), "");
  }

  lemma RestartShows(cfg: Config, accepted: seq<Message>, st: State)
    requires cfg.Valid() && Invariant(cfg, st) && Shown(cfg, accepted, st)
    ensures Shown(cfg, accepted, Load(cfg, st.saved))
  {
    var st' := Load(cfg, st.saved);
    LoadShowsTheRows(cfg, accepted, st);
    LoadedLabels(cfg, st.saved);
    AppendAllOnlyRows(cfg, LoadChips(cfg, st.saved), st.saved.messages);
    FilterSurvives(st.filter);
    assert Newest(st'.rows, cfg.lim.saved) == Newest(st.rows, cfg.lim.saved);
  }

  // ---------------------------------------------------------------- rows and filter in every run

  ghost predicate Accepts(cfg: Config, st: State, e: Event) {
    e.Arrive? && !Duplicate(cfg, st, e.message)
  }

  function After(cfg: Config, events: seq<Event>): State
    requires cfg.Valid()
  {
    Run(cfg, Load(cfg, FRESH), events)
  }

  function Accepted(cfg: Config, events: seq<Event>): seq<Message>
    requires cfg.Valid()
  {
    History(cfg, Load(cfg, FRESH), events)
  }

  lemma StepShows(cfg: Config, accepted: seq<Message>, st: State, e: Event)
    requires cfg.Valid() && Invariant(cfg, st) && Shown(cfg, accepted, st)
    ensures Shown(cfg, accepted + if Accepts(cfg, st, e) then [Incoming(cfg, e.message)] else [], Step(cfg, st, e))
  {
    assert accepted + [] == accepted;
    if Accepts(cfg, st, e) {
      AcceptShows(cfg, accepted, st, e.message);
    } else if e.Click? {
      if e.tag == ALL || e.tag in st.known {
        ClickShows(cfg, accepted, st, e.tag);
      }
    } else if e.Restart? {
      RestartShows(cfg, accepted, st);
    } else {
      QuietShows(cfg, accepted, st, e);
    }
  }

  /** After any events from an empty start, restarts of every kind among them: the rows are the newest accepted
      messages, and the settings are in step with what is shown. */
  lemma {:induction false} RunShows(cfg: Config, events: seq<Event>)
    requires cfg.Valid()
    ensures Invariant(cfg, After(cfg, events)) && Shown(cfg, Accepted(cfg, events), After(cfg, events))
  {
    ReachableIsConsistent(cfg, FRESH, events);
    if events == [] {
      assert Load(cfg, FRESH).known == [];
    } else {
      var front, e := events[..|events| - 1], events[|events| - 1];
      RunShows(cfg, front);
      StepShows(cfg, Accepted(cfg, front), After(cfg, front), e);
    }
  }

  /** At any point of any run a restart shows the newest rows, hidden as before, under the same filter. */
  lemma RestartShowsTheRows(cfg: Config, events: seq<Event>)
    requires cfg.Valid()
    ensures SameRows(cfg, After(cfg, events), Load(cfg, After(cfg, events).saved))
  {
    RunShows(cfg, events);
    LoadShowsTheRows(cfg, Accepted(cfg, events), After(cfg, events));
  }

  lemma FrontTouchAgrees(st: State, content: string)
    requires AtFront(st, content) && ChipsStored(st)
    ensures Touch(st, content) == Bubble(st, content) <==> ExtractLabel(content) != ALL || ALL in st.unread
  {
    var l := ExtractLabel(content);
    assert MoveToFront(st.known, l) == st.known;
    if l == ALL && ALL !in st.unread {
      assert ALL in Bubble(st, content).unread;
    } else if l == ALL {
      assert st.unread + {l} == st.unread;
    }
  }

  /** In every run: the shortcut for a label that is at the front already does what the general path does, unless the
      label is the reserved one and not unread yet. */
  lemma ShortcutAgrees(cfg: Config, events: seq<Event>, content: string)
    requires cfg.Valid() && AtFront(After(cfg, events), content)
    ensures var st := After(cfg, events);
            Touch(st, content) == Bubble(st, content) <==> ExtractLabel(content) != ALL || ALL in st.unread
  {
    RunShows(cfg, events);
    FrontTouchAgrees(After(cfg, events), content);
  }

  // ---------------------------------------------------------------- the chips

  ghost predicate ChipsRestorable(st: State) {
    Restorable(st.known, LabelsOf(st.saved.messages))
  }

  /** Replaying the stored messages over the stored chips leaves their order unchanged, exactly if the chips can be
      restored from the text. */
  lemma ReplayIsInvisible(cfg: Config, accepted: seq<Message>, st: State)
    requires Shown(cfg, accepted, st) && ChipsTrack(accepted, st)
    ensures Replay(Parse(st.saved.known), LabelsOf(st.saved.messages)) == st.known <==> ChipsRestorable(st)
  {
    StoredIsSuffix(cfg, accepted, st);
    var k := |Newest(st.rows, cfg.lim.saved)|;
    var older, newer := accepted[..|accepted| - k], accepted[|accepted| - k..];
    assert accepted == older + newer;
    LabelsConcat(older, newer);
    ComesBackIff(LabelsOf(older), LabelsOf(newer), st.known);
  }

  lemma LoadShowsTheChips(cfg: Config, accepted: seq<Message>, st: State)
    requires cfg.Valid() && Shown(cfg, accepted, st) && ChipsTrack(accepted, st)
    ensures Load(cfg, st.saved).known == st.known <==> ChipsRestorable(st)
  {
    ReplayIsInvisible(cfg, accepted, st);
    AppendAllOnlyRows(cfg, LoadChips(cfg, st.saved), st.saved.messages);
  }

  lemma RestartTracks(cfg: Config, accepted: seq<Message>, st: State)
    requires cfg.Valid() && Shown(cfg, accepted, st) && ChipsTrack(accepted, st) && ChipsRestorable(st)
    ensures ChipsTrack(accepted, Load(cfg, st.saved))
  {
    LoadShowsTheChips(cfg, accepted, st);
    AppendAllOnlyRows(cfg, LoadChips(cfg, st.saved), st.saved.messages);
  }

  lemma TouchTracks(accepted: seq<Message>, st: State, m: Message)
    requires ChipsTrack(accepted, st)
    ensures ChipsTrack(accepted + [m], Touch(st, m.content))
  {
    var l := ExtractLabel(m.content);
    ArrivalOrders(LabelsOf(accepted), st.known, l);
    LabelsNext(accepted, m);
    if AtFront(st, m.content) {
      assert MoveToFront(st.known, l) == st.known;
    }
  }

  lemma StepTracks(cfg: Config, accepted: seq<Message>, st: State, e: Event)
    requires cfg.Valid() && Shown(cfg, accepted, st) && ChipsTrack(accepted, st) && (e.Restart? ==> ChipsRestorable(st))
    ensures ChipsTrack(accepted + if Accepts(cfg, st, e) then [Incoming(cfg, e.message)] else [], Step(cfg, st, e))
  {
    assert accepted + [] == accepted;
    if Accepts(cfg, st, e) {
      var x := Incoming(cfg, e.message);
      TouchTracks(accepted, st.(seen := RememberMessage(cfg, st.seen, x)), x);
    } else if e.Restart? {
      RestartTracks(cfg, accepted, st);
    }
  }

  /** Whenever the page was restarted, its chips could be restored. */
  ghost predicate RestartsRestore(cfg: Config, events: seq<Event>)
    requires cfg.Valid()
  {
    forall k :: 0 <= k < |events| && events[k] == Restart ==> ChipsRestorable(After(cfg, events[..k]))
  }

  lemma RestoredBefore(cfg: Config, events: seq<Event>)
    requires cfg.Valid() && events != [] && RestartsRestore(cfg, events)
    ensures RestartsRestore(cfg, events[..|events| - 1])
  {
    var front := events[..|events| - 1];
    assert forall k :: 0 <= k < |front| ==> front[k] == events[k] && front[..k] == events[..k];
  }

  /** As long as every restart could restore the chips, they are exactly the labels of the accepted messages, each
      once, ordered by last arrival. */
  lemma {:induction false} RunTracks(cfg: Config, events: seq<Event>)
    requires cfg.Valid() && RestartsRestore(cfg, events)
    ensures ChipsTrack(Accepted(cfg, events), After(cfg, events))
  {
    if events == [] {
      assert Load(cfg, FRESH).known == [] && LabelsOf([]) == [];
    } else {
      var front, e := events[..|events| - 1], events[|events| - 1];
      RestoredBefore(cfg, events);
      RunTracks(cfg, front);
      RunShows(cfg, front);
      StepTracks(cfg, Accepted(cfg, front), After(cfg, front), e);
    }
  }

  /** The first restart that shows other chips is the first at which some chip with a comma is not both nothing but
      commas and the label of a stored row. */
  lemma RestartIsInvisibleIff(cfg: Config, events: seq<Event>)
    requires cfg.Valid() && RestartsRestore(cfg, events)
    ensures var st := After(cfg, events); Load(cfg, st.saved).known == st.known <==> ChipsRestorable(st)
  {
    RunTracks(cfg, events);
    RunShows(cfg, events);
    LoadShowsTheChips(cfg, Accepted(cfg, events), After(cfg, events));
  }

  lemma FirstArrival(cfg: Config, st: State, m: Message)
    requires cfg.Valid() && st.known == [] && st.seen.ids == {}
    ensures Receive(cfg, st, m).known == [ExtractLabel(m.content)]
  {
    assert RemoveFirst([], ExtractLabel(m.content)) == [];
  }

  lemma FirstChip(cfg: Config, m: Message)
    requires cfg.Valid()
    ensures After(cfg, [Arrive(m)]).known == [ExtractLabel(m.content)]
  {
    var one, start := [Arrive(m)], Load(cfg, FRESH);
    assert one[..0] == [] && Run(cfg, start, []) == start;
    assert start.known == [] && start.seen.ids == {};
    FirstArrival(cfg, start, m);
  }

  lemma NotRestorable(st: State, l: string, i: nat, j: nat)
    requires l in st.known && i < |l| && j < |l| && l[i] == ',' && l[j] != ','
    ensures !ChipsRestorable(st)
  {
    assert l[i] in l && l[j] in l;
  }

  lemma ThenRestart(cfg: Config, events: seq<Event>)
    requires cfg.Valid()
    ensures After(cfg, events + [Restart]) == Load(cfg, After(cfg, events).saved)
  {
    assert (events + [Restart])[..|events|] == events;
  }

  lemma ChipIsLost(cfg: Config, m: Message, l: string, i: nat, j: nat)
    requires cfg.Valid() && ExtractLabel(m.content) == l && i < |l| && j < |l| && l[i] == ',' && l[j] != ','
    ensures After(cfg, [Arrive(m)]).known == [l] && After(cfg, [Arrive(m)] + [Restart]).known != [l]
  {
    FirstChip(cfg, m);
    NotRestorable(After(cfg, [Arrive(m)]), l, i, j);
    RestartIsInvisibleIff(cfg, [Arrive(m)]);
    ThenRestart(cfg, [Arrive(m)]);
  }

  /** A run that loses a chip: one message with a comma in its label, and a restart. */
  lemma CommaChipIsLost(cfg: Config, m: Message, l: string)
    requires cfg.Valid() && l == "a,b" && m.content == "[" + l + "] " + "x"
    ensures After(cfg, [Arrive(m)]).known == [l] && After(cfg, [Arrive(m)] + [Restart]).known != [l]
  {
    LabelRoundTrip(l, "x");
    ChipIsLost(cfg, m, l, 1, 0);
  }

  // ---------------------------------------------------------------- labels without commas

  ghost predicate NoCommas(events: seq<Event>) {
    forall k :: 0 <= k < |events| && events[k].Arrive? ==> ',' !in ExtractLabel(events[k].message.content)
  }

  lemma {:induction false} AcceptedHaveNoCommas(cfg: Config, events: seq<Event>)
    requires cfg.Valid() && NoCommas(events)
    ensures forall l :: l in LabelsOf(Accepted(cfg, events)) ==> ',' !in l
  {
    if events != [] {
      var front, e := events[..|events| - 1], events[|events| - 1];
      assert forall k :: 0 <= k < |front| ==> front[k] == events[k];
      AcceptedHaveNoCommas(cfg, front);
      assert Accepted(cfg, front) + [] == Accepted(cfg, front);
      if e.Arrive? {
        LabelsNext(Accepted(cfg, front), Incoming(cfg, e.message));
      }
    }
  }

  lemma {:induction false} NoCommasRestore(cfg: Config, events: seq<Event>)
    requires cfg.Valid() && NoCommas(events)
    ensures RestartsRestore(cfg, events) && ChipsRestorable(After(cfg, events))
  {
    forall k | 0 <= k < |events| && events[k] == Restart
      ensures ChipsRestorable(After(cfg, events[..k]))
    {
      assert forall j :: 0 <= j < k ==> events[..k][j] == events[j];
      NoCommasRestore(cfg, events[..k]);
    }
    RunTracks(cfg, events);
    AcceptedHaveNoCommas(cfg, events);
  }

  /** At any point of any run whose labels have no comma, restarting in between as often as one likes, a restart shows
      the same page. */
  lemma RestartIsInvisible(cfg: Config, events: seq<Event>)
    requires cfg.Valid() && NoCommas(events)
    ensures var st := After(cfg, events);
            SameRows(cfg, st, Load(cfg, st.saved)) && Load(cfg, st.saved).known == st.known
  {
    NoCommasRestore(cfg, events);
    RestartShowsTheRows(cfg, events);
    RestartIsInvisibleIff(cfg, events);
  }
}
