/** Runs of the notification page: what every event keeps, whatever was stored at the start. */
module NotificationRuns {
  import opened Options
  import opened SeenIds
  import opened SessionLabels
  import opened StoredChips
  import opened NotificationState

  /** `Restart` reads the settings as they were last stored; a shutdown stores them first, a crash does not. */
  datatype Event =
    | Arrive(message: Message)
    | Click(tag: string)
    | Clear(confirmed: bool)
    | OpenRow(row: nat)
    | Shutdown
    | Restart

  function Step(cfg: Config, st: State, e: Event): State
    requires cfg.Valid()
  {
    match e
    case Arrive(m) => Receive(cfg, st, m)
    case Click(tag) => if tag == ALL || tag in st.known then ClickChip(st, tag) else st
    case Clear(confirmed) => ClearAll(cfg, st, confirmed)
    case OpenRow(k) => if k < |st.rows| then Open(st, k) else st
    case Shutdown => Persist(cfg, st)
    case Restart => Load(cfg, st.saved)
  }

  function Run(cfg: Config, st: State, events: seq<Event>): State
    requires cfg.Valid()
  {
    if events == [] then st else Step(cfg, Run(cfg, st, events[..|events| - 1]), events[|events| - 1])
  }

  // ---------------------------------------------------------------- invariants of every run

  ghost predicate RowsFiltered(rows: seq<Row>, filter: Option<string>) {
    forall k :: 0 <= k < |rows| ==> rows[k].hidden == Hidden(filter, rows[k].message.content)
  }

  ghost predicate RowsLabelled(rows: seq<Row>, known: seq<string>) {
    forall k :: 0 <= k < |rows| ==> ExtractLabel(rows[k].message.content) in known
  }

  /** The window of seen ids is consistent, the count is the number of rows, a row is hidden exactly when a filter is
      set and its label differs, and unread labels are among the known ones. */
  ghost predicate Invariant(cfg: Config, st: State) {
    && Window(cfg.lim, st.seen)
    && st.count == |st.rows|
    && RowsFiltered(st.rows, st.filter)
    && (forall l :: l in st.unread ==> l in st.known)
    && RowsLabelled(st.rows, st.known)
  }

  lemma TouchKeeps(cfg: Config, st: State, content: string)
    requires Invariant(cfg, st)
    ensures Invariant(cfg, Touch(st, content)) && ExtractLabel(content) in Touch(st, content).known
  {
    forall x ensures x in MoveToFront(st.known, ExtractLabel(content)) <==> x == ExtractLabel(content) || x in st.known {
      MoveToFrontMembers(st.known, ExtractLabel(content), x);
    }
  }

  lemma AppendKeeps(cfg: Config, st: State, m: Message)
    requires Invariant(cfg, st) && ExtractLabel(m.content) in st.known
    ensures Invariant(cfg, Append(cfg, st, m))
  {
    var r := Append(cfg, st, m).rows;
    assert forall k :: 1 <= k < |r| ==> r[k] == st.rows[k - 1];
  }

  lemma MessageIsTwoIds(cfg: Config, s: Seen, m: Message)
    requires cfg.Valid()
    ensures RememberMessage(cfg, s, m) == RememberAll(cfg.lim, s, IdsOf(cfg, m))
  {
    var a, b := Identified(cfg, m).id, Fallback(cfg, m);
    assert [a][..0] == [] && RememberAll(cfg.lim, s, [a]) == Remember(cfg.lim, s, a);
    assert [a, b][..1] == [a];
  }

  lemma ReceiveKeeps(cfg: Config, st: State, m: Message)
    requires cfg.Valid() && Invariant(cfg, st)
    ensures Invariant(cfg, Receive(cfg, st, m))
  {
    var x := Incoming(cfg, m);
    var noted := st.(seen := RememberMessage(cfg, st.seen, x));
    MessageIsTwoIds(cfg, st.seen, x);
    RememberAllKeeps(cfg.lim, st.seen, IdsOf(cfg, x));
    assert Invariant(cfg, noted);
    if !Duplicate(cfg, st, m) {
      TouchKeeps(cfg, noted, x.content);
      AppendKeeps(cfg, Touch(noted, x.content), x);
    }
  }

  lemma {:induction false} RefilteredMeans(rows: seq<Row>, filter: Option<string>)
    ensures forall k :: 0 <= k < |rows| ==>
              Refiltered(rows, filter)[k] == Row(rows[k].message, Hidden(filter, rows[k].message.content))
  {
    if rows != [] {
      RefilteredMeans(rows[..|rows| - 1], filter);
    }
  }

  lemma {:induction false} OldestFirstMeans(rows: seq<Row>)
    ensures |OldestFirst(rows)| == |rows|
    ensures forall k :: 0 <= k < |rows| ==> OldestFirst(rows)[k] == rows[|rows| - 1 - k].message
  {
    if rows != [] {
      OldestFirstMeans(rows[1..]);
    }
  }

  lemma ClickKeeps(cfg: Config, st: State, tag: string)
    requires Invariant(cfg, st)
    ensures Invariant(cfg, ClickChip(st, tag))
  {
    RefilteredMeans(st.rows, if tag == ALL then None else Some(tag));
  }

  lemma StoredStep(cfg: Config, s: Seen, m: Message)
    requires cfg.Valid() && Window(cfg.lim, s)
    ensures var pushed := PushRecent(cfg, s, Identified(cfg, m).id);
            && Window(cfg.lim, RememberMessage(cfg, pushed, m))
            && RememberMessage(cfg, pushed, m).order
               == Last(cfg.lim.seen, s.order + News(cfg.lim, pushed, IdsOf(cfg, m)))
  {
    var pushed := PushRecent(cfg, s, Identified(cfg, m).id);
    MessageIsTwoIds(cfg, pushed, m);
    RememberAllKeeps(cfg.lim, pushed, IdsOf(cfg, m));
  }

  lemma {:induction false} RememberStoredKeeps(cfg: Config, s: Seen, messages: seq<Message>)
    requires cfg.Valid() && Window(cfg.lim, s)
    ensures Window(cfg.lim, RememberStored(cfg, s, messages))
  {
    if messages != [] {
      RememberStoredKeeps(cfg, s, messages[..|messages| - 1]);
      StoredStep(cfg, RememberStored(cfg, s, messages[..|messages| - 1]), messages[|messages| - 1]);
    }
  }

  lemma LoadSeenKeeps(cfg: Config, s: Settings)
    requires cfg.Valid()
    ensures Window(cfg.lim, LoadSeen(cfg, s))
  {
    var empty := Seen({}, [], Last(cfg.lim.recent, s.recent));
    RememberAllKeeps(cfg.lim, empty, s.seen);
    var reloaded := ReloadWindow(cfg, s);
    RememberAllKeeps(cfg.lim, reloaded, reloaded.recent);
    RememberStoredKeeps(cfg, RememberAll(cfg.lim, reloaded, reloaded.recent), s.messages);
  }

  lemma {:induction false} LabelsOfMembers(messages: seq<Message>, n: nat)
    requires n < |messages|
    ensures ExtractLabel(messages[n].content) in LabelsOf(messages)
  {
    if n < |messages| - 1 {
      LabelsOfMembers(messages[..|messages| - 1], n);
    }
  }

  lemma {:induction false} AppendAllKeeps(cfg: Config, st: State, messages: seq<Message>)
    requires Invariant(cfg, st) && forall k :: 0 <= k < |messages| ==> ExtractLabel(messages[k].content) in st.known
    ensures Invariant(cfg, AppendAll(cfg, st, messages)) && AppendAll(cfg, st, messages).known == st.known
  {
    if messages != [] {
      AppendAllKeeps(cfg, st, messages[..|messages| - 1]);
      AppendKeeps(cfg, AppendAll(cfg, st, messages[..|messages| - 1]), messages[|messages| - 1]);
    }
  }

  /** Whatever the settings are, a start leads to a consistent state. */
  lemma LoadKeeps(cfg: Config, s: Settings)
    requires cfg.Valid()
    ensures Invariant(cfg, Load(cfg, s))
  {
    LoadSeenKeeps(cfg, s);
    var st := LoadChips(cfg, s);
    forall k | 0 <= k < |s.messages|
      ensures ExtractLabel(s.messages[k].content) in st.known
    {
      LabelsOfMembers(s.messages, k);
      ReplayMembers(Parse(s.known), LabelsOf(s.messages), ExtractLabel(s.messages[k].content));
    }
    assert Invariant(cfg, st);
    AppendAllKeeps(cfg, st, s.messages);
  }

  lemma StepKeeps(cfg: Config, st: State, e: Event)
    requires cfg.Valid() && Invariant(cfg, st)
    ensures Invariant(cfg, Step(cfg, st, e))
  {
    match e
    case Arrive(m) => ReceiveKeeps(cfg, st, m);
    case Click(tag) => ClickKeeps(cfg, st, tag);
    case Clear(_) =>
    case OpenRow(_) =>
    case Shutdown =>
    case Restart => LoadKeeps(cfg, st.saved);
  }

  lemma {:induction false} RunKeeps(cfg: Config, st: State, events: seq<Event>)
    requires cfg.Valid() && Invariant(cfg, st)
    ensures Invariant(cfg, Run(cfg, st, events))
  {
    if events != [] {
      RunKeeps(cfg, st, events[..|events| - 1]);
      StepKeeps(cfg, Run(cfg, st, events[..|events| - 1]), events[|events| - 1]);
    }
  }

  /** Every state reached by any events from any settings is consistent. */
  lemma ReachableIsConsistent(cfg: Config, s: Settings, events: seq<Event>)
    requires cfg.Valid()
    ensures Invariant(cfg, Run(cfg, Load(cfg, s), events))
  {
    LoadKeeps(cfg, s);
    RunKeeps(cfg, Load(cfg, s), events);
  }
}
