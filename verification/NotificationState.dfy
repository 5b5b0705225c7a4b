/** The notification page as a state and its transitions: what each event does to the window of seen ids, the rows,
    the session chips and the stored settings. */
module NotificationState {
  import opened Options
  import opened SeenIds
  import opened SessionLabels
  import opened StoredChips

  datatype Message = Message(channel: string, content: string, icon: string, timestamp: string, id: string)

  /** `hash` derives an id from channel, content, icon and timestamp. */
  datatype Config = Config(hash: (string, string, string, string) -> string, lim: Limits) {
    ghost predicate Valid() {
      lim.Valid() && forall c, m, i, t :: hash(c, m, i, t) != ""
    }
  }

  datatype Row = Row(message: Message, hidden: bool)

  datatype Settings = Settings(messages: seq<Message>, recent: seq<string>, seen: seq<string>,
                               known: string, filter: string)

  datatype State = State(seen: Seen, rows: seq<Row>, known: seq<string>, filter: Option<string>,
                         unread: set<string>, count: nat, saved: Settings)

  function Fallback(cfg: Config, m: Message): string {
    cfg.hash(m.channel, m.content, m.icon, m.timestamp)
  }

  function Identified(cfg: Config, m: Message): Message {
    m.(id := if m.id != "" then m.id else Fallback(cfg, m))
  }

  /** A message as it is shown: with a channel and an id. */
  function Incoming(cfg: Config, m: Message): Message {
    Identified(cfg, m.(channel := if m.channel != "" then m.channel else "default"))
  }

  predicate Hidden(filter: Option<string>, content: string) {
    filter.Some? && ExtractLabel(content) != filter.value
  }

  function SavedFilter(filter: Option<string>): string {
    if filter.Some? && filter.value != "" then filter.value else ALL
  }

  function LoadedFilter(saved: string): Option<string> {
    if saved != "" && saved != ALL then Some(saved) else None
  }

  function SaveChips(st: State): State {
    st.(saved := st.saved.(known := Join(st.known), filter := SavedFilter(st.filter)))
  }

  predicate AtFront(st: State, content: string) {
    st.known != [] && st.known[0] == ExtractLabel(content)
  }

  /** The label moves to the front of the chips and becomes unread. */
  function Bubble(st: State, content: string): State {
    var l := ExtractLabel(content);
    SaveChips(st.(known := MoveToFront(st.known, l), unread := st.unread + {l}))
  }

  function Touch(st: State, content: string): State {
    var l := ExtractLabel(content);
    if AtFront(st, content) then st.(unread := if l == ALL then st.unread else st.unread + {l})
    else Bubble(st, content)
  }

  function Append(cfg: Config, st: State, m: Message): State {
    st.(rows := [Row(Identified(cfg, m), Hidden(st.filter, m.content))] + st.rows, count := st.count + 1)
  }

  function OldestFirst(rows: seq<Row>): seq<Message> {
    if rows == [] then [] else OldestFirst(rows[1..]) + [rows[0].message]
  }

  function Newest(rows: seq<Row>, n: nat): seq<Row> {
    if |rows| <= n then rows else rows[..n]
  }

  function Persist(cfg: Config, st: State): State {
    st.(saved := st.saved.(messages := OldestFirst(Newest(st.rows, cfg.lim.saved)),
                           recent := st.seen.recent, seen := st.seen.order))
  }

  predicate Duplicate(cfg: Config, st: State, m: Message) {
    var x := Incoming(cfg, m);
    x.id in st.seen.ids || Fallback(cfg, x) in st.seen.ids
  }

  function IdsOf(cfg: Config, m: Message): seq<string> {
    [Identified(cfg, m).id, Fallback(cfg, m)]
  }

  function RememberMessage(cfg: Config, s: Seen, m: Message): Seen
    requires cfg.Valid()
  {
    Remember(cfg.lim, Remember(cfg.lim, s, Identified(cfg, m).id), Fallback(cfg, m))
  }

  function Receive(cfg: Config, st: State, m: Message): State
    requires cfg.Valid()
  {
    var x := Incoming(cfg, m);
    var noted := st.(seen := RememberMessage(cfg, st.seen, x));
    if Duplicate(cfg, st, m) then noted else Persist(cfg, Append(cfg, Touch(noted, x.content), x))
  }

  function Refiltered(rows: seq<Row>, filter: Option<string>): (r: seq<Row>)
    ensures |r| == |rows|
  {
    if rows == [] then []
    else
      var n := |rows| - 1;
      Refiltered(rows[..n], filter) + [Row(rows[n].message, Hidden(filter, rows[n].message.content))]
  }

  function ClickChip(st: State, tag: string): State {
    var seen := if tag == ALL then st else st.(unread := st.unread - {tag});
    var filter := if tag == ALL then None else Some(tag);
    if filter == st.filter then seen else SaveChips(seen.(filter := filter, rows := Refiltered(st.rows, filter)))
  }

  function ClearAll(cfg: Config, st: State, confirmed: bool): State {
    if st.count > 0 && !confirmed then st else Persist(cfg, st.(rows := [], count := 0))
  }

  function Open(st: State, k: nat): State
    requires k < |st.rows|
  {
    st.(unread := st.unread - {ExtractLabel(st.rows[k].message.content)})
  }

  // ---------------------------------------------------------------- start

  /** The stored ids are remembered before the ring and the stored messages are looked at. */
  function ReloadWindow(cfg: Config, s: Settings): Seen
    requires cfg.Valid()
  {
    RememberAll(cfg.lim, Seen({}, [], Last(cfg.lim.recent, s.recent)), s.seen)
  }

  function PushRecent(cfg: Config, s: Seen, id: string): Seen {
    s.(recent := Last(cfg.lim.recent, s.recent + [id]))
  }

  function RememberStored(cfg: Config, s: Seen, messages: seq<Message>): Seen
    requires cfg.Valid()
  {
    if messages == [] then s
    else
      var s', m := RememberStored(cfg, s, messages[..|messages| - 1]), messages[|messages| - 1];
      RememberMessage(cfg, PushRecent(cfg, s', Identified(cfg, m).id), m)
  }

  function LoadSeen(cfg: Config, s: Settings): Seen
    requires cfg.Valid()
  {
    var reloaded := ReloadWindow(cfg, s);
    RememberStored(cfg, RememberAll(cfg.lim, reloaded, reloaded.recent), s.messages)
  }

  function LabelsOf(messages: seq<Message>): (r: seq<string>)
    ensures |r| == |messages|
  {
    if messages == [] then []
    else LabelsOf(messages[..|messages| - 1]) + [ExtractLabel(messages[|messages| - 1].content)]
  }

  lemma ReplayNext(labels: seq<string>, messages: seq<Message>, n: nat)
    requires n < |messages|
    ensures Replay(labels, LabelsOf(messages[..n + 1]))
         == MoveToFront(Replay(labels, LabelsOf(messages[..n])), ExtractLabel(messages[n].content))
  {
    assert messages[..n + 1][..n] == messages[..n];
    var before := LabelsOf(messages[..n]);
    assert LabelsOf(messages[..n + 1]) == before + [ExtractLabel(messages[n].content)];
    assert LabelsOf(messages[..n + 1])[..n] == before;
  }

  function AppendAll(cfg: Config, st: State, messages: seq<Message>): State {
    if messages == [] then st
    else Append(cfg, AppendAll(cfg, st, messages[..|messages| - 1]), messages[|messages| - 1])
  }

  function LoadChips(cfg: Config, s: Settings): State
    requires cfg.Valid()
  {
    var known := Replay(Parse(s.known), LabelsOf(s.messages));
    var st := State(LoadSeen(cfg, s), [], known, LoadedFilter(s.filter), {}, 0, s);
    if known != [] then SaveChips(st) else st
  }

  function Load(cfg: Config, s: Settings): State
    requires cfg.Valid()
  {
    AppendAll(cfg, LoadChips(cfg, s), s.messages)
  }
}
