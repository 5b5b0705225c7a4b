/** What a start makes of any stored settings, against plain queues of ids and lists of messages. */
module NotificationStart {
  import opened Options
  import opened SeenIds
  import opened SessionLabels
  import opened StoredChips
  import opened NotificationState
  import opened NotificationRuns
  import opened NotificationEvents

  /** The queue of seen ids and the ring of the ids remembered last. */
  datatype Queues = Queues(order: seq<string>, ring: seq<string>)

  /** A ring of `n` ids drops its oldest for a new one. */
  ghost function Ring(n: nat, ring: seq<string>, id: string): seq<string> {
    if n == 0 then [] else if |ring| < n then ring + [id] else ring[1..] + [id]
  }

  /** An id that is in the queue, or none, changes nothing. */
  ghost function Noted(lim: Limits, q: Queues, id: string): Queues {
    if id == "" || id in q.order then q else Queues(Ring(lim.seen, q.order, id), Ring(lim.recent, q.ring, id))
  }

  ghost function NotedAll(lim: Limits, q: Queues, ids: seq<string>): Queues {
    if ids == [] then q else Noted(lim, NotedAll(lim, q, ids[..|ids| - 1]), ids[|ids| - 1])
  }

  /** A stored message: its id goes to the ring whether known or not, then it and the derived id are noted. */
  ghost function NotedMessages(cfg: Config, q: Queues, messages: seq<Message>): Queues {
    if messages == [] then q
    else
      var before, m := NotedMessages(cfg, q, messages[..|messages| - 1]), messages[|messages| - 1];
      var derived := cfg.hash(m.channel, m.content, m.icon, m.timestamp);
      var id := if m.id == "" then derived else m.id;
      NotedAll(cfg.lim, before.(ring := Ring(cfg.lim.recent, before.ring, id)), [id, derived])
  }

  /** A window of seen ids that is these queues. */
  ghost predicate Is(lim: Limits, s: Seen, q: Queues) {
    Window(lim, s) && s.order == q.order && s.recent == q.ring
  }

  lemma NotedIs(lim: Limits, s: Seen, q: Queues, id: string)
    requires lim.Valid() && Is(lim, s, q)
    ensures Is(lim, Remember(lim, s, id), Noted(lim, q, id))
  {
    RememberPushes(lim, s, id);
  }

  lemma {:induction false} NotedAllIs(lim: Limits, s: Seen, q: Queues, ids: seq<string>)
    requires lim.Valid() && Is(lim, s, q)
    ensures Is(lim, RememberAll(lim, s, ids), NotedAll(lim, q, ids))
  {
    if ids != [] {
      NotedAllIs(lim, s, q, ids[..|ids| - 1]);
      NotedIs(lim, RememberAll(lim, s, ids[..|ids| - 1]), NotedAll(lim, q, ids[..|ids| - 1]), ids[|ids| - 1]);
    }
  }

  lemma {:induction false} NotedMessagesIs(cfg: Config, s: Seen, q: Queues, messages: seq<Message>)
    requires cfg.Valid() && Is(cfg.lim, s, q)
    ensures Is(cfg.lim, RememberStored(cfg, s, messages), NotedMessages(cfg, q, messages))
  {
    if messages != [] {
      var front, m := messages[..|messages| - 1], messages[|messages| - 1];
      NotedMessagesIs(cfg, s, q, front);
      NotedMessageIs(cfg, RememberStored(cfg, s, front), NotedMessages(cfg, q, front), m);
    }
  }

  lemma NotedMessageIs(cfg: Config, s: Seen, q: Queues, m: Message)
    requires cfg.Valid() && Is(cfg.lim, s, q)
    ensures var id, derived := Identified(cfg, m).id, Fallback(cfg, m);
            Is(cfg.lim, RememberMessage(cfg, PushRecent(cfg, s, id), m),
               NotedAll(cfg.lim, q.(ring := Ring(cfg.lim.recent, q.ring, id)), [id, derived]))
  {
    var id := Identified(cfg, m).id;
    RingDropsOldest(cfg.lim.recent, s.recent, id);
    MessageIsTwoIds(cfg, PushRecent(cfg, s, id), m);
    NotedAllIs(cfg.lim, PushRecent(cfg, s, id), q.(ring := Ring(cfg.lim.recent, q.ring, id)), IdsOf(cfg, m));
  }

  /** A start notes the stored queue, then what is in the ring by then, then the stored messages; it begins with as much
      of the stored ring as fits. */
  lemma WindowIsRead(cfg: Config, s: Settings)
    requires cfg.Valid()
    ensures var n, m := cfg.lim.recent, |s.recent|;
            var first := NotedAll(cfg.lim, Queues([], if m <= n then s.recent else s.recent[m - n..]), s.seen);
            var q := NotedMessages(cfg, NotedAll(cfg.lim, first, first.ring), s.messages);
            var seen := Load(cfg, s).seen;
            && seen.order == q.order && seen.recent == q.ring
            && forall id :: id in seen.ids <==> id in q.order
  {
    var empty := Seen({}, [], Last(cfg.lim.recent, s.recent));
    var q := Queues([], empty.recent);
    var first := NotedAll(cfg.lim, q, s.seen);
    NotedAllIs(cfg.lim, empty, q, s.seen);
    NotedAllIs(cfg.lim, ReloadWindow(cfg, s), first, first.ring);
    NotedMessagesIs(cfg, RememberAll(cfg.lim, ReloadWindow(cfg, s), first.ring),
                    NotedAll(cfg.lim, first, first.ring), s.messages);
    AppendAllFields(cfg, LoadChips(cfg, s), s.messages);
  }

  lemma {:induction false} AppendAllFields(cfg: Config, st: State, messages: seq<Message>)
    ensures var st' := AppendAll(cfg, st, messages);
            st'.(rows := st.rows, count := st.count) == st && st'.count == st.count + |messages|
  {
    if messages != [] {
      AppendAllFields(cfg, st, messages[..|messages| - 1]);
    }
  }

  lemma {:induction false} AppendAllShows(cfg: Config, st: State, messages: seq<Message>)
    requires st.rows == []
    ensures var rows, n := AppendAll(cfg, st, messages).rows, |messages|;
            |rows| == n && forall k :: 0 <= k < n ==> ShowsStored(cfg, st.filter, messages[n - 1 - k], rows[k])
  {
    if messages != [] {
      var n := |messages| - 1;
      AppendAllShows(cfg, st, messages[..n]);
      AppendAllFields(cfg, st, messages[..n]);
      var before := AppendAll(cfg, st, messages[..n]);
      forall k | 0 <= k <= n ensures ShowsStored(cfg, st.filter, messages[n - k], Append(cfg, before, messages[n]).rows[k]) {
        OneMoreShown(cfg, before, messages, k);
      }
    }
  }

  lemma OneMoreShown(cfg: Config, before: State, messages: seq<Message>, k: nat)
    requires messages != [] && k < |messages| == |before.rows| + 1
    requires k > 0 ==> ShowsStored(cfg, before.filter, messages[|messages| - 1 - k], before.rows[k - 1])
    ensures var rows := Append(cfg, before, messages[|messages| - 1]).rows;
            |rows| == |messages| && ShowsStored(cfg, before.filter, messages[|messages| - 1 - k], rows[k])
  {
  }

  /** A row that shows a stored message, with a derived id where it has none. */
  ghost predicate ShowsStored(cfg: Config, filter: Option<string>, m: Message, r: Row) {
    && r.message.channel == m.channel && r.message.content == m.content
    && r.message.icon == m.icon && r.message.timestamp == m.timestamp
    && r.message.id == (if m.id == "" then cfg.hash(m.channel, m.content, m.icon, m.timestamp) else m.id)
    && (r.hidden <==> filter != None && filter != Some(ExtractLabel(m.content)))
  }

  /** A start shows the stored messages, the last one on top, under the stored filter, with nothing unread. */
  lemma RowsAreRead(cfg: Config, s: Settings)
    requires cfg.Valid()
    ensures var st, n := Load(cfg, s), |s.messages|;
            && |st.rows| == st.count == n
            && (forall k :: 0 <= k < n ==> ShowsStored(cfg, st.filter, s.messages[n - 1 - k], st.rows[k]))
            && st.filter == (if s.filter == "" || s.filter == "__all__" then None else Some(s.filter))
            && st.unread == {}
            && st.saved.messages == s.messages && st.saved.recent == s.recent && st.saved.seen == s.seen
  {
    var st := LoadChips(cfg, s);
    FilterIsRead(cfg, s);
    AppendAllShows(cfg, st, s.messages);
    AppendAllFields(cfg, st, s.messages);
  }

  lemma FilterIsRead(cfg: Config, s: Settings)
    requires cfg.Valid()
    ensures var st := LoadChips(cfg, s);
            && st.rows == [] && st.count == 0 && st.unread == {}
            && st.filter == (if s.filter == "" || s.filter == "__all__" then None else Some(s.filter))
            && st.saved.messages == s.messages && st.saved.recent == s.recent && st.saved.seen == s.seen
  {
  }

  /** The chips of a start: the stored ones, with the label of each stored message moved to the front in turn. */
  ghost predicate ChipsAfter(chips: seq<string>, messages: seq<Message>, known: seq<string>)
    decreases |messages|
  {
    if messages == [] then known == chips
    else
      var front, l := messages[..|messages| - 1], ExtractLabel(messages[|messages| - 1].content);
      exists before :: ChipsAfter(chips, front, before) && ChipMoved(before, l, known)
  }

  lemma {:induction false} ReplayMovesChips(chips: seq<string>, messages: seq<Message>)
    ensures ChipsAfter(chips, messages, Replay(chips, LabelsOf(messages)))
  {
    if messages != [] {
      var n := |messages| - 1;
      ReplayMovesChips(chips, messages[..n]);
      assert messages[..n + 1] == messages;
      ReplayNext(chips, messages, n);
      ChipMoves(Replay(chips, LabelsOf(messages[..n])), ExtractLabel(messages[n].content));
    }
  }

  lemma ChipsAreRead(cfg: Config, s: Settings)
    requires cfg.Valid()
    ensures ChipsAfter(Parse(s.known), s.messages, Load(cfg, s).known)
  {
    ReplayMovesChips(Parse(s.known), s.messages);
    AppendAllFields(cfg, LoadChips(cfg, s), s.messages);
  }
}
