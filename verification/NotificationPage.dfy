/** The notification page as the program keeps it: an object whose fields its methods update. Every method is tied
    to a transition of the state. */
module NotificationPage {
  import opened Options
  import opened SeenIds
  import opened SessionLabels
  import opened StoredChips
  import opened NotificationState

  class Page {
    const cfg: Config
    var seenIds: set<string>
    var seenOrder: seq<string>
    var recentHashes: seq<string>
    var rows: seq<Row>
    var knownLabels: seq<string>
    var filterLabel: Option<string>
    var unreadLabels: set<string>
    var msgCount: nat
    var settings: Settings

    function SeenNow(): Seen reads this {
      Seen(seenIds, seenOrder, recentHashes)
    }

    function View(): State reads this {
      State(SeenNow(), rows, knownLabels, filterLabel, unreadLabels, msgCount, settings)
    }

    constructor (cfg: Config, s: Settings)
      requires cfg.Valid()
      ensures this.cfg == cfg && View() == Load(cfg, s)
    {
      this.cfg := cfg;
      seenIds, seenOrder, recentHashes := {}, [], Last(cfg.lim.recent, s.recent);
      rows, unreadLabels, msgCount, settings := [], {}, 0, s;
      knownLabels, filterLabel := Parse(s.known), LoadedFilter(s.filter);
      new;
      RestoreSeen(s);
      RestoreChips(s);
      AppendEach(s.messages);
    }

    method AppendEach(messages: seq<Message>)
      modifies this`rows, this`msgCount
      ensures View() == AppendAll(cfg, old(View()), messages)
    {
      var n := 0;
      while n < |messages|
        invariant 0 <= n <= |messages|
        invariant View() == AppendAll(cfg, old(View()), messages[..n])
      {
        assert messages[..n + 1][..n] == messages[..n];
        AppendItem(messages[n]);
        n := n + 1;
      }
      assert messages[..n] == messages;
    }

    /** The three loops that fill the window of seen ids at start. */
    method RestoreSeen(s: Settings)
      requires cfg.Valid() && SeenNow() == Seen({}, [], Last(cfg.lim.recent, s.recent))
      modifies this`seenIds, this`seenOrder, this`recentHashes
      ensures SeenNow() == LoadSeen(cfg, s)
    {
      RememberEach(s.seen);
      RememberEach(recentHashes);
      RememberMessages(s.messages);
    }

    method RememberMessages(messages: seq<Message>)
      requires cfg.Valid()
      modifies this`seenIds, this`seenOrder, this`recentHashes
      ensures SeenNow() == RememberStored(cfg, old(SeenNow()), messages)
    {
      var n := 0;
      while n < |messages|
        invariant 0 <= n <= |messages|
        invariant SeenNow() == RememberStored(cfg, old(SeenNow()), messages[..n])
      {
        assert messages[..n + 1][..n] == messages[..n];
        RestoreIds(messages[n]);
        n := n + 1;
      }
      assert messages[..n] == messages;
    }

    method RestoreIds(m: Message)
      requires cfg.Valid()
      modifies this`seenIds, this`seenOrder, this`recentHashes
      ensures SeenNow() == RememberMessage(cfg, PushRecent(cfg, old(SeenNow()), Identified(cfg, m).id), m)
    {
      var fallback := Fallback(cfg, m);
      var id := if m.id != "" then m.id else fallback;
      recentHashes := Last(cfg.lim.recent, recentHashes + [id]);
      RememberSeenId(id);
      RememberSeenId(fallback);
    }

    method RememberEach(ids: seq<string>)
      requires cfg.Valid()
      modifies this`seenIds, this`seenOrder, this`recentHashes
      ensures SeenNow() == RememberAll(cfg.lim, old(SeenNow()), ids)
    {
      var n := 0;
      while n < |ids|
        invariant 0 <= n <= |ids|
        invariant SeenNow() == RememberAll(cfg.lim, old(SeenNow()), ids[..n])
      {
        assert ids[..n + 1][..n] == ids[..n];
        RememberSeenId(ids[n]);
        n := n + 1;
      }
      assert ids[..n] == ids;
    }

    method RestoreChips(s: Settings)
      requires cfg.Valid() && View() == State(LoadSeen(cfg, s), [], Parse(s.known), LoadedFilter(s.filter), {}, 0, s)
      modifies this`knownLabels, this`settings
      ensures View() == LoadChips(cfg, s)
    {
      RestoreLabels(s.messages);
      if knownLabels != [] {
        PersistChipState();
      }
    }

    /** The chips of the stored messages are brought to the front one by one, oldest first. */
    method RestoreLabels(messages: seq<Message>)
      modifies this`knownLabels
      ensures knownLabels == Replay(old(knownLabels), LabelsOf(messages))
    {
      var n := 0;
      while n < |messages|
        invariant 0 <= n <= |messages|
        invariant knownLabels == Replay(old(knownLabels), LabelsOf(messages[..n]))
      {
        var l := ExtractLabel(messages[n].content);
        ReplayNext(old(knownLabels), messages, n);
        if !(|knownLabels| > 0 && knownLabels[0] == l) {
          knownLabels := [l] + RemoveFirst(knownLabels, l);
        }
        n := n + 1;
      }
      assert messages[..n] == messages;
    }

    method RememberSeenId(id: string)
      requires cfg.Valid()
      modifies this`seenIds, this`seenOrder, this`recentHashes
      ensures SeenNow() == Remember(cfg.lim, old(SeenNow()), id)
    {
      if id == "" || id in seenIds {
        return;
      }
      if |seenOrder| == cfg.lim.seen {
        seenIds := seenIds - {seenOrder[0]};
      }
      seenOrder := Last(cfg.lim.seen, seenOrder + [id]);
      seenIds := seenIds + {id};
      recentHashes := Last(cfg.lim.recent, recentHashes + [id]);
    }

    /** The message that is passed on to the desktop notification, if any. */
    method OnReceivedMsg(msg: Message, shouldNotify: bool) returns (emitted: Option<Message>)
      requires cfg.Valid()
      modifies this
      ensures View() == Receive(cfg, old(View()), msg)
      ensures var channel := if msg.channel == "" then "default" else msg.channel;
              var derived := cfg.hash(channel, msg.content, msg.icon, msg.timestamp);
              var id := if msg.id == "" then derived else msg.id;
              emitted == if shouldNotify && id !in old(seenIds) && derived !in old(seenIds)
                         then Some(Message(channel, msg.content, msg.icon, msg.timestamp, id)) else None
    {
      var channel := if msg.channel != "" then msg.channel else "default";
      var fallback := cfg.hash(channel, msg.content, msg.icon, msg.timestamp);
      var h := if msg.id != "" then msg.id else fallback;
      if h in seenIds || fallback in seenIds {
        RememberSeenId(h);
        RememberSeenId(fallback);
        return None;
      }
      RememberSeenId(h);
      RememberSeenId(fallback);
      TouchLabel(msg.content);
      AppendItem(Message(channel, msg.content, msg.icon, msg.timestamp, msg.id));
      PersistState();
      emitted := if shouldNotify then Some(Message(channel, msg.content, msg.icon, msg.timestamp, h)) else None;
    }

    method TouchLabel(content: string)
      modifies this`knownLabels, this`unreadLabels, this`settings
      ensures View() == Touch(old(View()), content)
    {
      var l := ExtractLabel(content);
      if |knownLabels| > 0 && knownLabels[0] == l {
        MarkUnread(l);
        return;
      }
      knownLabels := [l] + RemoveFirst(knownLabels, l);
      unreadLabels := unreadLabels + {l};
      PersistChipState();
    }

    method MarkUnread(l: string)
      modifies this`unreadLabels
      ensures unreadLabels == old(unreadLabels) + if l == ALL then {} else {l}
    {
      if l != ALL {
        unreadLabels := unreadLabels + {l};
      }
    }

    method ClearUnread(l: string)
      modifies this`unreadLabels
      ensures unreadLabels == old(unreadLabels) - {l}
    {
      if l in unreadLabels {
        unreadLabels := unreadLabels - {l};
      }
    }

    method AppendItem(m: Message)
      modifies this`rows, this`msgCount
      ensures View() == Append(cfg, old(View()), m)
    {
      var id := if m.id != "" then m.id else Fallback(cfg, m);
      rows := [Row(m.(id := id), !MatchesCurrentFilter(m.content))] + rows;
      msgCount := msgCount + 1;
    }

    predicate MatchesCurrentFilter(content: string) reads this {
      filterLabel.None? || ExtractLabel(content) == filterLabel.value
    }

    method PersistState()
      modifies this`settings
      ensures View() == Persist(cfg, old(View()))
    {
      var limit := if |rows| <= cfg.lim.saved then |rows| else cfg.lim.saved;
      var messages, i := [], limit;
      while i > 0
        invariant 0 <= i <= limit
        invariant messages == OldestFirst(rows[i..limit])
      {
        i := i - 1;
        assert rows[i..limit][1..] == rows[i + 1..limit];
        messages := messages + [rows[i].message];
      }
      assert rows[0..limit] == Newest(rows, cfg.lim.saved);
      settings := settings.(messages := messages, recent := recentHashes, seen := seenOrder);
    }

    method PersistChipState()
      modifies this`settings
      ensures View() == SaveChips(old(View()))
    {
      settings := settings.(known := Join(knownLabels), filter := SavedFilter(filterLabel));
    }

    method OnChipClicked(tag: string)
      modifies this
      ensures View() == ClickChip(old(View()), tag)
      ensures filterLabel == if tag == "__all__" then None else Some(tag)
      ensures unreadLabels == if tag == "__all__" then old(unreadLabels) else old(unreadLabels) - {tag}
      ensures |rows| == |old(rows)| && forall k :: 0 <= k < |rows| ==> rows[k].message == old(rows)[k].message
      ensures (forall k :: 0 <= k < |old(rows)| ==> old(rows)[k].hidden == !old(MatchesCurrentFilter(rows[k].message.content)))
          ==> forall k :: 0 <= k < |rows| ==>
                (rows[k].hidden <==> tag != "__all__" && ExtractLabel(rows[k].message.content) != tag)
    {
      if tag != ALL {
        ClearUnread(tag);
      }
      var newFilter := if tag == ALL then None else Some(tag);
      if newFilter == filterLabel {
        return;
      }
      filterLabel := newFilter;
      ApplyFilterAll();
      PersistChipState();
    }

    method ApplyFilterAll()
      modifies this`rows
      ensures rows == Refiltered(old(rows), filterLabel)
      ensures |rows| == |old(rows)|
      ensures forall k :: 0 <= k < |rows| ==>
                rows[k] == Row(old(rows)[k].message, !MatchesCurrentFilter(old(rows)[k].message.content))
    {
      var i := 0;
      while i < |rows|
        invariant 0 <= i <= |rows| == |old(rows)|
        invariant rows[..i] == Refiltered(old(rows)[..i], filterLabel) && rows[i..] == old(rows)[i..]
        invariant forall k :: 0 <= k < i ==>
                    rows[k] == Row(old(rows)[k].message, !MatchesCurrentFilter(old(rows)[k].message.content))
      {
        assert old(rows)[..i + 1][..i] == old(rows)[..i];
        assert rows[i] == rows[i..][0] == old(rows)[i];
        var row := rows[i];
        rows := rows[i := Row(row.message, !MatchesCurrentFilter(row.message.content))];
        i := i + 1;
      }
      assert rows[..i] == rows && old(rows)[..i] == old(rows);
    }

    method ClearAllMessages(confirmed: bool)
      modifies this
      ensures View() == ClearAll(cfg, old(View()), confirmed)
    {
      if msgCount > 0 && !confirmed {
        return;
      }
      rows, msgCount := [], 0;
      PersistState();
    }

    /** Opens the newest row with this id. */
    method OpenMessageById(id: string) returns (found: bool)
      modifies this`unreadLabels
      ensures found <==> id != "" && exists k :: 0 <= k < |rows| && rows[k].message.id == id
      ensures !found ==> unreadLabels == old(unreadLabels)
      ensures found ==> exists k ::
                  && 0 <= k < |rows| && rows[k].message.id == id
                  && (forall j :: 0 <= j < k ==> rows[j].message.id != id)
                  && View() == Open(old(View()), k)
                  && unreadLabels == old(unreadLabels) - {ExtractLabel(rows[k].message.content)}
    {
      if id == "" {
        return false;
      }
      var i := 0;
      while i < |rows|
        invariant 0 <= i <= |rows|
        invariant forall j :: 0 <= j < i ==> rows[j].message.id != id
      {
        if rows[i].message.id == id {
          ClearUnread(ExtractLabel(rows[i].message.content));
          assert View() == Open(old(View()), i);
          return true;
        }
        i := i + 1;
      }
      found := false;
    }
  }
}
