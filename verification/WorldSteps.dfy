/** The shared world: players on maps, one message queue per player, and what a client that replays its queue sees. */
module WorldSteps {
  import opened Common

  /** Name, look, account and the rest of what others are shown, apart from the position. */
  type Appearance = int

  datatype Player = Player(characterId: int, channel: nat, appearance: Appearance, cellId: int)

  datatype Message = ShowActor(player: Player) | RemoveActor(characterId: int) | OtherMessage(payload: int)

  type Players = map<int, Player>
  type Queues = map<nat, seq<Message>>

  datatype State = State(maps: map<int, Players>, queues: Queues)

  // ---- Steps: each runs under the lock of the map table ----

  function PlayersOn(s: State, mapId: int): Players {
    if mapId in s.maps then s.maps[mapId] else map[]
  }

  function QueueOf(q: Queues, channel: nat): seq<Message> {
    if channel in q then q[channel] else []
  }

  function Listeners(players: Players, channel: nat): set<int> {
    set id | id in players && players[id].channel == channel
  }

  function Channels(players: Players): set<nat> {
    set id | id in players :: players[id].channel
  }

  function Copies(m: Message, n: nat): seq<Message> {
    seq(n, _ => m)
  }

  /** Every player gets one copy in its queue. */
  function Deliver(q: Queues, players: Players, m: Message): Queues {
    map channel | channel in q.Keys + Channels(players) ::
      QueueOf(q, channel) + Copies(m, |Listeners(players, channel)|)
  }

  datatype Event =
    | Join(mapId: int, player: Player)
    | Leave(mapId: int, characterId: int)
    | MoveTo(mapId: int, characterId: int, cellId: int)
    | Broadcast(mapId: int, payload: int)

  function Apply(s: State, e: Event): State {
    match e
    case Join(mapId, player) =>
      State(s.maps[mapId := PlayersOn(s, mapId)[player.characterId := player]],
            Deliver(s.queues, PlayersOn(s, mapId), ShowActor(player)))
    case Leave(mapId, id) =>
      if mapId !in s.maps then s
      else
        var left := s.maps[mapId] - {id};
        State(if left == map[] then s.maps - {mapId} else s.maps[mapId := left],
              Deliver(s.queues, left, RemoveActor(id)))
    case MoveTo(mapId, id, cell) =>
      if mapId in s.maps && id in s.maps[mapId] then
        s.(maps := s.maps[mapId := s.maps[mapId][id := s.maps[mapId][id].(cellId := cell)]])
      else s
    case Broadcast(mapId, payload) =>
      s.(queues := Deliver(s.queues, PlayersOn(s, mapId), OtherMessage(payload)))
  }

  function ApplyAll(s: State, events: seq<Event>): State {
    if events == [] then s else Apply(ApplyAll(s, events[..|events| - 1]), events[|events| - 1])
  }

  // ---- What a step does to each player and each queue ----

  function PlayerAt(s: State, mapId: int, id: int): Option<Player> {
    if mapId in s.maps && id in s.maps[mapId] then Some(s.maps[mapId][id]) else None
  }

  /** A join puts exactly that player on that map, a leave takes it off, a move changes its cell, a message nothing. */
  lemma StepPlayers(s: State, e: Event, m: int, id: int)
    ensures PlayerAt(Apply(s, e), m, id) ==
            match e
            case Join(mapId, player) =>
              if m == mapId && id == player.characterId then Some(player) else PlayerAt(s, m, id)
            case Leave(mapId, left) => if m == mapId && id == left then None else PlayerAt(s, m, id)
            case MoveTo(mapId, moved, cell) =>
              (match PlayerAt(s, m, id)
               case None => None
               case Some(p) =>
                 if m == mapId && id == moved then Some(Player(p.characterId, p.channel, p.appearance, cell))
                 else Some(p))
            case Broadcast(_, _) => PlayerAt(s, m, id)
  {
    hide Deliver;
    if e.Leave? && m == e.mapId && PlayerAt(s, m, id).Some? && id != e.characterId {
      assert id in s.maps[m] - {e.characterId};
    }
  }

  /** The players who hear of a step. */
  predicate Hears(s: State, e: Event, m: int, id: int) {
    PlayerAt(s, m, id).Some? &&
    match e
    case Join(mapId, _) => m == mapId
    case Leave(mapId, left) => m == mapId && id != left
    case MoveTo(_, _, _) => false
    case Broadcast(mapId, _) => m == mapId
  }

  /** What they hear. */
  function News(e: Event): Message {
    match e
    case Join(_, player) => ShowActor(player)
    case Leave(_, id) => RemoveActor(id)
    case MoveTo(_, _, _) => OtherMessage(0)
    case Broadcast(_, payload) => OtherMessage(payload)
  }

  function MapOf(e: Event): int {
    match e
    case Join(mapId, _) => mapId
    case Leave(mapId, _) => mapId
    case MoveTo(mapId, _, _) => mapId
    case Broadcast(mapId, _) => mapId
  }

  function Hearers(s: State, e: Event, channel: nat): set<int> {
    set id | id in PlayersOn(s, MapOf(e)) && Hears(s, e, MapOf(e), id) &&
             PlayersOn(s, MapOf(e))[id].channel == channel
  }

  /** Every queue grows by one copy of the news for each player with that channel who hears it. */
  lemma StepQueues(s: State, e: Event, channel: nat)
    ensures |QueueOf(Apply(s, e).queues, channel)| == |QueueOf(s.queues, channel)| + |Hearers(s, e, channel)|
    ensures QueueOf(s.queues, channel) <= QueueOf(Apply(s, e).queues, channel)
    ensures forall k :: |QueueOf(s.queues, channel)| <= k < |QueueOf(Apply(s, e).queues, channel)| ==>
              QueueOf(Apply(s, e).queues, channel)[k] == News(e)
  {
    hide Deliver, QueueOf;
    var players := if e.Leave? then PlayersOn(s, MapOf(e)) - {e.characterId} else PlayersOn(s, MapOf(e));
    if e.MoveTo? {
      assert Hearers(s, e, channel) == {};
    } else if e.Leave? && e.mapId !in s.maps {
      assert Hearers(s, e, channel) == {};
    } else {
      DeliverTo(s.queues, players, News(e), channel);
      forall id ensures id in Hearers(s, e, channel) <==> id in Listeners(players, channel) {
      }
      assert Hearers(s, e, channel) == Listeners(players, channel);
    }
  }

  // ---- No empty map entry survives a step ----

  ghost predicate NoEmptyMaps(s: State) {
    forall mapId :: mapId in s.maps ==> s.maps[mapId] != map[]
  }

  lemma StepKeepsNoEmptyMaps(s: State, e: Event)
    requires NoEmptyMaps(s)
    ensures NoEmptyMaps(Apply(s, e))
  {
    hide Deliver;
    match e
    case Join(mapId, player) =>
      assert player.characterId in PlayersOn(s, mapId)[player.characterId := player];
    case MoveTo(mapId, id, cell) =>
      if mapId in s.maps && id in s.maps[mapId] {
        assert id in s.maps[mapId][id := s.maps[mapId][id].(cellId := cell)];
      }
    case _ =>
  }

  lemma {:induction false} RunKeepsNoEmptyMaps(s: State, events: seq<Event>)
    requires NoEmptyMaps(s)
    ensures NoEmptyMaps(ApplyAll(s, events))
  {
    hide Apply, NoEmptyMaps;
    if events != [] {
      RunKeepsNoEmptyMaps(s, events[..|events| - 1]);
      StepKeepsNoEmptyMaps(ApplyAll(s, events[..|events| - 1]), events[|events| - 1]);
    }
  }

  // ---- What a client sees ----

  type View = map<int, Appearance>

  function Snapshot(players: Players): View {
    map id | id in players :: players[id].appearance
  }

  function Show(view: View, m: Message): View {
    match m
    case ShowActor(player) => view[player.characterId := player.appearance]
    case RemoveActor(id) => view - {id}
    case OtherMessage(_) => view
  }

  function Replay(view: View, messages: seq<Message>): View {
    if messages == [] then view else Show(Replay(view, messages[..|messages| - 1]), messages[|messages| - 1])
  }

  /** What the messages say about one character in the end, if they say anything. */
  datatype Verdict = Silent | Present(appearance: Appearance) | Gone

  function VerdictOf(m: Message, id: int): Verdict {
    match m
    case ShowActor(player) => if player.characterId == id then Present(player.appearance) else Silent
    case RemoveActor(c) => if c == id then Gone else Silent
    case OtherMessage(_) => Silent
  }

  function LastVerdict(messages: seq<Message>, id: int): Verdict {
    if messages == [] then Silent
    else
      var last := VerdictOf(messages[|messages| - 1], id);
      if last.Silent? then LastVerdict(messages[..|messages| - 1], id) else last
  }

  function At(view: View, id: int): Verdict {
    if id in view then Present(view[id]) else Gone
  }

  /** Replaying leaves for each character what the last message about it says. */
  lemma {:induction false} ReplayByVerdict(view: View, messages: seq<Message>, id: int)
    ensures At(Replay(view, messages), id) ==
            if LastVerdict(messages, id).Silent? then At(view, id) else LastVerdict(messages, id)
  {
    if messages != [] {
      ReplayByVerdict(view, messages[..|messages| - 1], id);
    }
  }

  lemma {:induction false} VerdictOfJoined(a: seq<Message>, b: seq<Message>, id: int)
    ensures LastVerdict(a + b, id) == if LastVerdict(b, id).Silent? then LastVerdict(a, id) else LastVerdict(b, id)
  {
    hide VerdictOf;
    if b == [] {
      assert a + b == a;
    } else {
      assert (a + b)[..|a + b| - 1] == a + b[..|b| - 1];
      VerdictOfJoined(a, b[..|b| - 1], id);
    }
  }

  lemma ViewsEqual(a: View, b: View)
    requires forall id :: At(a, id) == At(b, id)
    ensures a == b
  {
    forall id ensures id in a <==> id in b {
      assert At(a, id) == At(b, id);
    }
    forall id | id in a ensures a[id] == b[id] {
      assert At(a, id) == At(b, id);
    }
  }

  // ---- The watched player ----

  /** p is on the map, and its channel belongs to nobody else. */
  ghost predicate Watching(s: State, mapId: int, p: Player) {
    && mapId in s.maps && p.characterId in s.maps[mapId]
    && forall m, id :: m in s.maps && id in s.maps[m] ==>
         (s.maps[m][id].channel == p.channel <==> m == mapId && id == p.characterId)
  }

  /** A step by somebody else. */
  ghost predicate Foreign(e: Event, mapId: int, p: Player) {
    match e
    case Join(m, player) => player.channel != p.channel && !(m == mapId && player.characterId == p.characterId)
    case Leave(m, id) => !(m == mapId && id == p.characterId)
    case MoveTo(_, _, _) => true
    case Broadcast(_, _) => true
  }

  /** The message that a step puts into the queue of a player watching the map. */
  function MessageOf(s: State, e: Event, mapId: int): seq<Message> {
    if e.mapId != mapId then []
    else match e
      case Join(_, player) => [ShowActor(player)]
      case Leave(_, id) => [RemoveActor(id)]
      case MoveTo(_, _, _) => []
      case Broadcast(_, payload) => [OtherMessage(payload)]
  }

  lemma NoListener(players: Players, channel: nat)
    requires forall id :: id in players ==> players[id].channel != channel
    ensures Listeners(players, channel) == {}
  {
    forall id ensures id !in Listeners(players, channel) {
    }
  }

  lemma DeliverTo(q: Queues, players: Players, m: Message, channel: nat)
    ensures QueueOf(Deliver(q, players, m), channel) == QueueOf(q, channel) + Copies(m, |Listeners(players, channel)|)
  {
    if channel !in q.Keys + Channels(players) {
      forall id | id in players ensures players[id].channel != channel {
        assert players[id].channel in Channels(players);
      }
      NoListener(players, channel);
      assert Copies(m, 0) == [];
    }
  }

  lemma OnlyListener(players: Players, channel: nat, self: int)
    requires forall id :: id in players ==> (players[id].channel == channel <==> id == self)
    ensures Listeners(players, channel) == if self in players then {self} else {}
  {
    forall id ensures id in Listeners(players, channel) <==> id in players && id == self {
      if id in players {
        assert players[id].channel == channel <==> id == self;
      }
    }
  }

  lemma ForeignKeepsWatching(s: State, e: Event, mapId: int, p: Player)
    requires Watching(s, mapId, p) && Foreign(e, mapId, p)
    ensures Watching(Apply(s, e), mapId, p)
  {
    hide Deliver;
    match e
    case Leave(m, id) =>
      if m in s.maps {
        assert m == mapId ==> p.characterId in s.maps[m] - {id};
      }
    case _ =>
  }

  /** What one foreign step does to the watcher's queue. */
  lemma ForeignQueue(s: State, e: Event, mapId: int, p: Player)
    requires Watching(s, mapId, p) && Foreign(e, mapId, p)
    ensures QueueOf(Apply(s, e).queues, p.channel) == QueueOf(s.queues, p.channel) + MessageOf(s, e, mapId)
  {
    hide Deliver;
    match e
    case Join(m, player) =>
      SentOnce(s, PlayersOn(s, m), ShowActor(player), m, mapId, p);
    case Leave(m, id) =>
      if m in s.maps {
        SentOnce(s, s.maps[m] - {id}, RemoveActor(id), m, mapId, p);
      }
    case Broadcast(m, payload) =>
      SentOnce(s, PlayersOn(s, m), OtherMessage(payload), m, mapId, p);
    case MoveTo(_, _, _) =>
  }

  /** A message to the players of map m reaches the watcher once if it watches m, and otherwise not at all. */
  lemma SentOnce(s: State, players: Players, message: Message, m: int, mapId: int, p: Player)
    requires Watching(s, mapId, p)
    requires forall id :: id in players ==> m in s.maps && id in s.maps[m] && players[id] == s.maps[m][id]
    requires m == mapId ==> p.characterId in players
    ensures QueueOf(Deliver(s.queues, players, message), p.channel) ==
            QueueOf(s.queues, p.channel) + if m == mapId then [message] else []
  {
    hide Deliver;
    DeliverTo(s.queues, players, message, p.channel);
    if m == mapId {
      OnlyListener(players, p.channel, p.characterId);
      assert Copies(message, 1) == [message];
    } else {
      NoListener(players, p.channel);
      assert Copies(message, 0) == [];
    }
  }

  /** The map's membership follows the messages sent to the watcher. */
  lemma ForeignView(s: State, e: Event, mapId: int, p: Player)
    requires Watching(s, mapId, p) && Foreign(e, mapId, p)
    ensures Snapshot(PlayersOn(Apply(s, e), mapId)) == Replay(Snapshot(PlayersOn(s, mapId)), MessageOf(s, e, mapId))
  {
    hide Deliver;
    var view := Snapshot(PlayersOn(s, mapId));
    var messages := MessageOf(s, e, mapId);
    if messages != [] {
      assert messages[..0] == [];
      assert Replay(view, messages) == Show(view, messages[0]);
    }
    match e
    case Leave(m, id) =>
      if m == mapId {
        assert p.characterId in s.maps[m] - {id};
      }
    case MoveTo(m, id, cell) =>
      if m == mapId && m in s.maps && id in s.maps[m] {
        assert Snapshot(s.maps[m][id := s.maps[m][id].(cellId := cell)]) == Snapshot(s.maps[m]);
      }
    case _ =>
  }

  ghost predicate AllForeign(events: seq<Event>, mapId: int, p: Player) {
    forall i :: 0 <= i < |events| ==> Foreign(events[i], mapId, p)
  }

  lemma {:induction false} ReplayJoined(view: View, a: seq<Message>, b: seq<Message>)
    ensures Replay(view, a + b) == Replay(Replay(view, a), b)
  {
    hide Show;
    if b == [] {
      assert a + b == a;
    } else {
      assert (a + b)[..|a + b| - 1] == a + b[..|b| - 1];
      ReplayJoined(view, a, b[..|b| - 1]);
    }
  }

  /** Over any run of foreign steps the watcher's queue grows by messages that turn the old membership into the new
      one. */
  lemma {:induction false} RunView(s: State, events: seq<Event>, mapId: int, p: Player) returns (news: seq<Message>)
    requires Watching(s, mapId, p) && AllForeign(events, mapId, p)
    ensures Watching(ApplyAll(s, events), mapId, p)
    ensures QueueOf(ApplyAll(s, events).queues, p.channel) == QueueOf(s.queues, p.channel) + news
    ensures Snapshot(PlayersOn(ApplyAll(s, events), mapId)) == Replay(Snapshot(PlayersOn(s, mapId)), news)
  {
    hide Apply, Watching, Foreign, Show, QueueOf, PlayersOn, Snapshot;
    if events == [] {
      news := [];
      assert QueueOf(s.queues, p.channel) + [] == QueueOf(s.queues, p.channel);
    } else {
      var before, e := events[..|events| - 1], events[|events| - 1];
      var early := RunView(s, before, mapId, p);
      var t := ApplyAll(s, before);
      assert Foreign(e, mapId, p);
      ForeignKeepsWatching(t, e, mapId, p);
      ForeignQueue(t, e, mapId, p);
      ForeignView(t, e, mapId, p);
      var last := MessageOf(t, e, mapId);
      news := early + last;
      ReplayJoined(Snapshot(PlayersOn(s, mapId)), early, last);
      assert QueueOf(s.queues, p.channel) + early + last == QueueOf(s.queues, p.channel) + news;
    }
  }

  /** Nobody uses the channel; old messages may still wait in it. */
  ghost predicate Unused(s: State, channel: nat) {
    forall m, id :: m in s.maps && id in s.maps[m] ==> s.maps[m][id].channel != channel
  }

  lemma JoinStartsWatching(s: State, mapId: int, p: Player)
    requires Unused(s, p.channel)
    ensures Watching(Apply(s, Join(mapId, p)), mapId, p)
    ensures QueueOf(Apply(s, Join(mapId, p)).queues, p.channel) == QueueOf(s.queues, p.channel)
  {
    hide Deliver;
    DeliverTo(s.queues, PlayersOn(s, mapId), ShowActor(p), p.channel);
    NoListener(PlayersOn(s, mapId), p.channel);
    assert Copies(ShowActor(p), 0) == [];
  }

  // ---- Join, snapshot later, replay the whole queue later still ----

  /** The client's view after replaying everything that waits in its queue onto a snapshot taken earlier. */
  ghost function ViewAfter(joined: State, mapId: int, p: Player, untilSnapshot: seq<Event>, untilReplay: seq<Event>)
    : View
  {
    var seen := ApplyAll(joined, untilSnapshot);
    Replay(Snapshot(PlayersOn(seen, mapId)), QueueOf(ApplyAll(seen, untilReplay).queues, p.channel))
  }

  ghost predicate Converges(joined: State, mapId: int, p: Player, untilSnapshot: seq<Event>, untilReplay: seq<Event>) {
    ViewAfter(joined, mapId, p, untilSnapshot, untilReplay)
    == Snapshot(PlayersOn(ApplyAll(ApplyAll(joined, untilSnapshot), untilReplay), mapId))
  }

  ghost predicate AlwaysConverges(joined: State, mapId: int, p: Player) {
    forall untilSnapshot, untilReplay | AllForeign(untilSnapshot, mapId, p) && AllForeign(untilReplay, mapId, p) ::
      Converges(joined, mapId, p, untilSnapshot, untilReplay)
  }

  /** What the backlog last says of a character is silence, is overruled by the news, or is how the view has it. */
  ghost predicate HarmlessFor(backlog: seq<Message>, news: seq<Message>, view: View, id: int) {
    || LastVerdict(backlog, id).Silent?
    || !LastVerdict(news, id).Silent?
    || LastVerdict(backlog, id) == At(view, id)
  }

  ghost predicate Harmless(backlog: seq<Message>, view: View) {
    forall id :: HarmlessFor(backlog, [], view, id)
  }

  /** Replaying a backlog in front of the news that lead from a view to a later one. */
  lemma ReplayBacklog(view: View, backlog: seq<Message>, early: seq<Message>, late: seq<Message>)
    ensures Replay(Replay(view, early), backlog + (early + late)) == Replay(view, early + late) <==>
            forall id :: HarmlessFor(backlog, early + late, view, id)
  {
    hide Replay, LastVerdict, At;
    var a, b := Replay(Replay(view, early), backlog + (early + late)), Replay(view, early + late);
    forall id ensures At(a, id) == At(b, id) <==> HarmlessFor(backlog, early + late, view, id) {
      ReplayByVerdict(Replay(view, early), backlog + (early + late), id);
      ReplayByVerdict(view, early + late, id);
      ReplayByVerdict(view, early, id);
      VerdictOfJoined(early, late, id);
      VerdictOfJoined(backlog, early + late, id);
    }
    if forall id :: HarmlessFor(backlog, early + late, view, id) {
      ViewsEqual(a, b);
    }
  }

  /** One run: with the news since the join known, the view converges exactly when the backlog is harmless beside
      them. */
  lemma RunConverges(s: State, mapId: int, p: Player, untilSnapshot: seq<Event>, untilReplay: seq<Event>)
    returns (news: seq<Message>)
    requires Unused(s, p.channel)
    requires AllForeign(untilSnapshot, mapId, p) && AllForeign(untilReplay, mapId, p)
    ensures var joined := Apply(s, Join(mapId, p));
            var now := ApplyAll(ApplyAll(joined, untilSnapshot), untilReplay);
            && QueueOf(now.queues, p.channel) == QueueOf(s.queues, p.channel) + news
            && (Converges(joined, mapId, p, untilSnapshot, untilReplay) <==>
                forall id :: HarmlessFor(QueueOf(s.queues, p.channel), news, Snapshot(PlayersOn(joined, mapId)), id))
  {
    hide Apply, Replay, Snapshot, PlayersOn, AllForeign, Watching, QueueOf, Unused, HarmlessFor;
    var joined := Apply(s, Join(mapId, p));
    var backlog := QueueOf(s.queues, p.channel);
    JoinStartsWatching(s, mapId, p);
    var early := RunView(joined, untilSnapshot, mapId, p);
    var seen := ApplyAll(joined, untilSnapshot);
    var late := RunView(seen, untilReplay, mapId, p);
    news := early + late;
    assert backlog + early + late == backlog + news;
    ReplayBacklog(Snapshot(PlayersOn(joined, mapId)), backlog, early, late);
    ReplayJoined(Snapshot(PlayersOn(joined, mapId)), early, late);
  }

  /** Main result: whatever the others do, the view ends as the map, exactly when the messages still queued at the join
      say nothing that the map just joined contradicts. */
  lemma ViewConverges(s: State, mapId: int, p: Player)
    requires Unused(s, p.channel)
    ensures AlwaysConverges(Apply(s, Join(mapId, p)), mapId, p) <==>
            Harmless(QueueOf(s.queues, p.channel), Snapshot(PlayersOn(Apply(s, Join(mapId, p)), mapId)))
  {
    hide Apply, Snapshot, PlayersOn, AllForeign, QueueOf, Unused, Converges, LastVerdict, At;
    var joined := Apply(s, Join(mapId, p));
    var backlog, view := QueueOf(s.queues, p.channel), Snapshot(PlayersOn(joined, mapId));
    if Harmless(backlog, view) {
      forall untilSnapshot, untilReplay | AllForeign(untilSnapshot, mapId, p) && AllForeign(untilReplay, mapId, p)
        ensures Converges(joined, mapId, p, untilSnapshot, untilReplay)
      {
        var news := RunConverges(s, mapId, p, untilSnapshot, untilReplay);
        forall id ensures HarmlessFor(backlog, news, view, id) {
          assert HarmlessFor(backlog, [], view, id);
          NothingSaid(id);
        }
      }
    }
    if AlwaysConverges(joined, mapId, p) {
      NobodyActs(mapId, p);
      var news := RunConverges(s, mapId, p, [], []);
      assert Converges(joined, mapId, p, [], []);
      JoinStartsWatching(s, mapId, p);
      QuietQueue(joined, s.queues, p, news);
    }
  }

  lemma NothingSaid(id: int)
    ensures LastVerdict([], id).Silent?
  {
  }

  lemma NobodyActs(mapId: int, p: Player)
    ensures AllForeign([], mapId, p)
  {
  }

  lemma QuietQueue(joined: State, before: Queues, p: Player, news: seq<Message>)
    requires QueueOf(ApplyAll(ApplyAll(joined, []), []).queues, p.channel) == QueueOf(before, p.channel) + news
    requires QueueOf(joined.queues, p.channel) == QueueOf(before, p.channel)
    ensures news == []
  {
  }

  /** Nothing queued: the view always converges. */
  lemma EmptyQueueConverges(s: State, mapId: int, p: Player)
    requires Unused(s, p.channel) && QueueOf(s.queues, p.channel) == []
    ensures AlwaysConverges(Apply(s, Join(mapId, p)), mapId, p)
  {
    hide Apply, Snapshot, PlayersOn, AlwaysConverges, Unused, At;
    ViewConverges(s, mapId, p);
    forall id ensures LastVerdict([], id).Silent? {
      NothingSaid(id);
    }
  }

  // ---- Map transitions: leave one map and join the next one with the same channel ----

  /** After leaving, the channel is free again; what waits in it stays. */
  lemma LeaveFreesChannel(s: State, mapId: int, p: Player)
    requires Watching(s, mapId, p)
    ensures Unused(Apply(s, Leave(mapId, p.characterId)), p.channel)
    ensures QueueOf(Apply(s, Leave(mapId, p.characterId)).queues, p.channel) == QueueOf(s.queues, p.channel)
  {
    hide Deliver;
    var left := s.maps[mapId] - {p.characterId};
    DeliverTo(s.queues, left, RemoveActor(p.characterId), p.channel);
    NoListener(left, p.channel);
    assert Copies(RemoveActor(p.characterId), 0) == [];
  }

  /** A transition converges exactly when nothing left in the queue from the old map contradicts the new one. */
  lemma TransitionConverges(s: State, from: int, to: int, p: Player, arrived: Player)
    requires Watching(s, from, p) && arrived.channel == p.channel && arrived.characterId == p.characterId
    ensures var joined := Apply(Apply(s, Leave(from, p.characterId)), Join(to, arrived));
            AlwaysConverges(joined, to, arrived) <==>
            Harmless(QueueOf(s.queues, p.channel), Snapshot(PlayersOn(joined, to)))
  {
    hide Apply, Snapshot, PlayersOn, AlwaysConverges, Harmless, Unused, Watching, QueueOf;
    LeaveFreesChannel(s, from, p);
    ViewConverges(Apply(s, Leave(from, p.characterId)), to, arrived);
  }

  const ALICE := Player(1, 1, 10, 0)
  const BOB := Player(2, 2, 20, 0)

  lemma ThreeSteps(s: State, a: Event, b: Event, c: Event)
    ensures ApplyAll(s, [a, b, c]) == Apply(Apply(Apply(s, a), b), c)
  {
    hide Apply;
    assert [a, b, c][..2] == [a, b] && [a, b][..1] == [a] && [a][..0] == [];
    assert ApplyAll(s, [a, b]) == Apply(ApplyAll(s, [a]), b);
  }

  lemma MeetingQueued()
    ensures var met := Apply(State(map[1 := map[1 := ALICE]], map[]), Join(1, BOB));
            && met.maps == map[1 := map[1 := ALICE, 2 := BOB]]
            && Watching(met, 1, ALICE) && QueueOf(met.queues, 1) == [ShowActor(BOB)]
  {
    hide Deliver;
    DeliverTo(map[], map[1 := ALICE], ShowActor(BOB), 1);
    OnlyListener(map[1 := ALICE], 1, 1);
    assert Copies(ShowActor(BOB), 1) == [ShowActor(BOB)];
  }

  lemma BobIsShown(view: View)
    requires 2 !in view
    ensures 2 in Replay(view, [ShowActor(BOB)])
    ensures !Harmless([ShowActor(BOB)], view)
  {
    assert [ShowActor(BOB)][..0] == [];
    assert LastVerdict([ShowActor(BOB)], 2) == Present(20);
    NothingSaid(2);
    assert !HarmlessFor([ShowActor(BOB)], [], view, 2);
  }

  /** Alice stands alone on map 1. Bob joins her, she goes to map 2 before reading that: her view then shows Bob
      there. */
  lemma BacklogMisleads()
    ensures var start := State(map[1 := map[1 := ALICE]], map[]);
            var joined := ApplyAll(start, [Join(1, BOB), Leave(1, 1), Join(2, ALICE)]);
            && 2 in ViewAfter(joined, 2, ALICE, [], []) && 2 !in PlayersOn(joined, 2)
            && !AlwaysConverges(joined, 2, ALICE)
  {
    hide Deliver, AlwaysConverges, Harmless, Replay, Watching, Unused, QueueOf;
    var start := State(map[1 := map[1 := ALICE]], map[]);
    ThreeSteps(start, Join(1, BOB), Leave(1, 1), Join(2, ALICE));
    MeetingQueued();
    var met := Apply(start, Join(1, BOB));
    LeaveFreesChannel(met, 1, ALICE);
    var left := Apply(met, Leave(1, 1));
    JoinStartsWatching(left, 2, ALICE);
    TransitionConverges(met, 1, 2, ALICE, ALICE);
    var joined := Apply(left, Join(2, ALICE));
    assert PlayersOn(joined, 2) == map[1 := ALICE];
    BobIsShown(Snapshot(PlayersOn(joined, 2)));
  }
}
