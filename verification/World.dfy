/** The world object: its map table and the queues behind its players' senders, changed in place. */
module World {
  import opened Common
  import opened WorldSteps

  /** What one send does. */
  function Push(q: Queues, channel: nat, m: Message): Queues {
    q[channel := QueueOf(q, channel) + [m]]
  }

  lemma QueuesEqual(a: Queues, b: Queues)
    requires a.Keys == b.Keys && forall channel :: QueueOf(a, channel) == QueueOf(b, channel)
    ensures a == b
  {
    forall channel | channel in a ensures a[channel] == b[channel] {
      assert QueueOf(a, channel) == QueueOf(b, channel);
    }
  }

  /** Serving one more player is one more send. */
  lemma OneMoreSend(q: Queues, players: Players, id: int, p: Player, m: Message)
    requires id !in players
    ensures Deliver(q, players[id := p], m) == Push(Deliver(q, players, m), p.channel, m)
  {
    hide Push, Deliver, QueueOf, Channels;
    var a, b := Deliver(q, players[id := p], m), Push(Deliver(q, players, m), p.channel, m);
    OneMoreChannel(q, players, id, p, m);
    forall channel ensures QueueOf(a, channel) == QueueOf(b, channel) {
      OneMoreInQueue(q, players, id, p, m, channel);
    }
    QueuesEqual(a, b);
  }

  lemma OneMoreChannel(q: Queues, players: Players, id: int, p: Player, m: Message)
    requires id !in players
    ensures Deliver(q, players[id := p], m).Keys == Push(Deliver(q, players, m), p.channel, m).Keys
  {
    hide Copies, Listeners, QueueOf;
    var more := players[id := p];
    forall channel ensures channel in Channels(more) <==> channel in Channels(players) || channel == p.channel {
      if channel == p.channel {
        assert more[id].channel in Channels(more);
      }
      if channel in Channels(players) {
        var other :| other in players && players[other].channel == channel;
        assert more[other].channel in Channels(more);
      }
    }
    assert Deliver(q, players, m).Keys == q.Keys + Channels(players);
  }

  lemma OneMoreInQueue(q: Queues, players: Players, id: int, p: Player, m: Message, channel: nat)
    requires id !in players
    ensures QueueOf(Deliver(q, players[id := p], m), channel) ==
            QueueOf(Push(Deliver(q, players, m), p.channel, m), channel)
  {
    hide Deliver, Listeners;
    DeliverTo(q, players[id := p], m, channel);
    DeliverTo(q, players, m, channel);
    OneMoreListener(players, id, p, channel);
    var n := |Listeners(players, channel)|;
    assert QueueOf(q, channel) + Copies(m, n) + [m] == QueueOf(q, channel) + (Copies(m, n) + [m]);
    assert Copies(m, n + 1) == Copies(m, n) + [m];
  }

  lemma OneMoreListener(players: Players, id: int, p: Player, channel: nat)
    requires id !in players
    ensures |Listeners(players[id := p], channel)| ==
            |Listeners(players, channel)| + if p.channel == channel then 1 else 0
  {
    var more := Listeners(players[id := p], channel);
    assert id !in Listeners(players, channel);
    assert more == Listeners(players, channel) + if p.channel == channel then {id} else {};
  }

  lemma NobodyServed(q: Queues, m: Message)
    ensures Deliver(q, map[], m) == q
  {
    var a := Deliver(q, map[], m);
    assert Channels(map[]) == {};
    assert a.Keys == q.Keys;
    forall channel | channel in q ensures a[channel] == q[channel] {
      DeliverTo(q, map[], m, channel);
      NoListener(map[], channel);
      assert Copies(m, 0) == [];
    }
  }

  /** The players with these ids. */
  function Among(players: Players, ids: set<int>): Players {
    map id | id in players && id in ids :: players[id]
  }

  /** ids holds every id of the map once, and found what is stored under each. */
  ghost predicate Enumerates(ids: seq<int>, found: seq<Player>, players: Players) {
    && |found| == |ids| == |players|
    && (forall id :: id in ids <==> id in players)
    && forall i :: 0 <= i < |ids| ==> ids[i] in players && found[i] == players[ids[i]]
  }

  ghost predicate ListsPlayers(found: seq<Player>, players: Players) {
    exists ids :: Enumerates(ids, found, players)
  }

  class World {
    var maps: map<int, Players>
    var queues: Queues

    constructor ()
      ensures Now() == State(map[], map[]) && NoEmptyMaps(Now())
    {
      maps, queues := map[], map[];
    }

    function Now(): State
      reads this
    {
      State(maps, queues)
    }

    /** The loop that sends a copy to every player, in any order. */
    method SendToEach(players: Players, m: Message)
      modifies this`queues
      ensures queues == Deliver(old(queues), players, m)
    {
      hide Deliver, Push;
      var done: set<int> := {};
      NobodyServed(queues, m);
      assert Among(players, {}) == map[];
      while done != players.Keys
        invariant done <= players.Keys
        invariant queues == Deliver(old(queues), Among(players, done), m)
        decreases |players.Keys - done|
      {
        ghost var some := Member(players.Keys - done);
        var id :| id in players.Keys - done;
        OneMoreSend(old(queues), Among(players, done), id, players[id], m);
        assert Among(players, done + {id}) == Among(players, done)[id := players[id]];
        Send(players[id].channel, m);
        assert players.Keys - done == players.Keys - (done + {id}) + {id};
        done := done + {id};
      }
      assert Among(players, done) == players;
    }

    method Send(channel: nat, m: Message)
      modifies this`queues
      ensures queues == Push(old(queues), channel, m)
    {
      queues := queues[channel := QueueOf(queues, channel) + [m]];
    }

    method JoinMap(mapId: int, player: Player)
      modifies this
      ensures Now() == Apply(old(Now()), Join(mapId, player))
      ensures old(NoEmptyMaps(Now())) ==> NoEmptyMaps(Now())
    {
      hide Deliver, NoEmptyMaps;
      ghost var was := Now();
      if mapId !in maps {
        maps := maps[mapId := map[]];
      }
      SendToEach(maps[mapId], ShowActor(player));
      maps := maps[mapId := maps[mapId][player.characterId := player]];
      assert maps == Apply(was, Join(mapId, player)).maps;
      if NoEmptyMaps(was) {
        StepKeepsNoEmptyMaps(was, Join(mapId, player));
      }
    }

    method LeaveMap(mapId: int, characterId: int)
      modifies this
      ensures Now() == Apply(old(Now()), Leave(mapId, characterId))
      ensures old(NoEmptyMaps(Now())) ==> NoEmptyMaps(Now())
    {
      hide Deliver, NoEmptyMaps;
      ghost var was := Now();
      if mapId in maps {
        maps := maps[mapId := maps[mapId] - {characterId}];
        SendToEach(maps[mapId], RemoveActor(characterId));
        if maps[mapId] == map[] {
          maps := maps - {mapId};
        }
      }
      assert maps == Apply(was, Leave(mapId, characterId)).maps;
      if NoEmptyMaps(was) {
        StepKeepsNoEmptyMaps(was, Leave(mapId, characterId));
      }
    }

    method UpdatePlayerCell(mapId: int, characterId: int, cellId: int)
      modifies this`maps
      ensures Now() == Apply(old(Now()), MoveTo(mapId, characterId, cellId))
    {
      if mapId in maps {
        var players := maps[mapId];
        if characterId in players {
          var player := players[characterId];
          maps := maps[mapId := players[characterId := player.(cellId := cellId)]];
        }
      }
    }

    method BroadcastToMap(mapId: int, payload: int)
      modifies this`queues
      ensures Now() == Apply(old(Now()), Broadcast(mapId, payload))
    {
      if mapId in maps {
        SendToEach(maps[mapId], OtherMessage(payload));
      } else {
        NobodyServed(queues, OtherMessage(payload));
      }
    }

    /** The players of a map in any order, each once. */
    method GetPlayersOnMap(mapId: int) returns (found: seq<Player>)
      ensures ListsPlayers(found, PlayersOn(Now(), mapId))
    {
      found := [];
      ghost var ids: seq<int> := [];
      if mapId in maps {
        var players := maps[mapId];
        var rest := players.Keys;
        while rest != {}
          invariant rest <= players.Keys
          invariant |found| == |ids| == |players.Keys| - |rest|
          invariant forall id :: id in ids <==> id in players.Keys - rest
          invariant forall i :: 0 <= i < |ids| ==> ids[i] in players && found[i] == players[ids[i]]
          decreases |rest|
        {
          ghost var some := Member(rest);
          var id :| id in rest;
          found, ids := found + [players[id]], ids + [id];
          rest := rest - {id};
        }
      }
      assert Enumerates(ids, found, PlayersOn(Now(), mapId));
    }
  }
}
