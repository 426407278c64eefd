/** The game server's master loop: a registry of connected players, keyed by
    id, changed by one event at a time (a player joins, leaves or moves, or
    the clock ticks and every player is sent the same snapshot). */
module GameServer {
  import opened Wire

  /** Declared for the tag game; nothing reads or writes it after a player's
      record is created, so every player stays `PlayerRun`. */
  datatype PlayerState = PlayerRun | PlayerIt | PlayerInvincible

  /** A position report from one client. */
  datatype PlayerUpdate = PlayerUpdate(id: int, position: Vec2)

  /** The master loop's record of one connection. `toSend` stands for the
      connection's outgoing channel: the snapshots handed to it, oldest first. */
  datatype Player = Player(id: int, toSend: seq<ServerState>, position: Vec2, state: PlayerState)

  type Registry = map<int, Player>

  datatype Option<T> = None | Some(value: T)

  const Origin: Vec2 := Vec2(FloatZero, FloatZero)

  /** Every snapshot entry is drawn red. */
  const Red: Rgb := Rgb(FloatOne, FloatZero, FloatZero)

  /** The movement speed every snapshot announces: 0.2. */
  const SnapshotSpeed: Float32 := FloatFifth

  /** The record a new connection starts with: its fresh id, nothing sent
      yet, and zero values everywhere else. */
  function NewPlayer(id: int): (p: Player)
    ensures p.id == id && p.toSend == []
    ensures p.position == Origin && p.state == PlayerRun
  {
    Player(id, [], Origin, PlayerRun)
  }

  // ---------------------------------------------------------------------
  // The registry operations, on values

  /** A joining player is filed under its id; nothing else changes. */
  function AddPlayer(reg: Registry, p: Player): (r: Registry)
    ensures r.Keys == reg.Keys + {p.id}
    ensures r[p.id] == p
    ensures forall id | id in reg && id != p.id :: r[id] == reg[id]
  {
    reg[p.id := p]
  }

  /** A leaving player's entry is dropped; nothing else changes. */
  function RemovePlayer(reg: Registry, id: int): (r: Registry)
    ensures r.Keys == reg.Keys - {id}
    ensures forall other | other in r :: r[other] == reg[other]
  {
    reg - {id}
  }

  /** The named player's position is overwritten; its id, state and queue,
      and every other player, are unchanged. */
  function MovePlayer(reg: Registry, u: PlayerUpdate): (r: Registry)
    requires u.id in reg
    ensures r.Keys == reg.Keys
    ensures r[u.id].position == u.position
    ensures r[u.id].id == reg[u.id].id && r[u.id].state == reg[u.id].state
    ensures r[u.id].toSend == reg[u.id].toSend
    ensures forall id | id in reg && id != u.id :: r[id] == reg[id]
  {
    reg[u.id := reg[u.id].(position := u.position)]
  }

  /** An update as the master loop should treat it: an id with no record (its
      connection has already been deleted) is dropped, a registered one moves. */
  function MoveOrIgnore(reg: Registry, u: PlayerUpdate): (r: Registry)
    ensures r.Keys == reg.Keys
    ensures forall id | id in reg && id != u.id :: r[id] == reg[id]
    ensures u.id in reg ==> r[u.id] == reg[u.id].(position := u.position)
  {
    if u.id in reg then MovePlayer(reg, u) else reg
  }

  /** An update as the master loop is written: the record is looked up and its
      position assigned with no check that the record exists, so a missing
      record is a nil dereference that stops the whole server (`None`). Where
      it does not crash it agrees with `MoveOrIgnore`. */
  function MoveAsWritten(reg: Registry, u: PlayerUpdate): (r: Option<Registry>)
    ensures r.None? <==> u.id !in reg
    ensures r.Some? ==> r.value == MoveOrIgnore(reg, u)
  {
    if u.id in reg then Some(MovePlayer(reg, u)) else None
  }

  /** The snapshot entry of one player. */
  function Entry(p: Player): (e: WirePlayer)
    ensures e.position == p.position && e.color == Red
  {
    WirePlayer(p.position, Red)
  }

  /** Every registered player has been handed `s` once more. */
  function Deliver(reg: Registry, s: ServerState): (r: Registry)
    ensures r.Keys == reg.Keys
    ensures forall id | id in reg ::
      r[id].toSend == reg[id].toSend + [s] && r[id] == reg[id].(toSend := r[id].toSend)
  {
    map id | id in reg :: reg[id].(toSend := reg[id].toSend + [s])
  }

  /** `order` lists every key of `keys` exactly once. */
  ghost predicate Enumerates(order: seq<int>, keys: set<int>)
  {
    (forall k, l | 0 <= k < l < |order| :: order[k] != order[l]) &&
    (forall id :: id in order <==> id in keys)
  }

  /** `entries` holds one entry per registered player, in some order. */
  ghost predicate IsSnapshotOf(entries: seq<WirePlayer>, reg: Registry)
  {
    exists order: seq<int> ::
      Enumerates(order, reg.Keys) && |order| == |entries| &&
      forall k | 0 <= k < |order| :: order[k] in reg && entries[k] == Entry(reg[order[k]])
  }

  // ---------------------------------------------------------------------
  // Properties of the registry operations

  /** A second delete of the same id (the reader and the writer of a failed
      connection both report it) changes nothing. */
  lemma RemoveTwice(reg: Registry, id: int)
    ensures RemovePlayer(RemovePlayer(reg, id), id) == RemovePlayer(reg, id)
  {
  }

  /** Deleting an id that is not registered is a no-op. */
  lemma RemoveAbsent(reg: Registry, id: int)
    requires id !in reg
    ensures RemovePlayer(reg, id) == reg
  {
  }

  /** A connection that joins with a fresh id and then leaves leaves the
      registry as it found it. */
  lemma JoinThenLeave(reg: Registry, id: int)
    requires id !in reg
    ensures RemovePlayer(AddPlayer(reg, NewPlayer(id)), id) == reg
  {
  }

  /** Applying the same position update twice is the same as applying it once. */
  lemma MoveTwice(reg: Registry, u: PlayerUpdate)
    requires u.id in reg
    ensures MovePlayer(MovePlayer(reg, u), u) == MovePlayer(reg, u)
  {
  }

  /** Position updates for different players commute. */
  lemma MovesCommute(reg: Registry, u: PlayerUpdate, v: PlayerUpdate)
    requires u.id in reg && v.id in reg && u.id != v.id
    ensures MovePlayer(MovePlayer(reg, u), v) == MovePlayer(MovePlayer(reg, v), u)
  {
  }

  /** An update for an unregistered id leaves the registry as it was. */
  lemma MoveUnknown(reg: Registry, u: PlayerUpdate)
    requires u.id !in reg
    ensures MoveOrIgnore(reg, u) == reg
  {
  }

  /** A connection's two goroutines both report its failure. If the writer's
      delete is taken first while the reader still holds a decoded update, the
      update arrives after its record is gone, and as written the loop crashes. */
  lemma StaleUpdateCrashes(reg: Registry, p: Player, pos: Vec2)
    ensures MoveAsWritten(RemovePlayer(AddPlayer(reg, p), p.id), PlayerUpdate(p.id, pos)) == None
  {
  }

  /** Delivering a snapshot never changes who is registered or where they are. */
  lemma DeliverKeepsPositions(reg: Registry, s: ServerState, id: int)
    requires id in reg
    ensures id in Deliver(reg, s) && Deliver(reg, s)[id].position == reg[id].position
    ensures Deliver(reg, s)[id].id == reg[id].id
  {
  }

  /** A snapshot has exactly one entry per registered player. */
  lemma {:induction false} SnapshotSize(entries: seq<WirePlayer>, reg: Registry)
    requires IsSnapshotOf(entries, reg)
    ensures |entries| == |reg|
  {
    var order: seq<int> :| Enumerates(order, reg.Keys) && |order| == |entries| &&
      forall k | 0 <= k < |order| :: order[k] in reg && entries[k] == Entry(reg[order[k]]);
    DistinctCard(order, reg.Keys);
  }

  /** A duplicate-free list of a set's elements is as long as the set is large. */
  lemma {:induction false} DistinctCard(order: seq<int>, keys: set<int>)
    requires Enumerates(order, keys)
    ensures |order| == |keys|
    decreases |order|
  {
    if order != [] {
      var last := order[|order| - 1];
      var init := order[..|order| - 1];
      forall id ensures id in init <==> id in keys - {last} {
        if id in init {
          var k :| 0 <= k < |init| && init[k] == id;
          assert order[k] == id;
        }
        if id in keys - {last} {
          assert id in order;
          var k :| 0 <= k < |order| && order[k] == id;
          assert k != |order| - 1;
          assert init[k] == id;
        }
      }
      DistinctCard(init, keys - {last});
    } else {
      assert keys == {} by {
        forall id ensures id !in keys {
          assert id !in order;
        }
      }
    }
  }

  // ---------------------------------------------------------------------
  // The id allocator

  /** The first n ids the allocator hands out: it counts up from 0. */
  method AllocateIds(n: nat) returns (ids: seq<int>)
    ensures |ids| == n
    ensures forall k | 0 <= k < n :: ids[k] == k
    ensures forall k, l | 0 <= k < l < n :: ids[k] < ids[l]
  {
    ids := [];
    var playerId := 0;
    while playerId < n
      invariant 0 <= playerId <= n && |ids| == playerId
      invariant forall k | 0 <= k < playerId :: ids[k] == k
    {
      ids := ids + [playerId];
      playerId := playerId + 1;
    }
  }

  // ---------------------------------------------------------------------
  // The master loop

  /** The events the master loop waits for. */
  datatype Event = Joined(player: Player) | Left(id: int) | Moved(update: PlayerUpdate) | Tick

  /** The ids registered after one event. */
  function KeysAfter(keys: set<int>, e: Event): set<int>
  {
    match e
    case Joined(p) => keys + {p.id}
    case Left(id) => keys - {id}
    case Moved(_) => keys
    case Tick => keys
  }

  /** The ids registered after a run of events. */
  function FinalKeys(keys: set<int>, events: seq<Event>): set<int>
    decreases |events|
  {
    if events == [] then keys
    else KeysAfter(FinalKeys(keys, events[..|events| - 1]), events[|events| - 1])
  }

  /** Only joins add ids and only leaves remove them: an id that is in the
      registry at the end of a run either was there at its start or joined
      during it. */
  lemma {:induction false} FinalKeysFrom(keys: set<int>, events: seq<Event>, id: int)
    requires id in FinalKeys(keys, events)
    ensures id in keys || exists k | 0 <= k < |events| :: events[k].Joined? && events[k].player.id == id
    decreases |events|
  {
    if events != [] {
      var init := events[..|events| - 1];
      if id in FinalKeys(keys, init) {
        FinalKeysFrom(keys, init, id);
        if id !in keys {
          var k :| 0 <= k < |init| && init[k].Joined? && init[k].player.id == id;
          assert events[k] == init[k];
        }
      } else {
        assert events[|events| - 1].Joined? && events[|events| - 1].player.id == id;
      }
    }
  }

  /** What one event may do to the registry: a join, leave or update as above
      (an update for an unknown id dropped), and a tick hands every registered
      player one snapshot of the registry. */
  ghost predicate StepsTo(reg: Registry, e: Event, reg': Registry)
  {
    match e
    case Joined(p) => reg' == AddPlayer(reg, p)
    case Left(id) => reg' == RemovePlayer(reg, id)
    case Moved(u) => reg' == MoveOrIgnore(reg, u)
    case Tick => exists s: ServerState ::
      IsSnapshotOf(s.players, reg) && s.speed == SnapshotSpeed && reg' == Deliver(reg, s)
  }

  /** `trace` lists the registry before the run and after each of its events. */
  ghost predicate IsTrace(reg: Registry, events: seq<Event>, trace: seq<Registry>)
  {
    |trace| == |events| + 1 && trace[0] == reg &&
    forall k | 0 <= k < |events| :: StepsTo(trace[k], events[k], trace[k + 1])
  }

  /** The registries a run of events can lead to, applying the events in order. */
  ghost predicate Runs(reg: Registry, events: seq<Event>, reg': Registry)
  {
    exists trace :: IsTrace(reg, events, trace) && trace[|events|] == reg'
  }

  /** Along a trace, the ids registered after n events are the ones the joins
      and leaves among them determine; ticks and updates change no id. */
  lemma {:induction false} TraceKeys(reg: Registry, events: seq<Event>, trace: seq<Registry>, n: nat)
    requires IsTrace(reg, events, trace) && n <= |events|
    ensures trace[n].Keys == FinalKeys(reg.Keys, events[..n])
  {
    if n > 0 {
      TraceKeys(reg, events, trace, n - 1);
      assert events[..n][..n - 1] == events[..n - 1];
      assert StepsTo(trace[n - 1], events[n - 1], trace[n]);
      match events[n - 1]
      case Joined(p) =>
      case Left(id) =>
      case Moved(u) =>
      case Tick =>
        var s: ServerState :| IsSnapshotOf(s.players, trace[n - 1]) && s.speed == SnapshotSpeed &&
          trace[n] == Deliver(trace[n - 1], s);
    }
  }

  /** Whatever snapshots the ticks of a run send, the ids registered at its end
      are the ones the joins and leaves determine. */
  lemma RunsKeys(reg: Registry, events: seq<Event>, reg': Registry)
    requires Runs(reg, events, reg')
    ensures reg'.Keys == FinalKeys(reg.Keys, events)
  {
    var trace :| IsTrace(reg, events, trace) && trace[|events|] == reg';
    TraceKeys(reg, events, trace, |events|);
    assert events[..|events|] == events;
  }

  /** A connection that joins and leaves with no tick in between is not
      registered afterwards, and the registry is as the earlier events left it
      without that id; nothing was sent to it. */
  lemma JoinLeaveRun(reg: Registry, events: seq<Event>, p: Player, reg': Registry)
    requires Runs(reg, events + [Joined(p), Left(p.id)], reg')
    ensures p.id !in reg'
    ensures exists before :: Runs(reg, events, before) && reg' == RemovePlayer(before, p.id)
  {
    var all := events + [Joined(p), Left(p.id)];
    var trace :| IsTrace(reg, all, trace) && trace[|all|] == reg';
    var n := |events|;
    assert StepsTo(trace[n], all[n], trace[n + 1]);
    assert StepsTo(trace[n + 1], all[n + 1], trace[n + 2]);
    assert IsTrace(reg, events, trace[..n + 1]) by {
      forall k | 0 <= k < n ensures StepsTo(trace[..n + 1][k], events[k], trace[..n + 1][k + 1]) {
        assert StepsTo(trace[k], all[k], trace[k + 1]);
      }
    }
    assert Runs(reg, events, trace[n]) by {
      assert trace[..n + 1][n] == trace[n];
    }
  }

  /** With unknown ids ignored, the stale update of `StaleUpdateCrashes` is
      harmless: a fresh player that joins, leaves and is then reported moved
      leaves the registry as it was. */
  lemma StaleUpdateIgnored(reg: Registry, p: Player, pos: Vec2, reg': Registry)
    requires p.id !in reg
    requires Runs(reg, [Joined(p), Left(p.id), Moved(PlayerUpdate(p.id, pos))], reg')
    ensures reg' == reg
  {
    var evs := [Joined(p), Left(p.id), Moved(PlayerUpdate(p.id, pos))];
    var trace :| IsTrace(reg, evs, trace) && trace[3] == reg';
    assert StepsTo(trace[0], evs[0], trace[1]);
    assert StepsTo(trace[1], evs[1], trace[2]);
    assert StepsTo(trace[2], evs[2], trace[3]);
  }

  /** One step of a walk over a map in unspecified order: some key not yet visited. */
  method NextKey<K>(remaining: set<K>) returns (key: K)
    requires remaining != {}
    ensures key in remaining
  {
    key :| key in remaining;
  }

  class MasterLoop {
    var players: Registry

    /** The loop starts with nobody registered. */
    constructor ()
      ensures players == map[]
    {
      players := map[];
    }

    method OnJoined(p: Player)
      modifies this
      ensures players == AddPlayer(old(players), p)
    {
      players := players[p.id := p];
    }

    method OnLeft(id: int)
      modifies this
      ensures players == RemovePlayer(old(players), id)
    {
      players := players - {id};
    }

    /** Moves a registered player; an update whose record has already been
        deleted is dropped. */
    method OnMoved(u: PlayerUpdate)
      modifies this
      ensures players == MoveOrIgnore(old(players), u)
    {
      if u.id in players {
        players := players[u.id := players[u.id].(position := u.position)];
      }
    }

    /** Builds the tick's snapshot: one red entry per registered player, in
        whatever order the registry is walked, and the fixed speed. */
    method BuildSnapshot() returns (s: ServerState)
      ensures s.speed == SnapshotSpeed
      ensures |s.players| == |players|
      ensures IsSnapshotOf(s.players, players)
    {
      var entries: seq<WirePlayer> := [];
      var remaining := players.Keys;
      ghost var order: seq<int> := [];
      while remaining != {}
        invariant remaining <= players.Keys
        invariant |order| == |entries| && |order| + |remaining| == |players.Keys|
        invariant forall k, l | 0 <= k < l < |order| :: order[k] != order[l]
        invariant forall id :: id in order <==> id in players.Keys - remaining
        invariant forall k | 0 <= k < |order| :: order[k] in players && entries[k] == Entry(players[order[k]])
        decreases |remaining|
      {
        var id := NextKey(remaining);
        assert id !in order;
        entries := entries + [WirePlayer(players[id].position, Red)];
        order := order + [id];
        remaining := remaining - {id};
      }
      s := ServerState(entries, SnapshotSpeed);
      assert Enumerates(order, players.Keys);
    }

    /** Hands the same snapshot to every registered player, once each. */
    method SendToAll(s: ServerState)
      modifies this
      ensures players == Deliver(old(players), s)
    {
      ghost var before := players;
      var remaining := players.Keys;
      while remaining != {}
        invariant remaining <= before.Keys && players.Keys == before.Keys
        invariant forall id | id in players ::
          players[id] == if id in remaining then before[id] else before[id].(toSend := before[id].toSend + [s])
        decreases |remaining|
      {
        var id := NextKey(remaining);
        players := players[id := players[id].(toSend := players[id].toSend + [s])];
        remaining := remaining - {id};
      }
      assert forall id | id in players :: players[id] == Deliver(before, s)[id];
    }

    /** A tick: build one snapshot and send it to everybody. */
    method OnTick() returns (s: ServerState)
      modifies this
      ensures s.speed == SnapshotSpeed && |s.players| == |old(players)|
      ensures IsSnapshotOf(s.players, old(players))
      ensures players == Deliver(old(players), s)
    {
      s := BuildSnapshot();
      SendToAll(s);
    }

    /** One turn of the loop. */
    method Step(e: Event)
      modifies this
      ensures players.Keys == KeysAfter(old(players.Keys), e)
      ensures StepsTo(old(players), e, players)
    {
      match e
      case Joined(p) => OnJoined(p);
      case Left(id) => OnLeft(id);
      case Moved(u) => OnMoved(u);
      case Tick =>
        var s := OnTick();
    }

    /** The loop over a finite run of events. */
    method Run(events: seq<Event>)
      modifies this
      ensures Runs(old(players), events, players)
      ensures players.Keys == FinalKeys(old(players.Keys), events)
    {
      ghost var start := players;
      ghost var trace := [players];
      var n := 0;
      while n < |events|
        invariant 0 <= n <= |events|
        invariant IsTrace(start, events[..n], trace) && trace[n] == players
      {
        Step(events[n]);
        trace := trace + [players];
        n := n + 1;
      }
      assert events[..n] == events;
      RunsKeys(start, events, players);
    }
  }
}
