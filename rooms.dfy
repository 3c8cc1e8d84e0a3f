/**
 * One multiplayer room of the relay server: its roster, colour pool, lifecycle
 * (waiting -> playing -> finished), host pointer and enemy list, and the effect
 * of every socket event on one room as a pure step from the room before to the
 * room after plus the messages the step sends.
 */
module Rooms {
  import opened Wrappers

  type SocketId = string
  type RoomId = string

  /** The five palette colours, named after their hex codes (see `Hex`). */
  datatype Color = LightRed | Turquoise | SkyBlue | LightSalmon | Mint

  /** The colour string the source stores and sends for each palette entry. */
  function Hex(c: Color): string {
    match c
    case LightRed => "#ff6b6b"
    case Turquoise => "#4ecdc4"
    case SkyBlue => "#45b7d1"
    case LightSalmon => "#ffa07a"
    case Mint => "#98d8c8"
  }

  /** Distinct colours have distinct colour strings, so a colour may stand for its string. */
  lemma HexDistinct(a: Color, b: Color)
    ensures Hex(a) == Hex(b) <==> a == b
  {
  }

  /** The palette; a new room's host takes the first colour, the rest form the pool. */
  const PLAYER_COLORS: seq<Color> := [LightRed, Turquoise, SkyBlue, LightSalmon, Mint]
  const MAX_PLAYERS: nat := 5
  /** Where every player record starts. */
  const SPAWN_POINT: Position := Position(500.0, 300.0)

  datatype Position = Position(x: real, y: real)
  datatype GameMode = BattleRoyale | SharedArena
  datatype RoomState = Waiting | Playing | Finished

  datatype Player = Player(id: SocketId, socketId: SocketId, name: string, color: Color,
                           ready: bool, alive: bool, position: Position)

  datatype Enemy = Enemy(id: string, pos: Position, vel: Position, size: real)

  /**
   * `players` is the roster Map in insertion order, keyed by each player's `id`
   * (the socket id of its connection).
   */
  datatype Room = Room(id: RoomId, hostId: SocketId, players: seq<Player>, state: RoomState,
                       maxPlayers: nat, availableColors: seq<Color>, winner: Option<string>,
                       gameMode: Option<GameMode>, enemies: seq<Enemy>)

  /** What clients see of a room: everything but the colour pool and the enemy list. */
  datatype Snapshot = Snapshot(id: RoomId, hostId: SocketId, players: seq<Player>, state: RoomState,
                               maxPlayers: nat, winner: Option<string>, gameMode: Option<GameMode>)

  /** `socket.emit`, `io.to(room).emit` and `socket.to(room).emit` respectively. */
  datatype Target = ToSender(socket: SocketId) | ToRoom(roomId: RoomId) | ToOthers(sender: SocketId, inRoom: RoomId)

  datatype Event =
    | RoomCreated(createdId: RoomId, player: Player, room: Snapshot)
    | PlayerJoined(player: Player, room: Snapshot)
    | RoomJoined(player: Player, room: Snapshot)
    | ErrorMessage(message: string)
    | GameModeSelected(gameMode: Option<GameMode>, room: Snapshot)
    | RoomUpdated(room: Snapshot)
    | GameStarted(room: Snapshot)
    | PlayerMoved(playerId: SocketId, position: Position)
    | PlayerDied(playerId: SocketId, playerName: string)
    | GameFinished(winnerName: string, winnerId: Option<SocketId>)
    | EnemySpawned(enemy: Enemy)
    | EnemiesUpdated(enemies: seq<Enemy>)
    | HostChanged(newHostId: SocketId, room: Snapshot)
    | PlayerLeft(playerId: SocketId, playerName: string, room: Snapshot)

  datatype Emission = Emit(to: Target, event: Event)

  /** A room event's effect on a room that stays: the room after it and what was sent. */
  datatype Step = Step(room: Room, out: seq<Emission>)

  /** Leaving may delete the room: `room` is None then. */
  datatype Outcome = Outcome(room: Option<Room>, out: seq<Emission>)

  // ---------------------------------------------------------------------------
  // The roster: a Map from socket id to player, in insertion order
  // ---------------------------------------------------------------------------

  predicate HasPlayer(ps: seq<Player>, key: SocketId) {
    exists i :: 0 <= i < |ps| && ps[i].id == key
  }

  ghost predicate DistinctIds(ps: seq<Player>) {
    forall i, j :: 0 <= i < j < |ps| ==> ps[i].id != ps[j].id
  }

  /** `players.get(key)`: the position of the entry stored under `key`, if any. */
  function IndexOf(ps: seq<Player>, key: SocketId): (r: Option<nat>)
    ensures r.None? <==> !HasPlayer(ps, key)
    ensures r.Some? ==> r.value < |ps| && ps[r.value].id == key
    ensures r.Some? ==> forall j :: 0 <= j < r.value ==> ps[j].id != key
  {
    if |ps| == 0 then None
    else if ps[0].id == key then Some(0)
    else
      var rest := IndexOf(ps[1..], key);
      assert forall j :: 1 <= j < |ps| ==> ps[j] == ps[1..][j - 1];
      if rest.None? then None else Some(rest.value + 1)
  }

  /** `players.set(p.id, p)`: overwrite in place when the key is present, else append. */
  function SetPlayer(ps: seq<Player>, p: Player): (r: seq<Player>)
    ensures HasPlayer(r, p.id)
    ensures !HasPlayer(ps, p.id) ==> r == ps + [p]
    ensures HasPlayer(ps, p.id) ==> |r| == |ps|
    ensures forall i :: 0 <= i < |ps| && ps[i].id != p.id ==> i < |r| && r[i] == ps[i]
    ensures forall i :: 0 <= i < |r| ==> r[i] == p || (i < |ps| && r[i] == ps[i])
    ensures HasPlayer(ps, p.id) ==> r == ps[IndexOf(ps, p.id).value := p]
  {
    match IndexOf(ps, p.id)
    case Some(i) =>
      assert ps[i := p][i].id == p.id;
      ps[i := p]
    case None =>
      assert (ps + [p])[|ps|].id == p.id;
      ps + [p]
  }

  /** `players.delete(key)` once the key has been found at position `i`. */
  function RemoveAt(ps: seq<Player>, i: nat): (r: seq<Player>)
    requires i < |ps|
    ensures |r| == |ps| - 1
    ensures forall j :: 0 <= j < i ==> r[j] == ps[j]
    ensures forall j :: i <= j < |r| ==> r[j] == ps[j + 1]
  {
    ps[..i] + ps[i + 1..]
  }

  /** `Map.get` after `Map.set` under the same key finds the record just set. */
  lemma SetThenGet(ps: seq<Player>, p: Player)
    ensures IndexOf(SetPlayer(ps, p), p.id).Some?
    ensures SetPlayer(ps, p)[IndexOf(SetPlayer(ps, p), p.id).value] == p
  {
    var r := SetPlayer(ps, p);
    match IndexOf(ps, p.id)
    case Some(i) =>
      assert r[i] == p;
      assert forall j :: 0 <= j < i ==> r[j] == ps[j];
    case None =>
      assert r[|ps|] == p;
      assert forall j :: 0 <= j < |ps| ==> r[j] == ps[j];
  }

  /** The colours held by the roster, in roster order. */
  function Colors(ps: seq<Player>): seq<Color> {
    seq(|ps|, i requires 0 <= i < |ps| => ps[i].color)
  }

  /** `Array.from(players.values()).filter(p => p.alive)`. */
  function AlivePlayers(ps: seq<Player>): (r: seq<Player>)
    ensures |r| <= |ps|
    ensures forall q :: q in r ==> q in ps && q.alive
    ensures forall q :: q in ps && q.alive ==> q in r
  {
    if ps == [] then []
    else (if ps[0].alive then [ps[0]] else []) + AlivePlayers(ps[1..])
  }

  /** The filter keeps every living record as often as the roster has it, and no other record. */
  lemma {:induction false} AliveCount(ps: seq<Player>)
    ensures forall q :: multiset(AlivePlayers(ps))[q] == if q.alive then multiset(ps)[q] else 0
    decreases |ps|
  {
    if ps != [] {
      assert ps == [ps[0]] + ps[1..];
      AliveCount(ps[1..]);
    }
  }

  /** `Array.from(players.values()).every(p => p.ready)`. */
  predicate AllReady(ps: seq<Player>) {
    forall i :: 0 <= i < |ps| ==> ps[i].ready
  }

  // ---------------------------------------------------------------------------
  // Room invariants
  // ---------------------------------------------------------------------------

  /** No colour is held or pooled more often than the palette has it. */
  ghost predicate PoolWithin(r: Room) {
    multiset(Colors(r.players)) + multiset(r.availableColors) <= multiset(PLAYER_COLORS)
  }

  /** Held colours and the pool together are exactly the palette. */
  ghost predicate PoolExact(r: Room) {
    multiset(Colors(r.players)) + multiset(r.availableColors) == multiset(PLAYER_COLORS)
  }

  /** What holds of every room in the registry. */
  ghost predicate RoomValid(r: Room) {
    && r.maxPlayers == MAX_PLAYERS
    && 0 < |r.players| <= r.maxPlayers
    && DistinctIds(r.players)
    && (forall i :: 0 <= i < |r.players| ==> r.players[i].socketId == r.players[i].id)
    && HasPlayer(r.players, r.hostId)
    && PoolWithin(r)
  }

  // ---------------------------------------------------------------------------
  // The colour pool
  // ---------------------------------------------------------------------------

  /**
   * `getAvailableColor`: null on an empty pool; otherwise the colour at a
   * random index, spliced out. The random draw is `pick`; the index used is
   * `pick % |pool|`, so every index can be drawn.
   */
  function TakeColor(pool: seq<Color>, pick: nat): (r: (Option<Color>, seq<Color>))
    ensures r.0.None? <==> pool == []
    ensures r.0.None? ==> r.1 == pool
    ensures r.0.Some? ==> r.0.value in pool && multiset(r.1) == multiset(pool) - multiset{r.0.value}
    ensures r.0.Some? ==> |r.1| == |pool| - 1
    ensures r.0.Some? ==> exists i :: 0 <= i < |pool| && pool[i] == r.0.value && r.1 == pool[..i] + pool[i + 1..]
  {
    if pool == [] then (None, pool)
    else
      var i := pick % |pool|;
      assert pool == pool[..i] + [pool[i]] + pool[i + 1..];
      (Some(pool[i]), pool[..i] + pool[i + 1..])
  }

  /** Drawing a colour out of a room's pool keeps the room valid. */
  lemma TakeKeepsRoom(room: Room, pick: nat)
    requires RoomValid(room)
    ensures RoomValid(room.(availableColors := TakeColor(room.availableColors, pick).1))
  {
    var rest := TakeColor(room.availableColors, pick).1;
    assert multiset(rest) <= multiset(room.availableColors);
    ShrinkKeepsRoom(room, rest);
  }

  /** Dropping colours from a room's pool keeps the room valid. */
  lemma ShrinkKeepsRoom(room: Room, rest: seq<Color>)
    requires RoomValid(room) && multiset(rest) <= multiset(room.availableColors)
    ensures RoomValid(room.(availableColors := rest))
  {
    MultisetShrink(multiset(Colors(room.players)), multiset(room.availableColors), multiset(rest), multiset(PLAYER_COLORS));
  }

  /** Shrinking one part of a bounded sum keeps it bounded. */
  lemma MultisetShrink(held: multiset<Color>, pool: multiset<Color>, pool': multiset<Color>, bound: multiset<Color>)
    requires held + pool <= bound && pool' <= pool
    ensures held + pool' <= bound
  {
  }

  /** `returnColor`: push the colour back at the end of the pool. */
  function ReturnColor(pool: seq<Color>, c: Color): (r: seq<Color>)
    ensures |r| == |pool| + 1 && r[..|pool|] == pool && r[|pool|] == c
    ensures multiset(r) == multiset(pool) + multiset{c}
  {
    pool + [c]
  }

  lemma {:induction false} TakeThenReturn(pool: seq<Color>, pick: nat)
    requires pool != []
    ensures var (c, rest) := TakeColor(pool, pick);
            multiset(ReturnColor(rest, c.value)) == multiset(pool)
  {
    var (c, rest) := TakeColor(pool, pick);
    assert c.value in multiset(pool);
    calc {
      multiset(ReturnColor(rest, c.value));
      multiset(rest) + multiset{c.value};
      multiset(pool) - multiset{c.value} + multiset{c.value};
      multiset(pool);
    }
  }

  // ---------------------------------------------------------------------------
  // Colour bookkeeping over roster edits
  // ---------------------------------------------------------------------------

  lemma ColorsAppend(ps: seq<Player>, p: Player)
    ensures multiset(Colors(ps + [p])) == multiset(Colors(ps)) + multiset{p.color}
  {
    assert Colors(ps + [p]) == Colors(ps) + [p.color];
  }

  lemma ColorsUpdate(ps: seq<Player>, k: nat, p: Player)
    requires k < |ps|
    ensures multiset(Colors(ps[k := p])) == multiset(Colors(ps)) - multiset{ps[k].color} + multiset{p.color}
  {
    assert Colors(ps[k := p]) == Colors(ps)[k := p.color];
  }

  lemma ColorHeld(ps: seq<Player>, k: nat)
    requires k < |ps|
    ensures multiset{ps[k].color} <= multiset(Colors(ps))
  {
    assert Colors(ps)[k] == ps[k].color;
  }

  lemma ColorsRemove(ps: seq<Player>, k: nat)
    requires k < |ps|
    ensures multiset(Colors(RemoveAt(ps, k))) == multiset(Colors(ps)) - multiset{ps[k].color}
  {
    var cs := Colors(ps);
    assert Colors(RemoveAt(ps, k)) == cs[..k] + cs[k + 1..];
    assert cs == cs[..k] + [cs[k]] + cs[k + 1..];
  }

  /** No colour appears twice across the roster and the pool of a room. */
  lemma {:induction false} NoColorTwice(r: Room, i: nat, j: nat)
    requires PoolWithin(r)
    requires i < j < |r.players|
    ensures r.players[i].color != r.players[j].color
    ensures r.players[i].color !in r.availableColors
  {
    var cs := Colors(r.players);
    PaletteOnce(cs[i]);
    OnceInBound(cs, r.availableColors, multiset(PLAYER_COLORS), i, j);
  }

  /** No colour a player holds is also in the pool. */
  lemma HeldNotPooled(r: Room, i: nat)
    requires PoolWithin(r)
    requires i < |r.players|
    ensures r.players[i].color !in r.availableColors
  {
    var cs := Colors(r.players);
    var c := cs[i];
    PaletteOnce(c);
    assert c in multiset(cs);
    assert multiset(cs)[c] + multiset(r.availableColors)[c] <= 1;
  }

  /** The pool holds no colour twice. */
  lemma PoolNoRepeat(r: Room, i: nat, j: nat)
    requires PoolWithin(r)
    requires i < j < |r.availableColors|
    ensures r.availableColors[i] != r.availableColors[j]
  {
    var pool := r.availableColors;
    PaletteOnce(pool[i]);
    assert multiset(pool) + multiset([]) <= multiset(PLAYER_COLORS);
    OnceInBound(pool, [], multiset(PLAYER_COLORS), i, j);
  }

  /** The palette holds each colour at most once. */
  lemma PaletteOnce(c: Color)
    ensures multiset(PLAYER_COLORS)[c] <= 1
  {
  }

  /** A colour the bound holds once occurs once across a roster's colours and a pool within it. */
  lemma OnceInBound(cs: seq<Color>, pool: seq<Color>, bound: multiset<Color>, i: nat, j: nat)
    requires multiset(cs) + multiset(pool) <= bound
    requires i < j < |cs| && bound[cs[i]] <= 1
    ensures cs[i] != cs[j] && cs[i] !in pool
  {
    var c := cs[i];
    assert cs == cs[..j] + [cs[j]] + cs[j + 1..];
    assert c in cs[..j];
    assert multiset(cs) == multiset(cs[..j]) + multiset{cs[j]} + multiset(cs[j + 1..]);
    assert multiset(cs)[c] >= 1 + (if cs[j] == c then 1 else 0);
    assert multiset(cs)[c] + multiset(pool)[c] <= 1;
  }

  // ---------------------------------------------------------------------------
  // Room creation and the snapshot
  // ---------------------------------------------------------------------------

  /** The record `create-room` builds for the creating connection. */
  function HostRecord(sender: SocketId, name: string): Player {
    Player(sender, sender, name, PLAYER_COLORS[0], true, true, SPAWN_POINT)
  }

  /** The room `create-room` builds: host holds colour 0, the pool the other four. */
  function NewRoom(roomId: RoomId, sender: SocketId, name: string): (r: Room)
    ensures r.id == roomId && r.players == [HostRecord(sender, name)] && r.hostId == sender
    ensures r.players[0].ready && r.players[0].alive && r.players[0].color == PLAYER_COLORS[0] && r.players[0].position == SPAWN_POINT
    ensures r.state == Waiting && r.maxPlayers == MAX_PLAYERS && r.gameMode.None? && r.winner.None? && r.enemies == []
    ensures r.availableColors == PLAYER_COLORS[1..]
  {
    Room(roomId, sender, [HostRecord(sender, name)], Waiting, MAX_PLAYERS, PLAYER_COLORS[1..], None, None, [])
  }

  /** A new room satisfies the room invariant, and its colours balance exactly. */
  lemma NewRoomValid(roomId: RoomId, sender: SocketId, name: string)
    ensures RoomValid(NewRoom(roomId, sender, name)) && PoolExact(NewRoom(roomId, sender, name))
  {
    NewRoomPool(roomId, sender, name);
    NewRoomRoster(roomId, sender, name);
  }

  /** A new room's only record is its host's, filed under its own key. */
  lemma NewRoomRoster(roomId: RoomId, sender: SocketId, name: string)
    ensures var ps := NewRoom(roomId, sender, name).players;
            && DistinctIds(ps) && HasPlayer(ps, sender)
            && (forall i :: 0 <= i < |ps| ==> ps[i].socketId == ps[i].id)
  {
    assert NewRoom(roomId, sender, name).players[0].id == sender;
  }

  /** The host's colour and the fresh pool are exactly the palette. */
  lemma NewRoomPool(roomId: RoomId, sender: SocketId, name: string)
    ensures PoolExact(NewRoom(roomId, sender, name))
  {
    assert Colors(NewRoom(roomId, sender, name).players) == [PLAYER_COLORS[0]];
    HeadAndTail(PLAYER_COLORS);
  }

  /** A non-empty sequence holds its head and its tail. */
  lemma HeadAndTail(s: seq<Color>)
    requires |s| > 0
    ensures multiset(s) == multiset([s[0]]) + multiset(s[1..])
  {
    assert s == [s[0]] + s[1..];
  }

  /** `serializeRoom`. */
  function Serialize(r: Room): Snapshot {
    Snapshot(r.id, r.hostId, r.players, r.state, r.maxPlayers, r.winner, r.gameMode)
  }

  /** Two rooms look the same to clients exactly when they differ at most in pool and enemies. */
  lemma SnapshotHidesOnlyPoolAndEnemies(a: Room, b: Room)
    ensures Serialize(a) == Serialize(b) <==>
            a.(availableColors := b.availableColors, enemies := b.enemies) == b
  {
  }

  /** In a room whose colours balance, the pool is determined by the snapshot. */
  lemma PoolFromSnapshot(r: Room)
    requires PoolExact(r)
    ensures multiset(r.availableColors) == multiset(PLAYER_COLORS) - multiset(Colors(Serialize(r).players))
  {
  }

  // ---------------------------------------------------------------------------
  // Roster edits that keep every slot's key and colour
  // ---------------------------------------------------------------------------

  /** `qs` is `ps` with only ready, alive or position flags changed. */
  ghost predicate SameSlots(ps: seq<Player>, qs: seq<Player>) {
    && |qs| == |ps|
    && forall i :: 0 <= i < |ps| ==>
         qs[i].id == ps[i].id && qs[i].socketId == ps[i].socketId && qs[i].color == ps[i].color
  }

  lemma SameSlotsKeepRoom(room: Room, r: Room)
    requires SameSlots(room.players, r.players)
    requires r.hostId == room.hostId && r.maxPlayers == room.maxPlayers
    requires r.availableColors == room.availableColors
    ensures RoomValid(room) ==> RoomValid(r)
    ensures PoolExact(room) ==> PoolExact(r)
  {
    assert Colors(r.players) == Colors(room.players);
    if HasPlayer(room.players, room.hostId) {
      var h :| 0 <= h < |room.players| && room.players[h].id == room.hostId;
      assert r.players[h].id == room.hostId;
    }
  }

  // ---------------------------------------------------------------------------
  // The per-room steps, one per socket event
  // ---------------------------------------------------------------------------

  function Refuse(sender: SocketId, message: string): Emission {
    Emit(ToSender(sender), ErrorMessage(message))
  }

  /** The record `join-room` builds for a joining connection. */
  function JoinRecord(sender: SocketId, name: string, c: Color): Player {
    Player(sender, sender, name, c, false, true, SPAWN_POINT)
  }

  /**
   * `join-room` on an existing room: refused, in this order, when the game is
   * not waiting, when the roster is full, when no colour is left; otherwise
   * the sender is stored with a colour drawn from the pool.
   */
  function JoinStep(room: Room, sender: SocketId, name: string, pick: nat): (s: Step)
    ensures room.state != Waiting ==>
              s == Step(room, [Refuse(sender, "Game already in progress")])
    ensures room.state == Waiting && |room.players| >= room.maxPlayers ==>
              s == Step(room, [Refuse(sender, "Room is full")])
    ensures room.state == Waiting && |room.players| < room.maxPlayers && room.availableColors == [] ==>
              s == Step(room, [Refuse(sender, "No colors available")])
    ensures room.state == Waiting && |room.players| < room.maxPlayers && room.availableColors != [] ==>
              exists c :: c in room.availableColors && JoinedWith(room, s, sender, name, c)
  {
    if room.state != Waiting then Step(room, [Refuse(sender, "Game already in progress")])
    else if |room.players| >= room.maxPlayers then Step(room, [Refuse(sender, "Room is full")])
    else
      var (c, rest) := TakeColor(room.availableColors, pick);
      if c.None? then Step(room, [Refuse(sender, "No colors available")])
      else
        var p := JoinRecord(sender, name, c.value);
        var r := room.(players := SetPlayer(room.players, p), availableColors := rest);
        var s := Step(r, [Emit(ToRoom(room.id), PlayerJoined(p, Serialize(r))),
                          Emit(ToSender(sender), RoomJoined(p, Serialize(r)))]);
        assert JoinedWith(room, s, sender, name, c.value);
        s
  }

  /**
   * A successful join with colour `c`: the pool loses one `c`, the sender is
   * stored not ready and alive under its own id (appended, or overwriting its
   * earlier record in place), and both notifications carry the new snapshot.
   */
  ghost predicate JoinedWith(room: Room, s: Step, sender: SocketId, name: string, c: Color) {
    var p := JoinRecord(sender, name, c);
    && multiset(s.room.availableColors) == multiset(room.availableColors) - multiset{c}
    && |s.room.availableColors| == |room.availableColors| - 1
    && s.room == room.(players := SetPlayer(room.players, p), availableColors := s.room.availableColors)
    && s.out == [Emit(ToRoom(room.id), PlayerJoined(p, Serialize(s.room))),
                 Emit(ToSender(sender), RoomJoined(p, Serialize(s.room)))]
  }

  /** The roster and pool facts behind JoinStep's invariant clauses. */
  lemma JoinKeepsRoom(room: Room, p: Player, rest: seq<Color>)
    requires |room.players| < room.maxPlayers
    requires p.color in room.availableColors
    requires multiset(rest) == multiset(room.availableColors) - multiset{p.color}
    requires p.socketId == p.id
    ensures var r := room.(players := SetPlayer(room.players, p), availableColors := rest);
            && (RoomValid(room) ==> RoomValid(r))
            && (PoolExact(room) && !HasPlayer(room.players, p.id) ==> PoolExact(r))
  {
    match IndexOf(room.players, p.id)
    case None => JoinAppends(room, p, rest);
    case Some(k) => JoinOverwrites(room, k, p, rest);
  }

  /**
   * A connection that joins a room it already occupies gets a fresh colour
   * from the pool, and the colour of the record it overwrites is never
   * returned: the room's colours then fall one short of the palette.
   */
  lemma RejoinLeaksColour(room: Room, sender: SocketId, name: string, pick: nat)
    requires PoolExact(room) && HasPlayer(room.players, sender)
    requires room.state == Waiting && |room.players| < room.maxPlayers && room.availableColors != []
    ensures var k := IndexOf(room.players, sender).value;
            var r := JoinStep(room, sender, name, pick).room;
            multiset(Colors(r.players)) + multiset(r.availableColors)
              == multiset(PLAYER_COLORS) - multiset{room.players[k].color}
    ensures !PoolExact(JoinStep(room, sender, name, pick).room)
  {
    var k := IndexOf(room.players, sender).value;
    var (c, rest) := TakeColor(room.availableColors, pick);
    var p := JoinRecord(sender, name, c.value);
    var r := JoinStep(room, sender, name, pick).room;
    assert r == room.(players := room.players[k := p], availableColors := rest) by {
      assert SetPlayer(room.players, p) == room.players[k := p];
    }
    ColorsUpdate(room.players, k, p);
    ColorHeld(room.players, k);
    assert multiset{p.color} <= multiset(room.availableColors);
    SwapColorBalance(room, r, multiset{room.players[k].color}, multiset{p.color});
    assert multiset(PLAYER_COLORS)[room.players[k].color] >= 1;
  }

  lemma JoinAppends(room: Room, p: Player, rest: seq<Color>)
    requires |room.players| < room.maxPlayers && !HasPlayer(room.players, p.id)
    requires p.color in room.availableColors
    requires multiset(rest) == multiset(room.availableColors) - multiset{p.color}
    requires p.socketId == p.id
    ensures var r := room.(players := room.players + [p], availableColors := rest);
            && (RoomValid(room) ==> RoomValid(r))
            && (PoolExact(room) ==> PoolExact(r))
  {
    var r := room.(players := room.players + [p], availableColors := rest);
    ColorsAppend(room.players, p);
    assert multiset{p.color} <= multiset(room.availableColors);
    SwapColorBalance(room, r, multiset{}, multiset{p.color});
    if RoomValid(room) {
      AppendKeepsRoster(room.players, p, room.hostId);
    }
  }

  /**
   * Removing `out` from what the roster holds and moving `in` from the pool to
   * the roster keeps the palette balance or lowers it.
   */
  lemma SwapColorBalance(room: Room, r: Room, dropped: multiset<Color>, moved: multiset<Color>)
    requires multiset(Colors(r.players)) == multiset(Colors(room.players)) - dropped + moved
    requires dropped <= multiset(Colors(room.players))
    requires moved <= multiset(room.availableColors)
    requires multiset(r.availableColors) == multiset(room.availableColors) - moved
    ensures multiset(Colors(r.players)) + multiset(r.availableColors)
              == multiset(Colors(room.players)) + multiset(room.availableColors) - dropped
    ensures PoolWithin(room) ==> PoolWithin(r)
    ensures PoolExact(room) && dropped == multiset{} ==> PoolExact(r)
  {
    MultisetSwap(multiset(Colors(room.players)), multiset(room.availableColors),
                 multiset(Colors(r.players)), multiset(r.availableColors), dropped, moved);
  }

  /** Moving `moved` from the pool to the roster and dropping `dropped` from the roster. */
  lemma MultisetSwap(held: multiset<Color>, pool: multiset<Color>, held': multiset<Color>, pool': multiset<Color>,
                     dropped: multiset<Color>, moved: multiset<Color>)
    requires held' == held - dropped + moved && dropped <= held
    requires pool' == pool - moved && moved <= pool
    ensures held' + pool' == held + pool - dropped
  {
  }

  lemma AppendKeepsRoster(ps: seq<Player>, p: Player, host: SocketId)
    requires DistinctIds(ps) && !HasPlayer(ps, p.id) && HasPlayer(ps, host)
    requires forall i :: 0 <= i < |ps| ==> ps[i].socketId == ps[i].id
    requires p.socketId == p.id
    ensures DistinctIds(ps + [p]) && HasPlayer(ps + [p], host)
    ensures forall i :: 0 <= i < |ps + [p]| ==> (ps + [p])[i].socketId == (ps + [p])[i].id
  {
    var qs := ps + [p];
    var h :| 0 <= h < |ps| && ps[h].id == host;
    assert qs[h].id == host;
    forall i, j | 0 <= i < j < |qs| ensures qs[i].id != qs[j].id {
      assert qs[i] == ps[i];
      if j < |ps| { assert qs[j] == ps[j]; }
    }
  }

  lemma JoinOverwrites(room: Room, k: nat, p: Player, rest: seq<Color>)
    requires k < |room.players| && room.players[k].id == p.id
    requires p.color in room.availableColors
    requires multiset(rest) == multiset(room.availableColors) - multiset{p.color}
    requires p.socketId == p.id
    ensures RoomValid(room) ==> RoomValid(room.(players := room.players[k := p], availableColors := rest))
  {
    var r := room.(players := room.players[k := p], availableColors := rest);
    if RoomValid(room) {
      OverwriteKeepsPoolWithin(room, k, p, rest);
      OverwriteKeepsRoster(room.players, k, p, room.hostId);
    }
  }

  /** Overwriting a record with one under the same key keeps the roster's keys sound. */
  lemma OverwriteKeepsRoster(ps: seq<Player>, k: nat, p: Player, host: SocketId)
    requires k < |ps| && ps[k].id == p.id && p.socketId == p.id
    requires DistinctIds(ps) && HasPlayer(ps, host)
    requires forall j :: 0 <= j < |ps| ==> ps[j].socketId == ps[j].id
    ensures var qs := ps[k := p];
            && DistinctIds(qs) && HasPlayer(qs, host)
            && (forall j :: 0 <= j < |qs| ==> qs[j].socketId == qs[j].id)
  {
    var qs := ps[k := p];
    forall j | 0 <= j < |qs| ensures qs[j].id == ps[j].id && qs[j].socketId == ps[j].socketId {
      if j != k { assert qs[j] == ps[j]; }
    }
    SameKeysKeepRoster(ps, qs, host);
  }

  /** Overwriting a record with one holding a pooled colour leaks the old colour, never duplicates. */
  lemma OverwriteKeepsPoolWithin(room: Room, k: nat, p: Player, rest: seq<Color>)
    requires k < |room.players| && PoolWithin(room)
    requires p.color in room.availableColors
    requires multiset(rest) == multiset(room.availableColors) - multiset{p.color}
    ensures PoolWithin(room.(players := room.players[k := p], availableColors := rest))
  {
    var r := room.(players := room.players[k := p], availableColors := rest);
    ColorsUpdate(room.players, k, p);
    ColorHeld(room.players, k);
    assert multiset{p.color} <= multiset(room.availableColors);
    SwapColorBalance(room, r, multiset{room.players[k].color}, multiset{p.color});
  }

  /** A roster whose slots keep their keys keeps distinct keys and its host. */
  lemma SameKeysKeepRoster(ps: seq<Player>, qs: seq<Player>, host: SocketId)
    requires |qs| == |ps| && forall i :: 0 <= i < |ps| ==> qs[i].id == ps[i].id && qs[i].socketId == ps[i].socketId
    requires DistinctIds(ps) && HasPlayer(ps, host)
    ensures DistinctIds(qs) && HasPlayer(qs, host)
  {
    var h :| 0 <= h < |ps| && ps[h].id == host;
    assert qs[h].id == host;
  }

  lemma SameKeysKeepAbsent(ps: seq<Player>, qs: seq<Player>, key: SocketId)
    requires |qs| == |ps| && forall i :: 0 <= i < |ps| ==> qs[i].id == ps[i].id
    requires !HasPlayer(ps, key)
    ensures !HasPlayer(qs, key)
  {
    forall i | 0 <= i < |qs| ensures qs[i].id != key {
      assert qs[i].id == ps[i].id;
    }
  }

  /** `select-game-mode` on an existing room: host only, in any state. */
  function SelectModeStep(room: Room, sender: SocketId, mode: Option<GameMode>): (s: Step)
    ensures sender != room.hostId ==>
              s == Step(room, [Refuse(sender, "Only host can select game mode")])
    ensures sender == room.hostId ==>
              s.room == room.(gameMode := mode) &&
              s.out == [Emit(ToRoom(room.id), GameModeSelected(mode, Serialize(s.room)))]
  {
    if sender != room.hostId then Step(room, [Refuse(sender, "Only host can select game mode")])
    else
      var r := room.(gameMode := mode);
      Step(r, [Emit(ToRoom(room.id), GameModeSelected(mode, Serialize(r)))])
  }

  /** `toggle-ready` on an existing room: flips a present non-host player's flag. */
  function ToggleReadyStep(room: Room, sender: SocketId): (s: Step)
    ensures !HasPlayer(room.players, sender) || sender == room.hostId ==> s == Step(room, [])
    ensures HasPlayer(room.players, sender) && sender != room.hostId ==>
              var i := IndexOf(room.players, sender).value;
              var q := room.players[i];
              && s.room == room.(players := room.players[i := q.(ready := !q.ready)])
              && s.out == [Emit(ToRoom(room.id), RoomUpdated(Serialize(s.room)))]
  {
    match IndexOf(room.players, sender)
    case None => Step(room, [])
    case Some(i) =>
      if sender == room.hostId then Step(room, [])
      else
        var q := room.players[i];
        var r := room.(players := room.players[i := q.(ready := !q.ready)]);
        Step(r, [Emit(ToRoom(room.id), RoomUpdated(Serialize(r)))])
  }

  /**
   * `start-game` on an existing room: the host starts it once a mode is set
   * and every player is ready. There is no check of the current state.
   */
  function StartStep(room: Room, sender: SocketId): (s: Step)
    ensures sender != room.hostId ==>
              s == Step(room, [Refuse(sender, "Only host can start the game")])
    ensures sender == room.hostId && room.gameMode.None? ==>
              s == Step(room, [Refuse(sender, "Please select a game mode first")])
    ensures sender == room.hostId && room.gameMode.Some? && !AllReady(room.players) ==>
              s == Step(room, [Refuse(sender, "Not all players are ready")])
    ensures sender == room.hostId && room.gameMode.Some? && AllReady(room.players) ==>
              s.room == room.(state := Playing) && s.out == [Emit(ToRoom(room.id), GameStarted(Serialize(s.room)))]
  {
    if sender != room.hostId then Step(room, [Refuse(sender, "Only host can start the game")])
    else if room.gameMode.None? then Step(room, [Refuse(sender, "Please select a game mode first")])
    else if !AllReady(room.players) then Step(room, [Refuse(sender, "Not all players are ready")])
    else
      var r := room.(state := Playing);
      Step(r, [Emit(ToRoom(room.id), GameStarted(Serialize(r)))])
  }

  /** `player-move` on an existing room: stores and relays the position of an alive player while playing. */
  function MoveStep(room: Room, sender: SocketId, position: Position): (s: Step)
    ensures room.state != Playing || !HasPlayer(room.players, sender) ==> s == Step(room, [])
    ensures room.state == Playing && HasPlayer(room.players, sender) ==>
              var i := IndexOf(room.players, sender).value;
              var q := room.players[i];
              if q.alive then
                && s.room == room.(players := room.players[i := q.(position := position)])
                && s.out == [Emit(ToOthers(sender, room.id), PlayerMoved(sender, position))]
              else s == Step(room, [])
  {
    if room.state != Playing then Step(room, [])
    else
      match IndexOf(room.players, sender)
      case None => Step(room, [])
      case Some(i) =>
        var q := room.players[i];
        if !q.alive then Step(room, [])
        else
          var r := room.(players := room.players[i := q.(position := position)]);
          Step(r, [Emit(ToOthers(sender, room.id), PlayerMoved(sender, position))])
  }

  /**
   * `player-died` on an existing room: while playing, the sender's record is
   * marked dead and the death announced; then one survivor wins, no survivor
   * ends the game without a winner, two or more keep it going.
   */
  function DeathStep(room: Room, sender: SocketId): (s: Step)
    ensures room.state != Playing || !HasPlayer(room.players, sender) ==> s == Step(room, [])
    ensures room.state == Playing && HasPlayer(room.players, sender) ==>
              var i := IndexOf(room.players, sender).value;
              var q := room.players[i];
              var ps := room.players[i := q.(alive := false)];
              var alive := AlivePlayers(ps);
              var died := Emit(ToRoom(room.id), PlayerDied(sender, q.name));
              && (|alive| == 1 ==>
                    && s.room == room.(players := ps, state := Finished, winner := Some(alive[0].name))
                    && s.out == [died, Emit(ToRoom(room.id), GameFinished(alive[0].name, Some(alive[0].id)))])
              && (|alive| == 0 ==>
                    && s.room == room.(players := ps, state := Finished, winner := None)
                    && s.out == [died, Emit(ToRoom(room.id), GameFinished("No one", None))])
              && (|alive| >= 2 ==> s.room == room.(players := ps) && s.out == [died])
  {
    if room.state != Playing then Step(room, [])
    else
      match IndexOf(room.players, sender)
      case None => Step(room, [])
      case Some(i) =>
        var q := room.players[i];
        var ps := room.players[i := q.(alive := false)];
        var died := Emit(ToRoom(room.id), PlayerDied(sender, q.name));
        var alive := AlivePlayers(ps);
        if |alive| == 1 then
          var r := room.(players := ps, state := Finished, winner := Some(alive[0].name));
          Step(r, [died, Emit(ToRoom(room.id), GameFinished(alive[0].name, Some(alive[0].id)))])
        else if |alive| == 0 then
          var r := room.(players := ps, state := Finished, winner := None);
          Step(r, [died, Emit(ToRoom(room.id), GameFinished("No one", None))])
        else
          Step(room.(players := ps), [died])
  }

  /** Whether the host may drive the shared enemy list: a playing shared-arena room. */
  predicate EnemyAuthority(room: Room, sender: SocketId) {
    room.state == Playing && room.gameMode == Some(SharedArena) && sender == room.hostId
  }

  /** `spawn-enemy` on an existing room. */
  function SpawnStep(room: Room, sender: SocketId, enemy: Enemy): (s: Step)
    ensures !EnemyAuthority(room, sender) ==> s == Step(room, [])
    ensures EnemyAuthority(room, sender) ==>
              s.room == room.(enemies := room.enemies + [enemy]) &&
              s.out == [Emit(ToRoom(room.id), EnemySpawned(enemy))]
  {
    if !EnemyAuthority(room, sender) then Step(room, [])
    else Step(room.(enemies := room.enemies + [enemy]), [Emit(ToRoom(room.id), EnemySpawned(enemy))])
  }

  /** `update-enemies` on an existing room. */
  function UpdateEnemiesStep(room: Room, sender: SocketId, enemies: seq<Enemy>): (s: Step)
    ensures !EnemyAuthority(room, sender) ==> s == Step(room, [])
    ensures EnemyAuthority(room, sender) ==>
              s.room == room.(enemies := enemies) &&
              s.out == [Emit(ToOthers(sender, room.id), EnemiesUpdated(enemies))]
  {
    if !EnemyAuthority(room, sender) then Step(room, [])
    else Step(room.(enemies := enemies), [Emit(ToOthers(sender, room.id), EnemiesUpdated(enemies))])
  }

  /**
   * `handlePlayerLeave` on an existing room: the leaver's colour goes back to
   * the pool and its record is deleted; a departing host hands over to the
   * first remaining player, who becomes ready; the last player's departure
   * deletes the room.
   */
  function LeaveStep(room: Room, sender: SocketId): (o: Outcome)
    ensures !HasPlayer(room.players, sender) ==> o == Outcome(Some(room), [])
    ensures HasPlayer(room.players, sender) ==>
              var i := IndexOf(room.players, sender).value;
              var gone := room.players[i];
              var ps := RemoveAt(room.players, i);
              var pool := room.availableColors + [gone.color];
              && (sender != room.hostId ==>
                    var r := room.(players := ps, availableColors := pool);
                    o == Outcome(Some(r), [Emit(ToRoom(room.id), PlayerLeft(sender, gone.name, Serialize(r)))]))
              && (sender == room.hostId && ps != [] ==>
                    var r := room.(hostId := ps[0].socketId, players := ps[0 := ps[0].(ready := true)],
                                   availableColors := pool);
                    o == Outcome(Some(r), [Emit(ToRoom(room.id), HostChanged(ps[0].socketId, Serialize(r))),
                                           Emit(ToRoom(room.id), PlayerLeft(sender, gone.name, Serialize(r)))]))
              && (sender == room.hostId && ps == [] ==> o == Outcome(None, []))
  {
    match IndexOf(room.players, sender)
    case None => Outcome(Some(room), [])
    case Some(i) =>
      var gone := room.players[i];
      var pool := ReturnColor(room.availableColors, gone.color);
      var ps := RemoveAt(room.players, i);
      if sender == room.hostId then
        if |ps| > 0 then
          var heir := ps[0];
          var r := room.(hostId := heir.socketId, players := ps[0 := heir.(ready := true)], availableColors := pool);
          Outcome(Some(r), [Emit(ToRoom(room.id), HostChanged(heir.socketId, Serialize(r))),
                            Emit(ToRoom(room.id), PlayerLeft(sender, gone.name, Serialize(r)))])
        else
          Outcome(None, [])
      else
        var r := room.(players := ps, availableColors := pool);
        Outcome(Some(r), [Emit(ToRoom(room.id), PlayerLeft(sender, gone.name, Serialize(r)))])
  }

  /** Removing the record at `i` and returning its colour keeps the room's invariants, host aside. */
  lemma LeaveKeepsRoom(room: Room, i: nat)
    requires i < |room.players|
    ensures var gone := room.players[i];
            var r := room.(players := RemoveAt(room.players, i), availableColors := room.availableColors + [gone.color]);
            && multiset(Colors(r.players)) + multiset(r.availableColors)
                 == multiset(Colors(room.players)) + multiset(room.availableColors)
            && (RoomValid(room) ==> DistinctIds(r.players) && !HasPlayer(r.players, gone.id))
            && (RoomValid(room) && room.hostId != gone.id ==> RoomValid(r))
  {
    var gone := room.players[i];
    var r := room.(players := RemoveAt(room.players, i), availableColors := room.availableColors + [gone.color]);
    assert multiset(Colors(r.players)) + multiset(r.availableColors)
        == multiset(Colors(room.players)) + multiset(room.availableColors) by {
      ColorsRemove(room.players, i);
      assert Colors(room.players)[i] == gone.color;
      assert gone.color in multiset(Colors(room.players));
    }
    if RoomValid(room) {
      RemoveKeepsRoster(room.players, i, room.hostId);
    }
  }

  /** Deleting one entry keeps keys distinct, drops that key, and keeps every other key. */
  lemma RemoveKeepsRoster(ps: seq<Player>, i: nat, host: SocketId)
    requires i < |ps| && DistinctIds(ps)
    requires forall j :: 0 <= j < |ps| ==> ps[j].socketId == ps[j].id
    ensures var qs := RemoveAt(ps, i);
            && DistinctIds(qs) && !HasPlayer(qs, ps[i].id)
            && (forall j :: 0 <= j < |qs| ==> qs[j].socketId == qs[j].id)
            && (HasPlayer(ps, host) && host != ps[i].id ==> HasPlayer(qs, host))
  {
    var qs := RemoveAt(ps, i);
    forall j | 0 <= j < |qs| ensures qs[j].id != ps[i].id {
      if j < i { assert qs[j] == ps[j]; } else { assert qs[j] == ps[j + 1]; }
    }
    if HasPlayer(ps, host) && host != ps[i].id {
      var h :| 0 <= h < |ps| && ps[h].id == host;
      if h < i { assert qs[h].id == host; } else { assert qs[h - 1].id == host; }
    }
  }

  /** Handing the host role to the first remaining player keeps the room's invariants. */
  lemma HandOverKeepsRoom(room: Room, i: nat, r: Room)
    requires i < |room.players| && |room.players| > 1
    requires var ps := RemoveAt(room.players, i);
             r == room.(hostId := ps[0].socketId, players := ps[0 := ps[0].(ready := true)],
                        availableColors := room.availableColors + [room.players[i].color])
    ensures RoomValid(room) ==> RoomValid(r) && !HasPlayer(r.players, room.players[i].id)
    ensures RoomValid(room) && PoolExact(room) ==> PoolExact(r)
  {
    var ps := RemoveAt(room.players, i);
    var gone := room.players[i];
    assert multiset(Colors(r.players)) + multiset(r.availableColors)
        == multiset(Colors(room.players)) + multiset(room.availableColors) by {
      LeaveKeepsRoom(room, i);
      assert Colors(r.players) == Colors(ps);
    }
    if RoomValid(room) {
      HandOverRoster(room.players, i, room.hostId);
    }
  }

  /** The roster after a departure and a handover to the first remaining player keeps its keys sound. */
  lemma HandOverRoster(players: seq<Player>, i: nat, host: SocketId)
    requires i < |players| && |players| > 1 && DistinctIds(players)
    requires forall j :: 0 <= j < |players| ==> players[j].socketId == players[j].id
    ensures var ps := RemoveAt(players, i);
            var qs := ps[0 := ps[0].(ready := true)];
            && DistinctIds(qs) && HasPlayer(qs, ps[0].socketId) && !HasPlayer(qs, players[i].id)
            && (forall j :: 0 <= j < |qs| ==> qs[j].socketId == qs[j].id)
  {
    var ps := RemoveAt(players, i);
    var qs := ps[0 := ps[0].(ready := true)];
    RemoveKeepsRoster(players, i, host);
    assert qs[0].id == ps[0].socketId;
    SameKeysKeepRoster(ps, qs, ps[0].id);
    SameKeysKeepAbsent(ps, qs, players[i].id);
  }

  // ---------------------------------------------------------------------------
  // The room invariant across every event
  // ---------------------------------------------------------------------------

  /** A room event other than a leave, with its payload; the sender is the connection it came from. */
  datatype Action =
    | Join(sender: SocketId, name: string, pick: nat)
    | SelectMode(sender: SocketId, mode: Option<GameMode>)
    | ToggleReady(sender: SocketId)
    | Start(sender: SocketId)
    | Move(sender: SocketId, position: Position)
    | Die(sender: SocketId)
    | Spawn(sender: SocketId, enemy: Enemy)
    | UpdateEnemies(sender: SocketId, enemies: seq<Enemy>)

  /** The step the event's handler takes on an existing room. */
  function Apply(room: Room, a: Action): Step {
    match a
    case Join(sender, name, pick) => JoinStep(room, sender, name, pick)
    case SelectMode(sender, mode) => SelectModeStep(room, sender, mode)
    case ToggleReady(sender) => ToggleReadyStep(room, sender)
    case Start(sender) => StartStep(room, sender)
    case Move(sender, position) => MoveStep(room, sender, position)
    case Die(sender) => DeathStep(room, sender)
    case Spawn(sender, enemy) => SpawnStep(room, sender, enemy)
    case UpdateEnemies(sender, enemies) => UpdateEnemiesStep(room, sender, enemies)
  }

  lemma JoinKeepsValid(room: Room, sender: SocketId, name: string, pick: nat)
    requires RoomValid(room)
    ensures RoomValid(JoinStep(room, sender, name, pick).room)
    ensures PoolExact(room) && !HasPlayer(room.players, sender) ==> PoolExact(JoinStep(room, sender, name, pick).room)
  {
    var (c, rest) := TakeColor(room.availableColors, pick);
    if room.state == Waiting && |room.players| < room.maxPlayers && c.Some? {
      JoinKeepsRoom(room, JoinRecord(sender, name, c.value), rest);
    }
  }

  lemma ToggleKeepsValid(room: Room, sender: SocketId)
    ensures RoomValid(room) ==> RoomValid(ToggleReadyStep(room, sender).room)
    ensures PoolExact(room) ==> PoolExact(ToggleReadyStep(room, sender).room)
  {
    var r := ToggleReadyStep(room, sender).room;
    assert SameSlots(room.players, r.players);
    SameSlotsKeepRoom(room, r);
  }

  lemma MoveKeepsValid(room: Room, sender: SocketId, position: Position)
    ensures RoomValid(room) ==> RoomValid(MoveStep(room, sender, position).room)
    ensures PoolExact(room) ==> PoolExact(MoveStep(room, sender, position).room)
  {
    var r := MoveStep(room, sender, position).room;
    assert SameSlots(room.players, r.players);
    SameSlotsKeepRoom(room, r);
  }

  lemma DeathKeepsValid(room: Room, sender: SocketId)
    ensures RoomValid(room) ==> RoomValid(DeathStep(room, sender).room)
    ensures PoolExact(room) ==> PoolExact(DeathStep(room, sender).room)
  {
    var r := DeathStep(room, sender).room;
    assert SameSlots(room.players, r.players);
    SameSlotsKeepRoom(room, r);
  }

  /** A step that leaves roster, host, capacity and pool alone keeps the invariants. */
  lemma RosterUntouched(room: Room, r: Room)
    requires r.players == room.players && r.hostId == room.hostId
    requires r.maxPlayers == room.maxPlayers && r.availableColors == room.availableColors
    ensures RoomValid(room) ==> RoomValid(r)
    ensures PoolExact(room) ==> PoolExact(r)
  {
  }

  /**
   * A leave keeps a remaining room valid with the sender gone, keeps its
   * colours balanced, and deletes the room exactly when the sender was its
   * only player.
   */
  lemma LeaveKeepsValidRoom(room: Room, sender: SocketId)
    requires RoomValid(room)
    ensures var o := LeaveStep(room, sender);
            && (o.room.Some? ==> RoomValid(o.room.value) && !HasPlayer(o.room.value.players, sender))
            && (PoolExact(room) && o.room.Some? ==> PoolExact(o.room.value))
            && (o.room.None? <==> |room.players| == 1 && HasPlayer(room.players, sender))
  {
    match IndexOf(room.players, sender)
    case None =>
    case Some(i) =>
      var gone := room.players[i];
      var ps := RemoveAt(room.players, i);
      var pool := room.availableColors + [gone.color];
      if sender != room.hostId {
        var r := room.(players := ps, availableColors := pool);
        assert RoomValid(r) && !HasPlayer(r.players, sender) && (PoolExact(room) ==> PoolExact(r)) by {
          LeaveKeepsRoom(room, i);
        }
        assert LeaveStep(room, sender).room == Some(r);
      } else if |ps| > 0 {
        var r := room.(hostId := ps[0].socketId, players := ps[0 := ps[0].(ready := true)], availableColors := pool);
        assert RoomValid(r) && !HasPlayer(r.players, sender) && (PoolExact(room) ==> PoolExact(r)) by {
          HandOverKeepsRoom(room, i, r);
        }
        assert LeaveStep(room, sender).room == Some(r);
      } else {
        assert LeaveStep(room, sender).room == None;
      }
  }

  // ---------------------------------------------------------------------------
  // A game ends at most once
  // ---------------------------------------------------------------------------

  /** How many `game-finished` announcements a stretch of emissions holds. */
  function Finishes(out: seq<Emission>): nat {
    if out == [] then 0
    else (if out[0].event.GameFinished? then 1 else 0) + Finishes(out[1..])
  }

  lemma {:induction false} FinishesAppend(a: seq<Emission>, b: seq<Emission>)
    ensures Finishes(a + b) == Finishes(a) + Finishes(b)
    decreases |a|
  {
    if a == [] {
      assert a + b == b;
    } else {
      assert (a + b)[0] == a[0] && (a + b)[1..] == a[1..] + b;
      FinishesAppend(a[1..], b);
    }
  }

  /** One if a game is in progress in the room, else zero. */
  function InPlay(room: Room): nat {
    if room.state == Playing then 1 else 0
  }

  /** A run of room events, each applied to the room the previous one left. */
  function Run(room: Room, actions: seq<Action>): (s: Step)
    decreases |actions|
  {
    if actions == [] then Step(room, [])
    else
      var first := Apply(room, actions[0]);
      var rest := Run(first.room, actions[1..]);
      Step(rest.room, first.out + rest.out)
  }

  lemma FinishesOne(e: Emission)
    ensures Finishes([e]) == if e.event.GameFinished? then 1 else 0
  {
    assert [e][1..] == [];
  }

  /** A death announces the end of the game only when it takes the room out of play. */
  lemma DeathFinishes(room: Room, sender: SocketId)
    ensures var s := DeathStep(room, sender);
            && Finishes(s.out) + InPlay(s.room) == InPlay(room)
            && (Finishes(s.out) == 0 ==> s.room.winner == room.winner)
  {
    var s := DeathStep(room, sender);
    if room.state == Playing && HasPlayer(room.players, sender) {
      var i := IndexOf(room.players, sender).value;
      var q := room.players[i];
      var alive := AlivePlayers(room.players[i := q.(alive := false)]);
      var died := Emit(ToRoom(room.id), PlayerDied(sender, q.name));
      FinishesOne(died);
      if |alive| <= 1 {
        FinishesOne(s.out[1]);
        assert s.out == [died] + [s.out[1]];
        FinishesAppend([died], [s.out[1]]);
      }
    }
  }

  /**
   * No event but `start-game` puts a room into play, and only a death, which
   * takes the room out of play, announces the end of a game.
   */
  lemma StepFinishes(room: Room, a: Action)
    requires !a.Start?
    ensures var s := Apply(room, a);
            && Finishes(s.out) + InPlay(s.room) == InPlay(room)
            && (Finishes(s.out) == 0 ==> s.room.winner == room.winner)
  {
    var s := Apply(room, a);
    if a.Die? {
      DeathFinishes(room, a.sender);
    } else {
      assert s.room.state == room.state && s.room.winner == room.winner
             && forall k :: 0 <= k < |s.out| ==> !s.out[k].event.GameFinished? by {
        QuietStep(room, a);
      }
      FinishesNone(s.out);
    }
  }

  /** Every event but `start-game` and `player-died` keeps the room's state and winner and announces no end. */
  lemma QuietStep(room: Room, a: Action)
    requires !a.Start? && !a.Die?
    ensures var s := Apply(room, a);
            && s.room.state == room.state && s.room.winner == room.winner
            && forall k :: 0 <= k < |s.out| ==> !s.out[k].event.GameFinished?
  {
    match a
    case Join(sender, name, pick) =>
    case SelectMode(sender, mode) =>
    case ToggleReady(sender) =>
    case Move(sender, position) =>
    case Spawn(sender, enemy) =>
    case UpdateEnemies(sender, enemies) =>
  }

  lemma {:induction false} FinishesNone(out: seq<Emission>)
    requires forall k :: 0 <= k < |out| ==> !out[k].event.GameFinished?
    ensures Finishes(out) == 0
    decreases |out|
  {
    if out != [] {
      assert forall k :: 0 <= k < |out[1..]| ==> out[1..][k] == out[k + 1];
      FinishesNone(out[1..]);
    }
  }

  /**
   * Without a `start-game` in between, a room announces the end of a game
   * exactly once if the run takes it out of play and never otherwise, and its
   * winner changes only in a run that announces an end.
   */
  lemma {:induction false} RunFinishesOnce(room: Room, actions: seq<Action>)
    requires forall k :: 0 <= k < |actions| ==> !actions[k].Start?
    ensures var s := Run(room, actions);
            && Finishes(s.out) + InPlay(s.room) == InPlay(room)
            && Finishes(s.out) <= 1
            && (room.state != Playing ==> Finishes(s.out) == 0)
            && (room.state == Playing && s.room.state != Playing ==> Finishes(s.out) == 1)
            && (Finishes(s.out) == 0 ==> s.room.winner == room.winner)
    decreases |actions|
  {
    if actions != [] {
      var first := Apply(room, actions[0]);
      var rest := Run(first.room, actions[1..]);
      StepFinishes(room, actions[0]);
      RunFinishesOnce(first.room, actions[1..]);
      FinishesAppend(first.out, rest.out);
    }
  }
}
