/**
 * The relay server's process-wide registry: the Map from room id to room (with
 * its keys in insertion order, which `disconnect` walks), and the log of every
 * message the handlers send. One method per socket event; each takes the
 * sender's connection id and is proved to do what the room step of the same
 * event in module Rooms says.
 */
module Server {
  import opened Wrappers
  import opened Rooms

  predicate NoDuplicates(s: seq<RoomId>) {
    forall i, j :: 0 <= i < j < |s| ==> s[i] != s[j]
  }

  /** `rooms.delete(k)` seen on the key order. */
  function Without(order: seq<RoomId>, k: RoomId): (r: seq<RoomId>)
    ensures forall x :: x in r <==> x in order && x != k
    ensures NoDuplicates(order) ==> NoDuplicates(r)
    ensures k !in order ==> r == order
  {
    if order == [] then []
    else
      var rest := Without(order[1..], k);
      assert forall x :: x in order <==> x == order[0] || x in order[1..];
      if order[0] == k then rest
      else
        assert NoDuplicates(order) ==> order[0] !in order[1..] by {
          if NoDuplicates(order) {
            forall j | 0 <= j < |order| - 1 ensures order[1..][j] != order[0] {
              assert order[1..][j] == order[j + 1];
            }
          }
        }
        [order[0]] + rest
  }
  /** `Map.delete` of a key present once removes its one slot and keeps the other keys in insertion order. */
  lemma WithoutKeepsOrder(order: seq<RoomId>, k: RoomId)
    requires NoDuplicates(order) && k in order
    ensures exists i :: 0 <= i < |order| && order[i] == k && Without(order, k) == order[..i] + order[i + 1..]
  {
    var i :| 0 <= i < |order| && order[i] == k;
    WithoutAt(order, k, i);
  }

  /** Deleting a key that sits only at slot `i` removes exactly that slot. */
  lemma {:induction false} WithoutAt(order: seq<RoomId>, k: RoomId, i: nat)
    requires i < |order| && order[i] == k
    requires forall j :: 0 <= j < |order| && j != i ==> order[j] != k
    ensures Without(order, k) == order[..i] + order[i + 1..]
    decreases |order|
  {
    if i == 0 {
      WithoutHead(order, k);
    } else {
      var tail := order[1..];
      assert forall j :: 0 <= j < |tail| && j != i - 1 ==> tail[j] != k by {
        assert forall j :: 0 <= j < |tail| ==> tail[j] == order[j + 1];
      }
      WithoutAt(tail, k, i - 1);
      WithoutCons(order, k);
      DropInTail(order, i);
    }
  }

  lemma WithoutHead(order: seq<RoomId>, k: RoomId)
    requires order != [] && order[0] == k
    requires forall j :: 0 < j < |order| ==> order[j] != k
    ensures Without(order, k) == order[..0] + order[1..]
  {
    var tail := order[1..];
    assert k !in tail by {
      forall j | 0 <= j < |tail| ensures tail[j] != k {
        assert tail[j] == order[j + 1];
      }
    }
    assert order[..0] + order[1..] == tail;
  }

  lemma WithoutCons(order: seq<RoomId>, k: RoomId)
    requires order != [] && order[0] != k
    ensures Without(order, k) == [order[0]] + Without(order[1..], k)
  {
  }

  lemma DropInTail(order: seq<RoomId>, i: nat)
    requires 0 < i < |order|
    ensures order[..i] + order[i + 1..] == [order[0]] + (order[1..][..i - 1] + order[1..][i..])
  {
  }




  /** A room filed under `k` carries `k` as its id and is valid. */
  ghost predicate Filed(rooms: map<RoomId, Room>, k: RoomId) {
    k in rooms ==> rooms[k].id == k && RoomValid(rooms[k])
  }

  /** What every reachable registry satisfies: each room is filed under its own id and is valid. */
  ghost predicate RegistryValid(rooms: map<RoomId, Room>, order: seq<RoomId>) {
    && (forall k {:trigger Filed(rooms, k)} :: Filed(rooms, k))
    && NoDuplicates(order)
    && (forall k :: k in order <==> k in rooms)
  }

  /** Filing a valid room under its own id keeps the registry valid; a new key goes last. */
  lemma StoreKeepsValid(rooms: map<RoomId, Room>, order: seq<RoomId>, k: RoomId, r: Room)
    requires RegistryValid(rooms, order) && r.id == k && RoomValid(r)
    ensures RegistryValid(rooms[k := r], if k in rooms then order else order + [k])
  {
    var filed := rooms[k := r];
    forall j ensures Filed(filed, j) {
      assert Filed(rooms, j);
    }
  }

  /** Every room of a valid registry is filed under its own id. */
  lemma FiledId(rooms: map<RoomId, Room>, order: seq<RoomId>, k: RoomId)
    requires RegistryValid(rooms, order) && k in rooms
    ensures rooms[k].id == k
  {
    assert Filed(rooms, k);
  }

  /** Refiling a room under its key keeps the registry valid when the update keeps the room valid. */
  lemma Refile(rooms: map<RoomId, Room>, order: seq<RoomId>, k: RoomId, r: Room)
    requires RegistryValid(rooms, order) && k in rooms && r.id == k
    requires RoomValid(rooms[k]) ==> RoomValid(r)
    ensures RegistryValid(rooms[k := r], order)
  {
    FiledRoom(rooms, order, k);
    StoreKeepsValid(rooms, order, k, r);
  }

  /** Filing a new room keeps the registry valid. */
  lemma CreateKeepsFiled(rooms: map<RoomId, Room>, order: seq<RoomId>, roomId: RoomId, sender: SocketId, name: string)
    requires RegistryValid(rooms, order)
    ensures RegistryValid(rooms[roomId := NewRoom(roomId, sender, name)], if roomId in rooms then order else order + [roomId])
  {
    NewRoomValid(roomId, sender, name);
    StoreKeepsValid(rooms, order, roomId, NewRoom(roomId, sender, name));
  }

  /** Every room of a valid registry is valid. */
  lemma FiledRoom(rooms: map<RoomId, Room>, order: seq<RoomId>, k: RoomId)
    requires RegistryValid(rooms, order) && k in rooms
    ensures rooms[k].id == k && RoomValid(rooms[k])
  {
    assert Filed(rooms, k);
  }

  /** Filing a map's own entry again changes nothing. */
  lemma StoreSame(rooms: map<RoomId, Room>, k: RoomId)
    requires k in rooms
    ensures rooms[k := rooms[k]] == rooms
  {
  }

  /** A second filing under the same key replaces the first. */
  lemma StoreOver(rooms: map<RoomId, Room>, k: RoomId, a: Room, b: Room)
    ensures rooms[k := a][k := b] == rooms[k := b]
  {
  }

  /**
   * The successful path of `join-room`, as the handler performs it: draw the
   * colour, then store the record in the room with the shrunken pool.
   */
  lemma JoinFiles(rooms: map<RoomId, Room>, order: seq<RoomId>, roomId: RoomId, sender: SocketId, name: string, pick: nat)
    requires RegistryValid(rooms, order) && roomId in rooms
    requires rooms[roomId].state == Waiting && |rooms[roomId].players| < rooms[roomId].maxPlayers
    requires rooms[roomId].availableColors != []
    ensures var room := rooms[roomId];
            var taken := TakeColor(room.availableColors, pick);
            var p := JoinRecord(sender, name, taken.0.value);
            var r := room.(availableColors := taken.1).(players := SetPlayer(room.players, p));
            var s := JoinStep(room, sender, name, pick);
            && s.room == r
            && s.out == [Emit(ToRoom(roomId), PlayerJoined(p, Serialize(r))), Emit(ToSender(sender), RoomJoined(p, Serialize(r)))]
            && RegistryValid(rooms[roomId := r], order)
  {
    var room := rooms[roomId];
    var taken := TakeColor(room.availableColors, pick);
    var p := JoinRecord(sender, name, taken.0.value);
    var r := room.(availableColors := taken.1).(players := SetPlayer(room.players, p));
    FiledId(rooms, order, roomId);
    assert JoinStep(room, sender, name, pick).room == r;
    FiledRoom(rooms, order, roomId);
    JoinKeepsValid(room, sender, name, pick);
    StoreKeepsValid(rooms, order, roomId, r);
  }

  /**
   * The path of `player-died` that marks a present player dead, as the
   * handler performs it: the room after the death, then after the win check.
   */
  lemma DeathFiles(room: Room, sender: SocketId, i: nat)
    requires room.state == Playing && IndexOf(room.players, sender) == Some(i)
    ensures var roomId := room.id;
            var q := room.players[i];
            var marked := room.(players := room.players[i := q.(alive := false)]);
            var alive := AlivePlayers(marked.players);
            var r := if |alive| == 1 then marked.(state := Finished, winner := Some(alive[0].name))
                     else if |alive| == 0 then marked.(state := Finished, winner := None)
                     else marked;
            var finished := if |alive| == 1 then [Emit(ToRoom(roomId), GameFinished(alive[0].name, Some(alive[0].id)))]
                            else if |alive| == 0 then [Emit(ToRoom(roomId), GameFinished("No one", None))]
                            else [];
            var s := DeathStep(room, sender);
            && s.room == r
            && s.out == [Emit(ToRoom(roomId), PlayerDied(sender, q.name))] + finished
  {
  }

  /** Taking a colour from a filed room's pool keeps the registry valid. */
  lemma TakeFiles(rooms: map<RoomId, Room>, order: seq<RoomId>, roomId: RoomId, pick: nat)
    requires RegistryValid(rooms, order) && roomId in rooms
    ensures var room := rooms[roomId];
            RegistryValid(rooms[roomId := room.(availableColors := TakeColor(room.availableColors, pick).1)], order)
  {
    var room := rooms[roomId];
    FiledRoom(rooms, order, roomId);
    TakeKeepsRoom(room, pick);
    StoreKeepsValid(rooms, order, roomId, room.(availableColors := TakeColor(room.availableColors, pick).1));
  }

  /** Deleting a key forgets what was last filed under it. */
  lemma StoreThenDelete(rooms: map<RoomId, Room>, k: RoomId, a: Room)
    ensures rooms[k := a] - {k} == rooms - {k}
  {
  }

  /** Deleting a key keeps the registry valid. */
  lemma DeleteKeepsValid(rooms: map<RoomId, Room>, order: seq<RoomId>, k: RoomId)
    requires RegistryValid(rooms, order)
    ensures RegistryValid(rooms - {k}, Without(order, k))
  {
    var filed := rooms - {k};
    forall j ensures Filed(filed, j) {
      assert Filed(rooms, j);
    }
  }

  /** The registry after an event, and what the event sent. */
  datatype Effect = Effect(rooms: map<RoomId, Room>, order: seq<RoomId>, out: seq<Emission>)

  /** `handlePlayerLeave(sender, roomId)`. */
  function LeaveEffect(rooms: map<RoomId, Room>, order: seq<RoomId>, sender: SocketId, roomId: RoomId): (e: Effect)
    ensures e.rooms.Keys <= rooms.Keys
    ensures forall k :: k in rooms && k != roomId ==> k in e.rooms && e.rooms[k] == rooms[k]
  {
    if roomId !in rooms then Effect(rooms, order, [])
    else
      var o := LeaveStep(rooms[roomId], sender);
      if o.room.None? then Effect(rooms - {roomId}, Without(order, roomId), o.out)
      else Effect(rooms[roomId := o.room.value], order, o.out)
  }

  /**
   * A leave keeps the registry valid, the sender is gone from the room, and
   * the room is deleted exactly when the sender was its only player.
   */
  lemma LeaveKeepsValid(rooms: map<RoomId, Room>, order: seq<RoomId>, sender: SocketId, roomId: RoomId)
    requires RegistryValid(rooms, order)
    ensures var e := LeaveEffect(rooms, order, sender, roomId);
            && RegistryValid(e.rooms, e.order)
            && (roomId in e.rooms ==> !HasPlayer(e.rooms[roomId].players, sender))
            && (roomId in rooms ==>
                  (roomId !in e.rooms <==> |rooms[roomId].players| == 1 && HasPlayer(rooms[roomId].players, sender)))
  {
    if roomId in rooms {
      FiledRoom(rooms, order, roomId);
      LeaveKeepsValidRoom(rooms[roomId], sender);
      var o := LeaveStep(rooms[roomId], sender);
      if o.room.None? {
        DeleteKeepsValid(rooms, order, roomId);
      } else {
        StoreKeepsValid(rooms, order, roomId, o.room.value);
      }
    }
  }

  /**
   * `handlePlayerLeave` as the handler performs it on the registry: return
   * the colour, delete the record, then hand over or delete the room.
   */
  lemma LeaveFiles(rooms: map<RoomId, Room>, order: seq<RoomId>, sender: SocketId, roomId: RoomId)
    requires roomId in rooms && rooms[roomId].id == roomId
    ensures var room := rooms[roomId];
            var e := LeaveEffect(rooms, order, sender, roomId);
            match IndexOf(room.players, sender)
            case None => e == Effect(rooms, order, [])
            case Some(i) =>
              var gone := room.players[i];
              var r := room.(availableColors := room.availableColors + [gone.color]).(players := RemoveAt(room.players, i));
              && (sender != r.hostId ==> e == Effect(rooms[roomId := r], order, [Emit(ToRoom(roomId), PlayerLeft(sender, gone.name, Serialize(r)))]))
              && (sender == r.hostId && r.players == [] ==> e == Effect(rooms - {roomId}, Without(order, roomId), []))
              && (sender == r.hostId && r.players != [] ==>
                    var heir := r.players[0];
                    var r2 := r.(hostId := heir.socketId, players := r.players[0 := heir.(ready := true)]);
                    e == Effect(rooms[roomId := r2], order,
                                [Emit(ToRoom(roomId), HostChanged(heir.socketId, Serialize(r2))),
                                 Emit(ToRoom(roomId), PlayerLeft(sender, gone.name, Serialize(r2)))]))
  {
    var room := rooms[roomId];
    StoreSame(rooms, roomId);
    match IndexOf(room.players, sender)
    case None =>
    case Some(i) =>
      var gone := room.players[i];
      var r := room.(availableColors := room.availableColors + [gone.color]).(players := RemoveAt(room.players, i));
      assert r == room.(players := RemoveAt(room.players, i), availableColors := room.availableColors + [gone.color]);
      assert HasPlayer(room.players, sender);
  }

  /**
   * `disconnect`: every room of `keys`, in that order, that still holds the
   * sender sees it leave.
   */
  function DisconnectEffect(rooms: map<RoomId, Room>, order: seq<RoomId>, sender: SocketId, keys: seq<RoomId>): Effect
    decreases |keys|
  {
    if keys == [] then Effect(rooms, order, [])
    else
      var first := if keys[0] in rooms && HasPlayer(rooms[keys[0]].players, sender)
                   then LeaveEffect(rooms, order, sender, keys[0])
                   else Effect(rooms, order, []);
      var rest := DisconnectEffect(first.rooms, first.order, sender, keys[1..]);
      Effect(rest.rooms, rest.order, first.out + rest.out)
  }

  lemma Regroup(a: seq<Emission>, b: seq<Emission>, c: seq<Emission>)
    ensures a + b + c == a + (b + c)
  {
  }

  /** One step of `disconnect`: the first key, then the rest from the registry it leaves. */
  lemma DisconnectStep(rooms: map<RoomId, Room>, order: seq<RoomId>, sender: SocketId, keys: seq<RoomId>)
    requires keys != []
    ensures var first := if keys[0] in rooms && HasPlayer(rooms[keys[0]].players, sender)
                         then LeaveEffect(rooms, order, sender, keys[0])
                         else Effect(rooms, order, []);
            var rest := DisconnectEffect(first.rooms, first.order, sender, keys[1..]);
            DisconnectEffect(rooms, order, sender, keys) == Effect(rest.rooms, rest.order, first.out + rest.out)
  {
  }

  /**
   * A disconnect keeps the registry valid, creates no room, and leaves a room
   * that did not hold the sender untouched.
   */
  lemma {:induction false} DisconnectKeepsValid(rooms: map<RoomId, Room>, order: seq<RoomId>,
                                                sender: SocketId, keys: seq<RoomId>)
    requires RegistryValid(rooms, order)
    ensures var e := DisconnectEffect(rooms, order, sender, keys);
            && RegistryValid(e.rooms, e.order)
            && e.rooms.Keys <= rooms.Keys
            && (forall k :: k in rooms && !HasPlayer(rooms[k].players, sender) ==> k in e.rooms && e.rooms[k] == rooms[k])
    decreases |keys|
  {
    if keys != [] {
      LeaveKeepsValid(rooms, order, sender, keys[0]);
      var first := if keys[0] in rooms && HasPlayer(rooms[keys[0]].players, sender)
                   then LeaveEffect(rooms, order, sender, keys[0])
                   else Effect(rooms, order, []);
      DisconnectKeepsValid(first.rooms, first.order, sender, keys[1..]);
      DisconnectStep(rooms, order, sender, keys);
    }
  }

  /** After a disconnect that walked every room holding the sender, no room holds it. */
  lemma {:induction false} DisconnectLeavesEverywhere(rooms: map<RoomId, Room>, order: seq<RoomId>,
                                                      sender: SocketId, keys: seq<RoomId>)
    requires RegistryValid(rooms, order)
    requires forall k :: k in rooms && HasPlayer(rooms[k].players, sender) ==> k in keys
    ensures var e := DisconnectEffect(rooms, order, sender, keys);
            forall k :: k in e.rooms ==> !HasPlayer(e.rooms[k].players, sender)
    decreases |keys|
  {
    if keys != [] {
      var k0 := keys[0];
      LeaveKeepsValid(rooms, order, sender, k0);
      var first := if k0 in rooms && HasPlayer(rooms[k0].players, sender)
                   then LeaveEffect(rooms, order, sender, k0)
                   else Effect(rooms, order, []);
      forall k | k in first.rooms && HasPlayer(first.rooms[k].players, sender) ensures k in keys[1..] {
        assert k in keys;
        assert k != k0;
      }
      DisconnectLeavesEverywhere(first.rooms, first.order, sender, keys[1..]);
      DisconnectStep(rooms, order, sender, keys);
    }
  }

  class Registry {
    var rooms: map<RoomId, Room>
    /** The keys of `rooms` in the Map's insertion order. */
    var order: seq<RoomId>
    /** Every message sent so far, in order. */
    var log: seq<Emission>

    ghost predicate Valid()
      reads this
    {
      RegistryValid(rooms, order)
    }

    constructor ()
      ensures Valid() && rooms == map[] && order == [] && log == []
    {
      rooms, order, log := map[], [], [];
    }

    /**
     * `create-room`. The id comes from outside; a room already filed under it
     * is silently replaced.
     */
    method OnCreateRoom(sender: SocketId, roomId: RoomId, name: string)
      requires Valid()
      modifies this
      ensures Valid()
      ensures rooms == old(rooms)[roomId := NewRoom(roomId, sender, name)]
      ensures order == if roomId in old(rooms) then old(order) else old(order) + [roomId]
      ensures log == old(log) + [Emit(ToSender(sender), RoomCreated(roomId, HostRecord(sender, name), Serialize(rooms[roomId])))]
    {
      var color := PLAYER_COLORS[0];
      var room := Room(roomId, sender, [], Waiting, MAX_PLAYERS, PLAYER_COLORS[1..], None, None, []);
      var player := Player(sender, sender, name, color, true, true, SPAWN_POINT);
      assert SetPlayer(room.players, player) == [player];
      room := room.(players := SetPlayer(room.players, player));
      assert room == NewRoom(roomId, sender, name);
      CreateKeepsFiled(rooms, order, roomId, sender, name);
      if roomId !in rooms {
        order := order + [roomId];
      }
      rooms := rooms[roomId := room];
      log := log + [Emit(ToSender(sender), RoomCreated(roomId, player, Serialize(room)))];
    }

    /** `getAvailableColor(room)`: take the colour at the drawn index out of the room's pool. */
    method GetAvailableColor(roomId: RoomId, pick: nat) returns (color: Option<Color>)
      requires roomId in rooms
      modifies this
      ensures var (c, rest) := TakeColor(old(rooms)[roomId].availableColors, pick);
              && color == c
              && rooms == old(rooms)[roomId := old(rooms)[roomId].(availableColors := rest)]
      ensures order == old(order) && log == old(log)
      ensures old(Valid()) ==> Valid()
    {
      var room := rooms[roomId];
      ghost var taken := TakeColor(room.availableColors, pick);
      if |room.availableColors| == 0 {
        StoreSame(rooms, roomId);
        return None;
      }
      var i := pick % |room.availableColors|;
      color := Some(room.availableColors[i]);
      var rest := room.availableColors[..i] + room.availableColors[i + 1..];
      assert (color, rest) == taken;
      if Valid() {
        TakeFiles(rooms, order, roomId, pick);
      }
      rooms := rooms[roomId := room.(availableColors := rest)];
    }

    /** `returnColor(room, color)`: push the colour back onto the room's pool. */
    method ReturnColor(roomId: RoomId, color: Color)
      requires roomId in rooms
      modifies this
      ensures rooms == old(rooms)[roomId := old(rooms)[roomId].(availableColors := old(rooms)[roomId].availableColors + [color])]
      ensures order == old(order) && log == old(log)
    {
      var room := rooms[roomId];
      rooms := rooms[roomId := room.(availableColors := room.availableColors + [color])];
    }

    /** `join-room`. */
    method OnJoinRoom(sender: SocketId, roomId: RoomId, name: string, pick: nat)
      requires Valid()
      modifies this
      ensures Valid() && order == old(order)
      ensures roomId !in old(rooms) ==>
                rooms == old(rooms) && log == old(log) + [Refuse(sender, "Room not found")]
      ensures roomId in old(rooms) ==>
                var s := JoinStep(old(rooms)[roomId], sender, name, pick);
                rooms == old(rooms)[roomId := s.room] && log == old(log) + s.out
    {
      if roomId !in rooms {
        log := log + [Refuse(sender, "Room not found")];
        return;
      }
      ghost var rooms0 := rooms;
      StoreSame(rooms0, roomId);
      var room := rooms[roomId];
      if room.state != Waiting {
        log := log + [Refuse(sender, "Game already in progress")];
        return;
      }
      if |room.players| >= room.maxPlayers {
        log := log + [Refuse(sender, "Room is full")];
        return;
      }
      var color := GetAvailableColor(roomId, pick);
      if color.None? {
        log := log + [Refuse(sender, "No colors available")];
        return;
      }
      JoinFiles(rooms0, order, roomId, sender, name, pick);
      var player := Player(sender, sender, name, color.value, false, true, SPAWN_POINT);
      room := rooms[roomId];
      room := room.(players := SetPlayer(room.players, player));
      StoreOver(rooms0, roomId, rooms[roomId], room);
      rooms := rooms[roomId := room];
      log := log + [Emit(ToRoom(roomId), PlayerJoined(player, Serialize(room))),
                    Emit(ToSender(sender), RoomJoined(player, Serialize(room)))];
      assert Valid();
      assert rooms == old(rooms)[roomId := JoinStep(old(rooms)[roomId], sender, name, pick).room];
      assert log == old(log) + JoinStep(old(rooms)[roomId], sender, name, pick).out;
    }

    /** `select-game-mode`. An unknown room is ignored. */
    method OnSelectGameMode(sender: SocketId, roomId: RoomId, mode: Option<GameMode>)
      requires Valid()
      modifies this
      ensures Valid() && order == old(order)
      ensures roomId !in old(rooms) ==> rooms == old(rooms) && log == old(log)
      ensures roomId in old(rooms) ==>
                var s := SelectModeStep(old(rooms)[roomId], sender, mode);
                rooms == old(rooms)[roomId := s.room] && log == old(log) + s.out
    {
      if roomId in rooms {
        StoreSame(rooms, roomId);
        FiledId(rooms, order, roomId);
      }
      if roomId !in rooms {
        return;
      }
      var room := rooms[roomId];
      if sender != room.hostId {
        log := log + [Refuse(sender, "Only host can select game mode")];
        return;
      }
      room := room.(gameMode := mode);
      assert room == SelectModeStep(rooms[roomId], sender, mode).room;
      assert RegistryValid(rooms[roomId := room], order) by {
        RosterUntouched(rooms[roomId], room);
        Refile(rooms, order, roomId, room);
      }
      rooms := rooms[roomId := room];
      log := log + [Emit(ToRoom(roomId), GameModeSelected(mode, Serialize(room)))];
    }

    /** `toggle-ready`. An unknown room or sender is ignored; so is the host. */
    method OnToggleReady(sender: SocketId, roomId: RoomId)
      requires Valid()
      modifies this
      ensures Valid() && order == old(order)
      ensures roomId !in old(rooms) ==> rooms == old(rooms) && log == old(log)
      ensures roomId in old(rooms) ==>
                var s := ToggleReadyStep(old(rooms)[roomId], sender);
                rooms == old(rooms)[roomId := s.room] && log == old(log) + s.out
    {
      if roomId in rooms {
        StoreSame(rooms, roomId);
        FiledId(rooms, order, roomId);
      }
      if roomId !in rooms {
        return;
      }
      var room := rooms[roomId];
      var at := IndexOf(room.players, sender);
      if at.None? {
        return;
      }
      if sender != room.hostId {
        var i := at.value;
        var player := room.players[i];
        room := room.(players := room.players[i := player.(ready := !player.ready)]);
        assert room == ToggleReadyStep(rooms[roomId], sender).room;
        assert RegistryValid(rooms[roomId := room], order) by {
          ToggleKeepsValid(rooms[roomId], sender);
          Refile(rooms, order, roomId, room);
        }
        rooms := rooms[roomId := room];
        log := log + [Emit(ToRoom(roomId), RoomUpdated(Serialize(room)))];
      }
    }

    /** `start-game`. An unknown room is ignored. */
    method OnStartGame(sender: SocketId, roomId: RoomId)
      requires Valid()
      modifies this
      ensures Valid() && order == old(order)
      ensures roomId !in old(rooms) ==> rooms == old(rooms) && log == old(log)
      ensures roomId in old(rooms) ==>
                var s := StartStep(old(rooms)[roomId], sender);
                rooms == old(rooms)[roomId := s.room] && log == old(log) + s.out
    {
      if roomId in rooms {
        StoreSame(rooms, roomId);
        FiledId(rooms, order, roomId);
      }
      if roomId !in rooms {
        return;
      }
      var room := rooms[roomId];
      if sender != room.hostId {
        log := log + [Refuse(sender, "Only host can start the game")];
        return;
      }
      if room.gameMode.None? {
        log := log + [Refuse(sender, "Please select a game mode first")];
        return;
      }
      if !AllReady(room.players) {
        log := log + [Refuse(sender, "Not all players are ready")];
        return;
      }
      room := room.(state := Playing);
      assert room == StartStep(rooms[roomId], sender).room;
      assert RegistryValid(rooms[roomId := room], order) by {
        RosterUntouched(rooms[roomId], room);
        Refile(rooms, order, roomId, room);
      }
      rooms := rooms[roomId := room];
      log := log + [Emit(ToRoom(roomId), GameStarted(Serialize(room)))];
    }

    /** `player-move`. */
    method OnPlayerMove(sender: SocketId, roomId: RoomId, position: Position)
      requires Valid()
      modifies this
      ensures Valid() && order == old(order)
      ensures roomId !in old(rooms) ==> rooms == old(rooms) && log == old(log)
      ensures roomId in old(rooms) ==>
                var s := MoveStep(old(rooms)[roomId], sender, position);
                rooms == old(rooms)[roomId := s.room] && log == old(log) + s.out
    {
      if roomId in rooms {
        StoreSame(rooms, roomId);
        FiledId(rooms, order, roomId);
      }
      if roomId !in rooms || rooms[roomId].state != Playing {
        return;
      }
      var room := rooms[roomId];
      var at := IndexOf(room.players, sender);
      if at.None? || !room.players[at.value].alive {
        return;
      }
      var i := at.value;
      room := room.(players := room.players[i := room.players[i].(position := position)]);
      assert room == MoveStep(rooms[roomId], sender, position).room;
      assert RegistryValid(rooms[roomId := room], order) by {
        MoveKeepsValid(rooms[roomId], sender, position);
        Refile(rooms, order, roomId, room);
      }
      rooms := rooms[roomId := room];
      log := log + [Emit(ToOthers(sender, roomId), PlayerMoved(sender, position))];
    }

    /** `player-died`, with the last-survivor check. */
    method OnPlayerDied(sender: SocketId, roomId: RoomId)
      requires Valid()
      modifies this
      ensures Valid() && order == old(order)
      ensures roomId !in old(rooms) ==> rooms == old(rooms) && log == old(log)
      ensures roomId in old(rooms) ==>
                var s := DeathStep(old(rooms)[roomId], sender);
                rooms == old(rooms)[roomId := s.room] && log == old(log) + s.out
    {
      if roomId in rooms {
        StoreSame(rooms, roomId);
      }
      if roomId !in rooms || rooms[roomId].state != Playing {
        return;
      }
      var room := rooms[roomId];
      var at := IndexOf(room.players, sender);
      if at.None? {
        return;
      }
      var i := at.value;
      FiledId(rooms, order, roomId);
      DeathFiles(room, sender, i);
      var player := room.players[i];
      room := room.(players := room.players[i := player.(alive := false)]);
      var died := Emit(ToRoom(roomId), PlayerDied(sender, player.name));
      var finished: seq<Emission> := [];
      var alive := AlivePlayers(room.players);
      if |alive| == 1 {
        room := room.(state := Finished, winner := Some(alive[0].name));
        finished := [Emit(ToRoom(roomId), GameFinished(alive[0].name, Some(alive[0].id)))];
      } else if |alive| == 0 {
        room := room.(state := Finished, winner := None);
        finished := [Emit(ToRoom(roomId), GameFinished("No one", None))];
      }
      assert room == DeathStep(rooms[roomId], sender).room;
      assert [died] + finished == DeathStep(rooms[roomId], sender).out;
      assert RegistryValid(rooms[roomId := room], order) by {
        DeathKeepsValid(rooms[roomId], sender);
        Refile(rooms, order, roomId, room);
      }
      rooms := rooms[roomId := room];
      log := log + ([died] + finished);
    }

    /** `spawn-enemy`: host only, in a playing shared-arena room; dropped otherwise. */
    method OnSpawnEnemy(sender: SocketId, roomId: RoomId, enemy: Enemy)
      requires Valid()
      modifies this
      ensures Valid() && order == old(order)
      ensures roomId !in old(rooms) ==> rooms == old(rooms) && log == old(log)
      ensures roomId in old(rooms) ==>
                var s := SpawnStep(old(rooms)[roomId], sender, enemy);
                rooms == old(rooms)[roomId := s.room] && log == old(log) + s.out
    {
      if roomId in rooms {
        StoreSame(rooms, roomId);
        FiledId(rooms, order, roomId);
      }
      if roomId !in rooms || rooms[roomId].state != Playing || rooms[roomId].gameMode != Some(SharedArena) {
        return;
      }
      var room := rooms[roomId];
      if sender != room.hostId {
        return;
      }
      room := room.(enemies := room.enemies + [enemy]);
      assert room == SpawnStep(rooms[roomId], sender, enemy).room;
      assert RegistryValid(rooms[roomId := room], order) by {
        RosterUntouched(rooms[roomId], room);
        Refile(rooms, order, roomId, room);
      }
      rooms := rooms[roomId := room];
      log := log + [Emit(ToRoom(roomId), EnemySpawned(enemy))];
    }

    /** `update-enemies`: host only, in a playing shared-arena room; dropped otherwise. */
    method OnUpdateEnemies(sender: SocketId, roomId: RoomId, enemies: seq<Enemy>)
      requires Valid()
      modifies this
      ensures Valid() && order == old(order)
      ensures roomId !in old(rooms) ==> rooms == old(rooms) && log == old(log)
      ensures roomId in old(rooms) ==>
                var s := UpdateEnemiesStep(old(rooms)[roomId], sender, enemies);
                rooms == old(rooms)[roomId := s.room] && log == old(log) + s.out
    {
      if roomId in rooms {
        StoreSame(rooms, roomId);
        FiledId(rooms, order, roomId);
      }
      if roomId !in rooms || rooms[roomId].state != Playing || rooms[roomId].gameMode != Some(SharedArena) {
        return;
      }
      var room := rooms[roomId];
      if sender != room.hostId {
        return;
      }
      room := room.(enemies := enemies);
      assert room == UpdateEnemiesStep(rooms[roomId], sender, enemies).room;
      assert RegistryValid(rooms[roomId := room], order) by {
        RosterUntouched(rooms[roomId], room);
        Refile(rooms, order, roomId, room);
      }
      rooms := rooms[roomId := room];
      log := log + [Emit(ToOthers(sender, roomId), EnemiesUpdated(enemies))];
    }

    /** `handlePlayerLeave(sender, roomId)`. */
    method HandlePlayerLeave(sender: SocketId, roomId: RoomId)
      requires Valid()
      modifies this
      ensures Valid()
      ensures var e := LeaveEffect(old(rooms), old(order), sender, roomId);
              rooms == e.rooms && order == e.order && log == old(log) + e.out
    {
      LeaveKeepsValid(rooms, order, sender, roomId);
      if roomId !in rooms {
        return;
      }
      FiledId(rooms, order, roomId);
      LeaveFiles(rooms, order, sender, roomId);
      ghost var rooms0 := rooms;
      var room := rooms[roomId];
      var at := IndexOf(room.players, sender);
      if at.None? {
        return;
      }
      var i := at.value;
      var player := room.players[i];
      ReturnColor(roomId, player.color);
      room := rooms[roomId];
      room := room.(players := RemoveAt(room.players, i));
      StoreOver(rooms0, roomId, rooms[roomId], room);
      rooms := rooms[roomId := room];
      if sender == room.hostId {
        if |room.players| > 0 {
          var heir := room.players[0];
          room := room.(hostId := heir.socketId, players := room.players[0 := heir.(ready := true)]);
          StoreOver(rooms0, roomId, rooms[roomId], room);
          rooms := rooms[roomId := room];
          log := log + [Emit(ToRoom(roomId), HostChanged(heir.socketId, Serialize(room)))];
        } else {
          StoreThenDelete(rooms0, roomId, room);
          rooms := rooms - {roomId};
          order := Without(order, roomId);
          return;
        }
      }
      log := log + [Emit(ToRoom(roomId), PlayerLeft(sender, player.name, Serialize(room)))];
    }

    /** `leave-room`. */
    method OnLeaveRoom(sender: SocketId, roomId: RoomId)
      requires Valid()
      modifies this
      ensures Valid()
      ensures var e := LeaveEffect(old(rooms), old(order), sender, roomId);
              rooms == e.rooms && order == e.order && log == old(log) + e.out
    {
      HandlePlayerLeave(sender, roomId);
    }

    /** `disconnect`: leave every room holding the sender, walking the rooms in insertion order. */
    method OnDisconnect(sender: SocketId)
      requires Valid()
      modifies this
      ensures Valid()
      ensures var e := DisconnectEffect(old(rooms), old(order), sender, old(order));
              rooms == e.rooms && order == e.order && log == old(log) + e.out
      ensures forall k :: k in rooms ==> !HasPlayer(rooms[k].players, sender)
    {
      var keys := order;
      ghost var final := DisconnectEffect(rooms, order, sender, keys);
      DisconnectKeepsValid(rooms, order, sender, keys);
      DisconnectLeavesEverywhere(rooms, order, sender, keys);
      var i := 0;
      while i < |keys|
        invariant 0 <= i <= |keys|
        invariant Valid()
        invariant var e := DisconnectEffect(rooms, order, sender, keys[i..]);
                  e.rooms == final.rooms && e.order == final.order && log + e.out == old(log) + final.out
      {
        var k := keys[i];
        ghost var now := Effect(rooms, order, log);
        ghost var first := if k in rooms && HasPlayer(rooms[k].players, sender)
                           then LeaveEffect(rooms, order, sender, k)
                           else Effect(rooms, order, []);
        DisconnectStep(rooms, order, sender, keys[i..]);
        assert keys[i..][0] == k && keys[i..][1..] == keys[i + 1..];
        if k in rooms && HasPlayer(rooms[k].players, sender) {
          HandlePlayerLeave(sender, k);
        }
        assert rooms == first.rooms && order == first.order && log == now.out + first.out;
        ghost var rest := DisconnectEffect(rooms, order, sender, keys[i + 1..]);
        Regroup(now.out, first.out, rest.out);
        i := i + 1;
      }
      assert keys[i..] == [];
    }
  }
}
