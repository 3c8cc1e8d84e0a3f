# Void Dodge: multiplayer rooms and the leaderboard, in Dafny

This project models two parts of the Void Dodge game's back end and proves
properties about them.

- **Room relay** (`server/multiplayer.ts`). This Socket.IO server keeps a map
  of rooms. Each room has:
  - a roster of players, in the order they joined;
  - a host;
  - a pool of the five palette colours;
  - a lifecycle: waiting, playing, finished;
  - a game mode and an enemy list.

  Each socket event changes at most one room and sends messages: create,
  join, select mode, toggle ready, start, move, die, spawn or update enemies,
  leave. A disconnect is the exception: it leaves every room the socket is
  in.
- **Leaderboard endpoint** (`api/leaderboard.ts`). This serverless handler
  keeps one in-memory array of scores.
  - `GET` returns the best ten.
  - `POST` validates a submission, trims the name and cuts it to 20
    characters, floors the score, and inserts the entry. It keeps the best
    hundred and answers with the new entry's rank.
  - `OPTIONS` answers the CORS preflight.
  - Other methods get 405.
  - Every answer carries the same four CORS headers.

Files:

- `wrappers.dfy`: `Option`.
- `rooms.dfy` (module `Rooms`): a room and a player are values. Each event is
  a pure step from the room before to the room after, plus the messages the
  step sends. The invariants and the lemmas about them live here too.
- `server.dfy` (module `Server`): the class `Registry` holds
  - the live `rooms` map;
  - the room ids in the map's insertion order (`order`), which
    `rooms.forEach` walks on disconnect;
  - the log of everything sent.

  There is one method per socket event. The sending socket's id is a
  parameter.
- `leaderboard.dfy` (module `Leaderboard`): the class `Board` holds the
  shared array. `Handle` dispatches on the HTTP method to `Fetch` and
  `Submit`.

Emissions are modelled as values appended to the log:

| source call | target |
|---|---|
| `socket.emit` | `ToSender` |
| `io.to(room).emit` | `ToRoom` |
| `socket.to(room).emit` | `ToOthers` |

The random colour index is a parameter `pick`, and the index used is
`pick % |pool|`. The generated room id, the entry id and the clock reading
are also parameters.

Main results:

- **Every socket-event method of the registry keeps `Registry.Valid`.** In every room:
  - `maxPlayers` is 5;
  - the roster has 1 to 5 players, with distinct ids, and each id is that
    player's socket id;
  - the host is on the roster;
  - held colours plus pooled colours stay inside the palette as a multiset.

  As a consequence, no two players share a colour (`NoColorTwice`), no held
  colour is pooled (`HeldNotPooled`), the pool holds no colour twice
  (`PoolNoRepeat`), and a room with no players is deleted.
- **Colours are conserved exactly**, as long as no socket joins a room it is
  already in. `RejoinLeaksColour` shows what happens when one does: Map.set
  overwrites the player's record, and the old colour is never given back.
- **Joining fails in the source's order:** "Room not found", then "Game
  already in progress", then "Room is full", then "No colors available".
- **Winning:**
  - a death that leaves one player alive finishes the game with that winner;
  - one that leaves nobody alive finishes it with "No one";
  - over any run of events with no `start-game` among them, exactly one
    `game-finished` is sent if the run takes a playing room out of play and
    none otherwise, and the winner changes only in a run that sends one
    (`RunFinishesOnce`).
- **Leaving:**
  - the host's leave hands the room to the next player in join order and
    marks them ready;
  - the last player's leave deletes the room;
  - after a disconnect, no room holds the socket.
- **The leaderboard stays sorted** by score, highest first, with at most 100
  entries.
  - Sorting is stable, as in JavaScript's `Array.prototype.sort`, so an entry
    lands after every entry with the same or a higher score.
  - A submission's rank is one plus the number of entries scoring at least as
    much, or 0 when that position is beyond the hundredth.
  - An entry that is cut off scores no more than every entry kept.
  - Rejected submissions leave the board unchanged, as do `GET`, `OPTIONS`
    and unsupported methods.

Facts about the source that the model keeps as they are:

- The source does not check for room-id collisions: `create-room` overwrites
  a room that has the same id.
- `select-game-mode`, `toggle-ready` and `start-game` do not look at the
  room's state, so a finished room can be started again.
- `start-game` does not reset who is alive or the enemy list.
- When the host leaves and others remain, the source sends `host-changed`
  and then `player-left`.
- Leaving never checks for a winner.
- Only the host may spawn or update enemies, and only in a "shared-arena"
  game that is being played.
- `GET` sorts the shared array in place. The board is always already sorted,
  and the sort is stable, so the array does not change (`SortSorted`).

## Model

| member | source | states |
|---|---|---|
| Rooms.IndexOf | server/multiplayer.ts:188-189 | `room.players.get` finds a player iff the key is on the roster, and the index is the key's first slot |
| Rooms.SetPlayer | server/multiplayer.ts:157 | `Map.set` appends a new key at the end, and overwrites an existing key's record in its own slot (the slot `get` finds) without moving any other record |
| Rooms.SetThenGet | server/multiplayer.ts:157 | after `Map.set` under a key, `Map.get` of that key finds exactly the record just set |
| Rooms.RemoveAt | server/multiplayer.ts:326 | `Map.delete` drops one slot and keeps the order of the others |
| Rooms.AlivePlayers | server/multiplayer.ts:253 | the filter yields no more records than the roster, only living ones, and every living one |
| Rooms.AliveCount | server/multiplayer.ts:253-262 | the filter keeps each living record exactly as often as the roster has it and drops every dead one, so its length is the number of survivors that `player-died` tests |
| Rooms.AllReady | server/multiplayer.ts:216 | definition: every record on the roster is ready |
| Rooms.HexDistinct | server/multiplayer.ts:23 | the five palette strings are pairwise distinct, so the colour enumeration stands for them one to one |
| Rooms.TakeColor | server/multiplayer.ts:64-70 | null iff the pool is empty; otherwise a colour from the pool, spliced out at one index, so the pool loses exactly that colour once |
| Rooms.ReturnColor | server/multiplayer.ts:73-75 | the colour is pushed at the end, and the pool gains exactly it |
| Rooms.TakeThenReturn | server/multiplayer.ts:64-75 | taking a colour and returning it restores the pool as a multiset |
| Rooms.TakeKeepsRoom | server/multiplayer.ts:64-70 | splicing a colour out of a valid room's pool keeps the room valid |
| Rooms.NoColorTwice | server/multiplayer.ts:64-75 | while held plus pooled colours stay inside the palette, no two players share a colour |
| Rooms.HeldNotPooled | server/multiplayer.ts:64-75 | while held plus pooled colours stay inside the palette, no colour any player holds is in the pool |
| Rooms.PoolNoRepeat | server/multiplayer.ts:64-75 | while held plus pooled colours stay inside the palette, the pool holds no colour twice |
| Rooms.NewRoom | server/multiplayer.ts:82-107 | a new room has the given id, is waiting, holds 5 at most, has no mode, no winner and no enemies, pools every colour but the first, and its roster is only its creator: host, ready, alive, at the spawn point, with the first colour |
| Rooms.NewRoomValid | server/multiplayer.ts:83-107 | a new room is valid and its colours are exactly the palette: the host takes the first, the rest are pooled |
| Rooms.Serialize | server/multiplayer.ts:354-364 | definition: the snapshot copies every room field but the colour pool and the enemy list |
| Rooms.SnapshotHidesOnlyPoolAndEnemies | server/multiplayer.ts:354-364 | two rooms serialize alike iff they differ at most in the pool and the enemy list |
| Rooms.PoolFromSnapshot | server/multiplayer.ts:354-364 | in a room whose colours are exactly the palette, the pool is the palette minus the colours the snapshot shows |
| Rooms.JoinStep | server/multiplayer.ts:131-162 | the join errors in order (game in progress, room full, no colours); otherwise a pooled colour is drawn, the sender is added not ready, and `player-joined` goes to the room and `room-joined` to the sender |
| Rooms.JoinKeepsRoom | server/multiplayer.ts:141-157 | storing a joiner with a pooled colour keeps a valid room valid, and keeps exact colours exact for a newcomer |
| Rooms.JoinKeepsValid | server/multiplayer.ts:131-157 | a join step keeps a room valid, and keeps the colours exact when the sender was not on the roster |
| Rooms.RejoinLeaksColour | server/multiplayer.ts:141-157 | when a socket already on the roster joins again, its old colour leaves circulation and the colours are no longer the palette |
| Rooms.SelectModeStep | server/multiplayer.ts:168-179 | only the host sets the mode, which is broadcast; anyone else gets the error and the room is unchanged |
| Rooms.ToggleReadyStep | server/multiplayer.ts:184-195 | a non-host on the roster flips its own ready flag and the room is broadcast; a host or a stranger changes nothing and sends nothing |
| Rooms.ToggleKeepsValid | server/multiplayer.ts:188-195 | toggling keeps the room valid and its colours exact |
| Rooms.StartStep | server/multiplayer.ts:199-223 | start errors in order (not host, no mode, someone not ready); otherwise the room is playing and `game-started` is broadcast |
| Rooms.MoveStep | server/multiplayer.ts:228-238 | only a living player of a playing room moves, and the move goes to the others; otherwise nothing changes and nothing is sent |
| Rooms.MoveKeepsValid | server/multiplayer.ts:235 | a move keeps the room valid and its colours exact |
| Rooms.DeathStep | server/multiplayer.ts:242-271 | in a playing room the sender is marked dead and `player-died` is broadcast; one survivor finishes the game with that winner, none finishes it with "No one", more go on |
| Rooms.DeathKeepsValid | server/multiplayer.ts:249-270 | a death keeps the room valid and its colours exact |
| Rooms.EnemyAuthority | server/multiplayer.ts:277-280 | definition: the room is playing in shared-arena mode and the sender is its host |
| Rooms.SpawnStep | server/multiplayer.ts:275-283 | only the host of a playing shared-arena room appends an enemy, broadcast to the room |
| Rooms.UpdateEnemiesStep | server/multiplayer.ts:287-295 | only the host of a playing shared-arena room replaces the enemies, sent to the others |
| Rooms.LeaveStep | server/multiplayer.ts:317-348 | a stranger changes nothing; a player's colour returns to the pool and it leaves the roster; a non-host leave sends `player-left`; a host leave hands over to the first remaining player, marked ready, and sends `host-changed` then `player-left`; the last player's leave deletes the room silently |
| Rooms.LeaveKeepsRoom | server/multiplayer.ts:325-326 | a leave conserves held plus pooled colours and removes the player's id from the roster |
| Rooms.HandOverKeepsRoom | server/multiplayer.ts:329-334 | handing over to the first remaining player keeps the room valid, its colours exact, and the leaver off the roster |
| Rooms.LeaveKeepsValidRoom | server/multiplayer.ts:317-340 | the room left behind is valid, no longer holds the sender, and keeps exact colours; the room is deleted iff the sender was its only player |
| Rooms.DeathFinishes | server/multiplayer.ts:252-271 | a death sends exactly one `game-finished` when it takes a playing room out of play and none otherwise, and a death that sends none leaves the winner as it was |
| Rooms.QuietStep | server/multiplayer.ts:117-296 | no event but start and death changes a room's state or winner, or sends `game-finished` |
| Rooms.StepFinishes | server/multiplayer.ts:117-296 | a single event other than start sends `game-finished` exactly as often as it ends a game in play, and changes the winner only when it sends one |
| Rooms.FinishesAppend | server/multiplayer.ts:257-269 | counting `game-finished` messages adds over concatenated logs |
| Rooms.RunFinishesOnce | server/multiplayer.ts:242-272 | over any sequence of room events with no start among them, `game-finished` is sent exactly once if the run takes a playing room out of play and never otherwise, so at most once; the winner changes only in a run that sends it |
| Server.Without | server/multiplayer.ts:337 | deleting a key removes it from the key order, keeps the order free of duplicates, and leaves the order as it was when the key is absent |
| Server.WithoutKeepsOrder | server/multiplayer.ts:337 | deleting a key present once removes exactly its slot, so the other keys keep the insertion order that `rooms.forEach` walks |
| Server.StoreKeepsValid | server/multiplayer.ts:108 | `rooms.set` of a valid room under its own id keeps the registry valid, with a new key added at the end of the order |
| Server.CreateKeepsFiled | server/multiplayer.ts:107-108 | filing a new room keeps the registry valid, also when it replaces a room with the same id |
| Server.DeleteKeepsValid | server/multiplayer.ts:337 | deleting a room keeps the registry valid |
| Server.JoinFiles | server/multiplayer.ts:141-162 | a successful join stores the drawn colour's room and sends both join messages, keeping the registry valid |
| Server.TakeFiles | server/multiplayer.ts:141 | drawing a colour in a filed room keeps the registry valid |
| Server.LeaveEffect | server/multiplayer.ts:317-348 | a leave changes no room but its own and adds no room |
| Server.LeaveKeepsValid | server/multiplayer.ts:317-348 | a leave keeps the registry valid and removes the sender from that room; the room disappears iff the sender was its only player |
| Server.DisconnectEffect | server/multiplayer.ts:308-312 | definition: the walk over the room keys in insertion order, leaving each room that holds the sender at the time the walk reaches it |
| Server.DisconnectKeepsValid | server/multiplayer.ts:304-313 | walking the keys on disconnect keeps the registry valid, adds no room, and leaves every room without the sender as it was |
| Server.DisconnectLeavesEverywhere | server/multiplayer.ts:307-312 | after the walk, no room holds the sender |
| Server.Registry.constructor | server/multiplayer.ts:56 | the registry starts empty and valid |
| Server.Registry.OnCreateRoom | server/multiplayer.ts:81-114 | the new room is stored under the given id (overwriting), the id joins the key order if new, and `room-created` goes to the sender |
| Server.Registry.GetAvailableColor | server/multiplayer.ts:64-70 | the room's pool loses the drawn colour, which is returned; nothing else changes |
| Server.Registry.ReturnColor | server/multiplayer.ts:73-75 | the colour is pushed onto that room's pool; nothing else changes |
| Server.Registry.OnJoinRoom | server/multiplayer.ts:117-165 | an unknown room is refused with "Room not found"; otherwise the room and the log follow the join step |
| Server.Registry.OnSelectGameMode | server/multiplayer.ts:168-181 | an unknown room is ignored; otherwise the select step |
| Server.Registry.OnToggleReady | server/multiplayer.ts:184-196 | an unknown room is ignored; otherwise the toggle step |
| Server.Registry.OnStartGame | server/multiplayer.ts:199-225 | an unknown room is ignored; otherwise the start step |
| Server.Registry.OnPlayerMove | server/multiplayer.ts:228-239 | an unknown room is ignored; otherwise the move step |
| Server.Registry.OnPlayerDied | server/multiplayer.ts:242-272 | an unknown room is ignored; otherwise the death step |
| Server.Registry.OnSpawnEnemy | server/multiplayer.ts:275-284 | an unknown room is ignored; otherwise the spawn step |
| Server.Registry.OnUpdateEnemies | server/multiplayer.ts:287-296 | an unknown room is ignored; otherwise the enemy update step |
| Server.Registry.HandlePlayerLeave | server/multiplayer.ts:317-351 | the registry and the log follow the leave effect, and stay valid |
| Server.Registry.OnLeaveRoom | server/multiplayer.ts:299-301 | `leave-room` is the leave effect on the named room |
| Server.Registry.OnDisconnect | server/multiplayer.ts:304-313 | a disconnect leaves every room holding the socket, in key order; afterwards no room holds it |
| Leaderboard.Ahead | api/leaderboard.ts:68-72 | the number of entries scoring at least a score, which is 0 iff every entry scores less and the whole board iff every entry scores at least that much |
| Leaderboard.Lead | api/leaderboard.ts:68-69 | the length of the leading run of entries scoring at least a score |
| Leaderboard.LeadCounts | api/leaderboard.ts:68-72 | on a sorted board, the leading run is exactly the number of entries scoring at least that much |
| Leaderboard.InsertAfterTies | api/leaderboard.ts:68-69 | inserting into a sorted board puts the entry after every entry with the same or a higher score |
| Leaderboard.InsertAdds | api/leaderboard.ts:65 | insertion adds exactly the entry |
| Leaderboard.InsertSorted | api/leaderboard.ts:68-69 | insertion keeps a board sorted |
| Leaderboard.SortDesc | api/leaderboard.ts:68-69 | the stable sort yields a board sorted highest first that is a permutation of its input |
| Leaderboard.SortSorted | api/leaderboard.ts:32-33 | sorting an already sorted board leaves it exactly as it was |
| Leaderboard.Take | api/leaderboard.ts:34 | `slice(0, n)` is the first n entries, or all of them when there are fewer |
| Leaderboard.FindIndex | api/leaderboard.ts:72 | `findIndex` returns -1 or an index of the board |
| Leaderboard.FindIndexFirst | api/leaderboard.ts:72 | `findIndex` is -1 iff no entry has the id, and otherwise the first entry that does |
| Leaderboard.TrimStart | api/leaderboard.ts:52 | drops exactly the leading whitespace and line terminators |
| Leaderboard.TrimEnd | api/leaderboard.ts:52 | drops exactly the trailing whitespace and line terminators |
| Leaderboard.Trim | api/leaderboard.ts:52 | the result is the infix of the name between its leading and trailing whitespace, and neither of its ends is whitespace |
| Leaderboard.TrimEmpty | api/leaderboard.ts:52-54 | a name trims to nothing iff it is all whitespace |
| Leaderboard.TrimIdempotent | api/leaderboard.ts:52 | trimming twice is trimming once |
| Leaderboard.Sanitize | api/leaderboard.ts:52 | the sanitized name is the trimmed name cut to at most 20 characters |
| Leaderboard.SanitizeEmpty | api/leaderboard.ts:52-56 | the sanitized name is empty, which gives "Name is required", iff the name is all whitespace |
| Leaderboard.Invalid | api/leaderboard.ts:48 | definition: the name is missing or falsy, or the score is not a number |
| Leaderboard.NewEntry | api/leaderboard.ts:58-63 | the entry carries the id, the sanitized name, the clock reading, and the floor of the score |
| Leaderboard.Admit | api/leaderboard.ts:65-70 | the board after a submission is sorted, holds at most 100 entries, and holds nothing but old entries and the new one |
| Leaderboard.PostOutcome | api/leaderboard.ts:44-82 | definition: the four outcomes of a submission in the source's order, with the board unchanged by each refusal |
| Leaderboard.AdmitSorted | api/leaderboard.ts:65-70 | on a sorted board, a submission inserts the entry after all entries scoring at least as much and keeps the first hundred |
| Leaderboard.RankOfAdmitted | api/leaderboard.ts:65-72 | with an unused id, the rank is one plus the number of entries scoring at least as much, or 0 when that is beyond the hundredth; a ranked entry sits at that position |
| Leaderboard.AdmitKeepsBest | api/leaderboard.ts:67-70 | an entry dropped by the cut scores no more than any entry kept, and the board is then full |
| Leaderboard.TakeKeepsBest | api/leaderboard.ts:70 | on a sorted board, what `slice(0, 100)` drops scores no more than what it keeps |
| Leaderboard.Board.constructor | api/leaderboard.ts:12 | the board starts empty |
| Leaderboard.Board.Fetch | api/leaderboard.ts:30-36 | `GET` answers 200 with the first ten entries of the board, sorted and at most ten, and the board is unchanged |
| Leaderboard.Board.Submit | api/leaderboard.ts:44-82 | no body gives 500; a missing name or a non-numeric score gives 400 "Invalid data"; a name that sanitizes to nothing gives 400 "Name is required"; all three leave the board as it was; otherwise the board admits the new entry and the answer is 200 with success, the entry's rank and the entry |
| Leaderboard.Board.Handle | api/leaderboard.ts:14-86 | every answer carries the CORS headers; `OPTIONS` answers 200 with no body; `GET` answers the top ten; `POST` answers as a submission; any other method answers 405 "Method not allowed"; only a successful `POST` changes the board |

## Left out

- Socket.IO transport, `socket.join`, CORS configuration of the relay, the HTTP listener and all console logging are not modelled. Messages are values in a log.
- `generateRoomId`, `Math.random` and `Date.now` are not modelled. The room id, the colour draw `pick`, the entry id and the clock reading are parameters.
- Rooms.RoomValid: it states held plus pooled colours within the palette, and it does not state that they are equal to it. Equality (`PoolExact`) is kept by every step except a rejoin by a socket already in the room, which loses a colour (`Rooms.RejoinLeaksColour`).
- Rooms.RunFinishesOnce: it covers runs without `start-game`, because a finished room can be started again and finished once more. Leaves are not in the action list, because they never send `game-finished`.
- Leaderboard.RankOfAdmitted: it assumes that the new entry's id is not already on the board. The source builds ids from the clock and a random suffix. With a duplicate id, `findIndex` finds the older entry.
- Positions, velocities and sizes are reals. JavaScript's floating point, including NaN and Infinity, is not modelled. A submitted score is a real that is floored exactly, so precision beyond 2^53 is not modelled.
- `String(name)` on a truthy non-string name is not modelled. A name is a string (possibly empty) or None, which stands for a missing name and for a falsy value that is not a string.
- `substring(0, 20)` counts UTF-16 code units, and `trim` follows the ECMAScript whitespace set. The model counts Dafny characters and uses that whitespace set.
- The `GET` handler's 500 path is not modelled, because sorting an array of entries cannot throw.
- The JSON encoding of responses is not modelled. A response is a status, a header list and a reply value.
- The client, the types module and the game front end are not part of this model.
