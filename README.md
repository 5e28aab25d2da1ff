# Tic-tac-toe room server, modelled in Dafny

This project models the room state machine of a two-player tic-tac-toe
server (`index.ts`). The server keeps a `games` map from a numeric room id
to a room, and a counter `currentGameIdentifier` from which it allocates
ids. A room holds its `players` (one or two socket ids), a `started` flag,
the colour whose `turn` it is (`''` before the start, then `'red'` or
`'green'`) and a 3x3 `board` of `'red' | 'green' | null` cells. Four socket
handlers change this state:

- `create_room` stores a new waiting room under the counter and increments the counter.
- `validate_room` joins a room and starts the game when the second player arrives.
- `play` guards a move, writes it, checks the 8 lines for a win and the board for a tie, and flips the turn. After a win or a tie it resets the room for a rematch.
- `disconnect` deletes every room the connection plays in.

Each handler runs to completion before the next is dispatched, so the model
is sequential:

- `board.dfy` (module `Board`): colours, cells and the board. It holds the
  single-cell write and the two scanning loops of `play`, each proved equal
  to a reference predicate. `Wins` means one of the 3 rows, 3 columns or
  2 diagonals is filled. `IsFull` means no cell is null.
- `rooms.dfy` (module `Rooms`): the room as a value and the emitted events,
  in the order the handlers send them. For each handler it has a function
  giving the new map and the events (`AfterCreate`, `AfterValidate`,
  `AfterPlay`, `AfterDisconnect`). The lemmas about these functions state
  what the handlers promise. Each stored room satisfies `Consistent`:
  - one or two distinct players;
  - `started` exactly when there are two;
  - a colour to move once started;
  - before the start, no turn and an empty board;
  - a board that neither colour has won and that is not full, because a
    move that wins or fills the board is followed by the reset before the
    handler returns.

  `RegistryInv` adds that every key is below the counter and names its
  own room.
- `server.dfy` (module `Server`): class `Registry` with the `games` map and
  the counter `nextId` as fields, and one method per handler. Each method
  keeps `RegistryInv`. `CreateRoom`, `ValidateRoom` and `Play` leave the
  map and the events exactly as the matching `Rooms` function says.
  `Disconnect` leaves the map that `AfterDisconnect` gives; that function
  does not give the events, so the method's own postconditions fix them:
  one `leave_order` per deleted room, none for any other room, in
  increasing id order. The join branch of `validate_room` and
  the deletion loop of `disconnect` are the methods `JoinRoom` and
  `RemoveRoomsOf`, which work on values and whose results the handlers
  store once. `WinningSession` drives one game through
  the handlers: create, join, an out-of-turn move that is ignored, a red
  win on the top row, the reset, a disconnect, and a validation that
  finds the room gone.

Inputs from outside are parameters:

- `coin: Mark` stands for the turn drawn with `Math.random()` (red when `< 0.5`).
- `subscribed: bool` stands for `socket.rooms.has(room)`.
- `conn` is `socket.id`.

Behaviours of the code a reader may not expect:

- A room with two players answers `exists: true, full: true, started: false`,
  even to one of its own players and even while its game is running. This
  reply comes before the "already a player" check (`Rooms.ValidateReplies`).
- Every other `room_validated` reply carries `full: false`, also after the
  join that fills the room.
- The code does not keep a connection in at most one room. A connection can
  create several rooms, or create one and join another.
  `Rooms.ConnectionMayHoldTwoRooms` shows this; `disconnect` then deletes
  all of them.

## Model

| member | source | states |
|---|---|---|
| Board.EmptyBoard | index.ts:234-238 | a new room's board has all nine cells null |
| Board.SetCell | index.ts:68 | the move writes the given value into the target cell and leaves the other eight cells unchanged |
| Board.ScanForWin | index.ts:75-101 | the flag-raising row loop, the column loop nested in it and the two diagonal checks return true exactly when the mover's colour fills one of the 3 rows, 3 columns or 2 diagonals (`Wins`) |
| Board.ScanForTie | index.ts:103-109 | the nested `forEach` returns true exactly when no cell is null (`IsFull`) |
| Board.EmptyBoardUndecided | index.ts:137-149 | the board a room is reset to is neither won by either colour nor tied |
| Board.OnlyMoverCanWin | index.ts:77-101 | on a board the other colour has not won, a move cannot complete a line of the other colour |
| Rooms.IndexOf | index.ts:64 | `players.indexOf(id)` is -1 exactly when the id is absent, and otherwise its first position |
| Rooms.ColorOf | index.ts:64 | the `colors` lookup gives red exactly to the first player, green exactly to a second player who is not the first, and undefined to anyone else |
| Rooms.CreateStoresFreshRoom | index.ts:229-257 | create_room stores, under the current counter (a key no room uses), a room with players = [requester], not started, turn `''` and an all-null board; other rooms are unchanged; the events are `room_created` then `count_updated` 1; the invariant holds with the counter one higher |
| Rooms.ConnectionMayHoldTwoRooms | index.ts:227-239 | create_room does not check whether the requester already plays in a room: after two creates by one connection, both rooms hold it and a disconnect deletes both |
| Rooms.ValidateChangesOnlyOnJoin | index.ts:166-187 | validate_room changes the map exactly when the room exists, has fewer than 2 players and does not hold the requester; then it appends the requester and leaves every other room unchanged |
| Rooms.ValidateJoinStartsGame | index.ts:178-222 | joining a waiting room makes two players, sets started and turn to the drawn colour, and keeps the empty board; the first player is red and the newcomer green; the events are count_updated 2, ready, color_assign red then green, board_update, room_validated |
| Rooms.ValidateReplies | index.ts:162-174 | the reply goes to the requester last; a missing room answers exists=false with started undefined; a room with 2 players answers exists, full, started=false; every other reply has full=false and the room's started flag after the join |
| Rooms.ValidateKeepsInvariant | index.ts:178-206 | validate_room keeps at most 2 distinct players, keeps started exactly when there are 2, and keeps the empty, undecided board of a waiting room |
| Rooms.PlayIgnoredUnlessAccepted | index.ts:60-66 | play emits something exactly when the room exists and is started, the requester is subscribed, its colour equals turn and the cell is null; otherwise the map is untouched; an accepted move sends board_update first |
| Rooms.PlayPlacesMark | index.ts:64-126 | a move that neither wins nor ties writes the mover's colour into the target cell only, keeps every other cell (no mark is ever cleared), the players and started, and hands the turn to the other colour; the only event is board_update |
| Rooms.PlayEndsAndResets | index.ts:111-155 | after a win or a tie the room under the same id has the same players, started, an empty board and the drawn turn; the events are board_update with the final move, then game_won naming the mover's colour (the turn before the flip) if a line is filled, else game_tie, then board_update with the empty board |
| Rooms.NoTwoMovesInARow | index.ts:64-116 | after a move that does not end the game, the same connection's next move in that room is ignored |
| Rooms.MoverCheckMissesNoWin | index.ts:75-101 | on a stored room, an accepted move never gives the other colour a line, so the win check, which tests only the mover's colour, misses no win |
| Rooms.PlayKeepsInvariant | index.ts:59-157 | play keeps the room consistent: two players, started, a colour to move, and a board that is neither won nor full, because a win or a tie is reset at index.ts:138-149 |
| Rooms.DisconnectRemovesRoomsOf | index.ts:270-288 | disconnect deletes exactly the rooms whose players include the connection, leaves every other room unchanged, and keeps the invariant |
| Rooms.ValidateAfterDisconnect | index.ts:161-166 | a later validate_room for a deleted id answers exists=false and changes nothing |
| Server.Registry.constructor | index.ts:12-22 | the server starts with no rooms and the counter at 0 |
| Server.Registry.CreateRoom | index.ts:227-258 | the handler keeps the invariant, stores the room under the old counter (which no room used), emits as AfterCreate says, and increments the counter by exactly 1 |
| Server.JoinRoom | index.ts:178-219 | the join branch appends the requester, starts the game with the drawn colour when that makes two players, and its `forEach` sends each player its colour in player order: room and events are exactly `Join` and `JoinEvents` |
| Server.Registry.ValidateRoom | index.ts:161-223 | the handler keeps the invariant and the counter, and its map and events are those of AfterValidate |
| Server.Registry.Play | index.ts:59-157 | for a missing or unstarted room any row and column are accepted and nothing happens; the handler keeps the invariant and the counter, and its map and events are those of AfterPlay, computing the win and tie flags with the two scanning loops |
| Server.RemoveRoomsOf | index.ts:270-288 | the `forEach` over the rooms leaves exactly the rooms without the connection (`AfterDisconnect`) and sends one leave_order per deleted room and no other, in increasing id order |
| Server.Registry.Disconnect | index.ts:261-289 | the handler leaves exactly AfterDisconnect's map and sends one leave_order per deleted room, in increasing id order, which is the map's insertion order |

## Left out

- Express, the HTTP server, dotenv, static files and EJS rendering (index.ts:29-44, 292-300): server plumbing with no logic.
- socket.io group membership (`socket.join`, `socket.leave`, the `leave` handler at index.ts:53-55): it changes transport groups, not rooms. Subscription is the `subscribed` input of `play`. Emits become `Event` records, and their delivery is not modelled.
- `console.log` output.
- `Math.random`: it becomes the `coin` parameter. The 50/50 distribution is not a verifiable property.
- `parseInt` of the room, row and column strings: the model takes integers.
- Server.Registry.Play: requires the row and column to be in 0..2 when the room exists and is started (`MoveInRange`). For such a room an out-of-range row throws at index.ts:63. An out-of-range column (3, -1, ...) reads `undefined`, which passes the `== null` test. The move is then accepted as a pass: the write only adds a stray array property, the win and tie checks see the unchanged nine cells, the turn flips (index.ts:114-115) and board_update is sent. Neither path is modelled.
- Rooms are values in the map, not shared mutable objects. Every in-place change in the source (cell write, `push`, turn assignment) is written back with `games.set` under the same id, so value semantics gives the same states.
- The counter is an unbounded integer. JavaScript numbers lose precision above 2^53; that is not modelled.
- `Server.RemoveRoomsOf` walks the ids below the counter instead of the live map entries. It visits the same rooms in the same order: insertion order is increasing id order, because an id is inserted once, at creation, and later `set`s keep its position.
- public/scripts/toasts.js, screens.js and sounds.js: browser DOM, timers and audio, with no server state.
