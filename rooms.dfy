/**
 * The rooms of the game server as values: one `Room` per entry of the
 * `games` map (index.ts:12-21), the events the handlers emit, and, for each
 * socket handler, a function giving the map and the emitted events after
 * it runs. The `Registry` class in module Server is proved to implement
 * these functions; the lemmas here state what the handlers promise.
 */
module Rooms {
  import opened Wrappers
  import opened Board

  /** A socket.io connection identifier (`socket.id`). */
  type ConnId = string

  /** `turn` is the empty string until the game starts, then a colour. */
  datatype Turn = Unassigned | ToMove(mark: Mark)

  datatype Room = Room(id: int, players: seq<ConnId>, started: bool, turn: Turn, board: Board)

  /**
   * The messages the handlers send, in the order they send them. Those sent
   * to one connection name it in `to`; the others go to the room's group.
   */
  datatype Event =
    | RoomCreated(to: ConnId, id: int)
    | CountUpdated(room: int, count: int)
    | RoomValidated(to: ConnId, roomExists: bool, full: bool, started: Option<bool>)
    | Ready(room: int)
    | ColorAssign(to: ConnId, color: Option<Mark>)
    | BoardUpdate(room: int, board: Board, turn: Turn)
    | GameWon(room: int, winner: Turn)
    | GameTie(room: int)
    | LeaveOrder(room: int)

  /** `players.indexOf(conn)`: the first position of `conn`, or -1. */
  function IndexOf(players: seq<ConnId>, conn: ConnId): (i: int)
    ensures -1 <= i < |players|
    ensures i == -1 <==> conn !in players
    ensures 0 <= i ==> players[i] == conn && forall k | 0 <= k < i :: players[k] != conn
  {
    if |players| == 0 then -1
    else if players[0] == conn then 0
    else
      var j := IndexOf(players[1..], conn);
      if j == -1 then -1 else j + 1
  }

  /** `colors[i]`: position 0 is red, 1 is green, anything else `undefined`. */
  function ColorAt(i: int): Option<Mark> {
    if i == 0 then Some(Red) else if i == 1 then Some(Green) else None
  }

  /** The colour a connection plays with: decided by its position in `players`. */
  function ColorOf(players: seq<ConnId>, conn: ConnId): (c: Option<Mark>)
    ensures c == Some(Red) <==> |players| > 0 && players[0] == conn
    ensures c == Some(Green) <==> |players| > 1 && players[0] != conn && players[1] == conn
    ensures c == None <==> forall k | 0 <= k < |players| && k < 2 :: players[k] != conn
  {
    ColorAt(IndexOf(players, conn))
  }

  /** The colour that moves after `t`: anything but red hands the turn to red. */
  function Flip(t: Turn): Turn {
    if t == ToMove(Red) then ToMove(Green) else ToMove(Red)
  }

  /**
   * What every stored room satisfies between two handler runs: one or two
   * distinct players, `started` exactly when there are two, a colour to
   * move once started, and an untouched board with no turn before that.
   * The board is never won or full: a move that wins or fills it is
   * followed by the reset to an empty board before the handler returns.
   */
  predicate Consistent(room: Room) {
    && 1 <= |room.players| <= 2
    && (|room.players| == 2 ==> room.players[0] != room.players[1])
    && room.started == (|room.players| == 2)
    && (room.started ==> room.turn.ToMove?)
    && (!room.started ==> room.turn == Unassigned && room.board == EmptyBoard())
    && !Wins(room.board, Red) && !Wins(room.board, Green) && !IsFull(room.board)
  }

  /**
   * The state of the `games` map and of `currentGameIdentifier`: every key
   * is below the counter, every room is stored under its own id and is
   * consistent.
   */
  predicate RegistryInv(games: map<int, Room>, next: int) {
    && 0 <= next
    && forall k | k in games :: 0 <= k < next && games[k].id == k && Consistent(games[k])
  }

  /** The room `create_room` stores. */
  function NewRoom(id: int, conn: ConnId): Room {
    Room(id, [conn], false, Unassigned, EmptyBoard())
  }

  /** `players.push(conn)`, and the start of the game if that makes two. */
  function Join(room: Room, conn: ConnId, coin: Mark): Room {
    var players := room.players + [conn];
    if |players| == 2 then room.(players := players, turn := ToMove(coin), started := true)
    else room.(players := players)
  }

  /** `color_assign` to each player in turn, with `colors[players.indexOf(player)]`. */
  function ColorAssigns(players: seq<ConnId>): seq<Event> {
    seq(|players|, k requires 0 <= k < |players| => ColorAssign(players[k], ColorOf(players, players[k])))
  }

  /** What the join branch of `validate_room` emits to the room. */
  function JoinEvents(joined: Room): seq<Event> {
    [CountUpdated(joined.id, |joined.players|)]
    + if |joined.players| == 2 then
        [Ready(joined.id)] + ColorAssigns(joined.players) + [BoardUpdate(joined.id, joined.board, joined.turn)]
      else []
  }

  /**
   * `play` returns before touching the board when the room is missing or not
   * started; only then must the row and column name a cell.
   */
  predicate MoveInRange(games: map<int, Room>, id: int, row: int, col: int) {
    id in games && games[id].started ==> 0 <= row < 3 && 0 <= col < 3
  }

  /** The guard of `play`: started, subscribed, the mover's turn, an empty cell. */
  predicate Accepts(room: Room, conn: ConnId, subscribed: bool, row: int, col: int)
    requires room.started ==> 0 <= row < 3 && 0 <= col < 3
  {
    && room.started
    && subscribed
    && ColorOf(room.players, conn).Some?
    && room.turn == ToMove(ColorOf(room.players, conn).value)
    && room.board[row][col] == Empty
  }

  /** An accepted move: the mover's colour in the cell, then the turn flipped. */
  function Place(room: Room, row: int, col: int, m: Mark): Room
    requires 0 <= row < 3 && 0 <= col < 3
  {
    room.(board := SetCell(room.board, row, col, Filled(m)), turn := Flip(room.turn))
  }

  /** The rematch room stored after a win or a tie. */
  function Reset(room: Room, coin: Mark): Room {
    Room(room.id, room.players, true, ToMove(coin), EmptyBoard())
  }

  /** `create_room` (index.ts:227-258), before the counter is incremented. */
  function AfterCreate(games: map<int, Room>, next: int, conn: ConnId): (map<int, Room>, seq<Event>) {
    (games[next := NewRoom(next, conn)], [RoomCreated(conn, next), CountUpdated(next, 1)])
  }

  /**
   * `validate_room` (index.ts:161-223); `coin` is the outcome of
   * `Math.random() < 0.5`, red when true.
   */
  function AfterValidate(games: map<int, Room>, id: int, conn: ConnId, coin: Mark): (map<int, Room>, seq<Event>) {
    if id !in games then
      (games, [RoomValidated(conn, false, false, None)])
    else
      var room := games[id];
      if |room.players| >= 2 then
        (games, [RoomValidated(conn, true, true, Some(false))])
      else if conn in room.players then
        (games, [RoomValidated(conn, true, false, Some(room.started))])
      else
        var joined := Join(room, conn, coin);
        (games[id := joined], JoinEvents(joined) + [RoomValidated(conn, true, false, Some(joined.started))])
  }

  /**
   * `play` (index.ts:59-157); `subscribed` is `socket.rooms.has(room)` and
   * `coin` the turn drawn for the rematch.
   */
  function AfterPlay(games: map<int, Room>, id: int, conn: ConnId, subscribed: bool, row: int, col: int, coin: Mark): (map<int, Room>, seq<Event>)
    requires MoveInRange(games, id, row, col)
  {
    if id !in games || !Accepts(games[id], conn, subscribed, row, col) then
      (games, [])
    else
      var room := games[id];
      var m := ColorOf(room.players, conn).value;
      var placed := Place(room, row, col, m);
      var won := Wins(placed.board, m);
      var tie := IsFull(placed.board) && !won;
      var update := [BoardUpdate(id, placed.board, placed.turn)];
      if won || tie then
        var rematch := Reset(placed, coin);
        (games[id := rematch],
         update + (if won then [GameWon(id, room.turn)] else [GameTie(id)])
         + [BoardUpdate(id, rematch.board, rematch.turn)])
      else
        (games[id := placed], update)
  }

  /** The rooms `disconnect` deletes: those whose players include `conn`. */
  function Evicted(games: map<int, Room>, conn: ConnId): set<int> {
    set k | k in games && conn in games[k].players
  }

  /** `disconnect` (index.ts:261-289): every other room is kept as it is. */
  function AfterDisconnect(games: map<int, Room>, conn: ConnId): map<int, Room> {
    map k | k in games && conn !in games[k].players :: games[k]
  }

  // ---------------------------------------------------------------------
  // create_room

  /**
   * `create_room` stores a fresh waiting room under the current counter,
   * a key no stored room uses, leaves every other room alone, and keeps
   * the invariant once the counter has moved on by one.
   */
  lemma CreateStoresFreshRoom(games: map<int, Room>, next: int, conn: ConnId)
    requires RegistryInv(games, next)
    ensures next !in games
    ensures var (g, events) := AfterCreate(games, next, conn);
      && g.Keys == games.Keys + {next}
      && g[next] == Room(next, [conn], false, Unassigned, EmptyBoard())
      && (forall k | k in games :: g[k] == games[k])
      && events == [RoomCreated(conn, next), CountUpdated(next, 1)]
      && RegistryInv(g, next + 1)
  {
  }

  /**
   * The source does not keep a connection in at most one room: the same
   * connection may create two rooms and then belongs to both.
   */
  lemma ConnectionMayHoldTwoRooms(games: map<int, Room>, next: int, conn: ConnId)
    requires RegistryInv(games, next)
    ensures var g1 := AfterCreate(games, next, conn).0;
      var g2 := AfterCreate(g1, next + 1, conn).0;
      && next in g2 && next + 1 in g2
      && conn in g2[next].players && conn in g2[next + 1].players
      && Evicted(g2, conn) >= {next, next + 1}
  {
  }

  // ---------------------------------------------------------------------
  // validate_room

  /**
   * `validate_room` changes the map only when the room exists, holds fewer
   * than two players and not the requester; then it appends the requester.
   */
  lemma ValidateChangesOnlyOnJoin(games: map<int, Room>, id: int, conn: ConnId, coin: Mark)
    ensures var g := AfterValidate(games, id, conn, coin).0;
      && (g != games <==> id in games && |games[id].players| < 2 && conn !in games[id].players)
      && g.Keys == games.Keys
      && (forall k | k in games && k != id :: g[k] == games[k])
      && (g != games ==> g[id].players == games[id].players + [conn])
  {
  }

  /**
   * A join into a waiting room starts the game: the player count becomes
   * two, `turn` becomes the drawn colour, the first player is red and the
   * newcomer green, and the events follow index.ts:190-222 in order.
   */
  lemma ValidateJoinStartsGame(games: map<int, Room>, next: int, id: int, conn: ConnId, coin: Mark)
    requires RegistryInv(games, next)
    requires id in games && |games[id].players| < 2 && conn !in games[id].players
    ensures var (g, events) := AfterValidate(games, id, conn, coin);
      var first := games[id].players[0];
      && !games[id].started
      && g[id] == Room(id, [first, conn], true, ToMove(coin), EmptyBoard())
      && ColorOf(g[id].players, first) == Some(Red)
      && ColorOf(g[id].players, conn) == Some(Green)
      && events == [CountUpdated(id, 2), Ready(id),
                    ColorAssign(first, Some(Red)), ColorAssign(conn, Some(Green)),
                    BoardUpdate(id, EmptyBoard(), ToMove(coin)),
                    RoomValidated(conn, true, false, Some(true))]
  {
  }

  /**
   * The replies of `validate_room`: a missing room reports `exists = false`
   * and `started` undefined; a room with two players answers
   * `exists, full, started = false` whoever asks, even when its game runs;
   * every other reply has `full = false` and the room's `started` flag.
   */
  lemma ValidateReplies(games: map<int, Room>, id: int, conn: ConnId, coin: Mark)
    ensures var (g, events) := AfterValidate(games, id, conn, coin);
      && |events| > 0
      && events[|events| - 1].RoomValidated?
      && events[|events| - 1].to == conn
      && (id !in games ==> events == [RoomValidated(conn, false, false, None)])
      && (id in games && |games[id].players| >= 2 ==> events == [RoomValidated(conn, true, true, Some(false))])
      && (id in games && |games[id].players| < 2 ==>
            events[|events| - 1] == RoomValidated(conn, true, false, Some(g[id].started)))
  {
  }

  /** `validate_room` keeps the registry invariant. */
  lemma ValidateKeepsInvariant(games: map<int, Room>, next: int, id: int, conn: ConnId, coin: Mark)
    requires RegistryInv(games, next)
    ensures RegistryInv(AfterValidate(games, id, conn, coin).0, next)
  {
  }

  // ---------------------------------------------------------------------
  // play

  /**
   * `play` is silently ignored, leaving the map untouched, unless the room
   * exists and its guard holds; an accepted move always sends a board
   * update first.
   */
  lemma PlayIgnoredUnlessAccepted(games: map<int, Room>, id: int, conn: ConnId, subscribed: bool, row: int, col: int, coin: Mark)
    requires MoveInRange(games, id, row, col)
    ensures var (g, events) := AfterPlay(games, id, conn, subscribed, row, col, coin);
      && (events != [] <==> id in games && Accepts(games[id], conn, subscribed, row, col))
      && (events == [] ==> g == games)
      && (events != [] ==> events[0].BoardUpdate? && g.Keys == games.Keys)
      && (forall k | k in games && k != id :: g[k] == games[k])
  {
  }

  /**
   * A move that neither wins nor ties writes the mover's colour into the
   * target cell only, keeps every other cell (so no mark is ever erased),
   * the players and `started`, and hands the turn to the other colour.
   */
  lemma PlayPlacesMark(games: map<int, Room>, next: int, id: int, conn: ConnId, row: int, col: int, coin: Mark)
    requires RegistryInv(games, next)
    requires 0 <= row < 3 && 0 <= col < 3
    requires id in games && Accepts(games[id], conn, true, row, col)
    ensures var room := games[id];
      var m := room.turn.mark;
      var (g, events) := AfterPlay(games, id, conn, true, row, col, coin);
      && ColorOf(room.players, conn) == Some(m)
      && (!Wins(SetCell(room.board, row, col, Filled(m)), m) && !IsFull(SetCell(room.board, row, col, Filled(m))) ==>
            && g[id].board[row][col] == Filled(m)
            && (forall i, j | 0 <= i < 3 && 0 <= j < 3 && (i != row || j != col) :: g[id].board[i][j] == room.board[i][j])
            && g[id].turn == ToMove(Other(m))
            && g[id].players == room.players
            && g[id].started
            && events == [BoardUpdate(id, g[id].board, ToMove(Other(m)))])
  {
  }

  /**
   * After a win or a tie the room under the same id keeps its players, stays
   * started, gets an empty board and a freshly drawn colour to move; the
   * events are the board with the final move, then `game_won` naming the
   * colour that moved (the turn before the flip) or `game_tie` (never both,
   * a win wins), then the empty board.
   */
  lemma PlayEndsAndResets(games: map<int, Room>, next: int, id: int, conn: ConnId, row: int, col: int, coin: Mark)
    requires RegistryInv(games, next)
    requires 0 <= row < 3 && 0 <= col < 3
    requires id in games && Accepts(games[id], conn, true, row, col)
    requires var m := games[id].turn.mark;
      Wins(SetCell(games[id].board, row, col, Filled(m)), m) || IsFull(SetCell(games[id].board, row, col, Filled(m)))
    ensures var room := games[id];
      var m := room.turn.mark;
      var moved := SetCell(room.board, row, col, Filled(m));
      var (g, events) := AfterPlay(games, id, conn, true, row, col, coin);
      && g[id] == Room(id, room.players, true, ToMove(coin), EmptyBoard())
      && |events| == 3
      && events[0] == BoardUpdate(id, moved, ToMove(Other(m)))
      && (events[1] == GameWon(id, ToMove(m)) <==> Wins(moved, m))
      && (events[1] == GameTie(id) <==> !Wins(moved, m))
      && events[2] == BoardUpdate(id, EmptyBoard(), ToMove(coin))
  {
  }

  /**
   * Strict alternation: after a move that does not end the game, the same
   * connection's next move in that room is ignored, whatever cell it picks.
   */
  lemma NoTwoMovesInARow(games: map<int, Room>, next: int, id: int, conn: ConnId,
                         row: int, col: int, coin: Mark, row2: int, col2: int, coin2: Mark, subscribed2: bool)
    requires RegistryInv(games, next)
    requires 0 <= row < 3 && 0 <= col < 3 && 0 <= row2 < 3 && 0 <= col2 < 3
    requires id in games && Accepts(games[id], conn, true, row, col)
    requires var m := games[id].turn.mark;
      !Wins(SetCell(games[id].board, row, col, Filled(m)), m) && !IsFull(SetCell(games[id].board, row, col, Filled(m)))
    ensures var g := AfterPlay(games, id, conn, true, row, col, coin).0;
      AfterPlay(g, id, conn, subscribed2, row2, col2, coin2) == (g, [])
  {
  }

  /**
   * The win check of `play` tests only the mover's colour, and misses no
   * win by it: on a stored board the other colour has no line, and a move
   * cannot give it one.
   */
  lemma MoverCheckMissesNoWin(games: map<int, Room>, next: int, id: int, conn: ConnId, row: int, col: int)
    requires RegistryInv(games, next)
    requires MoveInRange(games, id, row, col)
    requires id in games && Accepts(games[id], conn, true, row, col)
    ensures var m := games[id].turn.mark;
      !Wins(SetCell(games[id].board, row, col, Filled(m)), Other(m))
  {
    var m := games[id].turn.mark;
    OnlyMoverCanWin(games[id].board, row, col, m);
  }

  /**
   * `play` keeps the registry invariant, including that no stored board is
   * won or full.
   */
  lemma PlayKeepsInvariant(games: map<int, Room>, next: int, id: int, conn: ConnId, subscribed: bool, row: int, col: int, coin: Mark)
    requires RegistryInv(games, next)
    requires MoveInRange(games, id, row, col)
    ensures RegistryInv(AfterPlay(games, id, conn, subscribed, row, col, coin).0, next)
  {
    if id in games && Accepts(games[id], conn, subscribed, row, col) {
      var room := games[id];
      var m := ColorOf(room.players, conn).value;
      var placed := Place(room, row, col, m);
      if Wins(placed.board, m) || IsFull(placed.board) {
        EmptyBoardUndecided(Red);
        EmptyBoardUndecided(Green);
        StoreKeepsInvariant(games, next, Reset(placed, coin));
      } else {
        MoverCheckMissesNoWin(games, next, id, conn, row, col);
        assert !Wins(placed.board, Red) && !Wins(placed.board, Green);
        StoreKeepsInvariant(games, next, placed);
      }
    }
  }

  /** Storing a consistent room under its own, already used id keeps the invariant. */
  lemma StoreKeepsInvariant(games: map<int, Room>, next: int, room: Room)
    requires RegistryInv(games, next)
    requires room.id in games && Consistent(room)
    ensures RegistryInv(games[room.id := room], next)
  {
  }

  // ---------------------------------------------------------------------
  // disconnect

  /**
   * `disconnect` deletes exactly the rooms that hold the connection, keeps
   * every other room unchanged, and keeps the invariant.
   */
  lemma DisconnectRemovesRoomsOf(games: map<int, Room>, next: int, conn: ConnId)
    requires RegistryInv(games, next)
    ensures var g := AfterDisconnect(games, conn);
      && g.Keys == games.Keys - Evicted(games, conn)
      && (forall k | k in g :: g[k] == games[k] && conn !in g[k].players)
      && RegistryInv(g, next)
  {
  }

  /** A map that keeps exactly the rooms without `conn`, unchanged, is the map `disconnect` leaves. */
  lemma DisconnectedMapIsUnique(games: map<int, Room>, start: map<int, Room>, conn: ConnId)
    requires forall k | k in games :: k in start && conn !in start[k].players && games[k] == start[k]
    requires forall k | k in start && conn !in start[k].players :: k in games
    ensures games == AfterDisconnect(start, conn)
  {
    var g := AfterDisconnect(start, conn);
    forall k
      ensures k in games <==> k in g
    {
      assert k in g <==> k in start && conn !in start[k].players;
    }
    assert games.Keys == g.Keys;
    assert forall k | k in g :: g[k] == start[k] == games[k];
  }

  /** A later `validate_room` for a deleted room reports that it does not exist. */
  lemma ValidateAfterDisconnect(games: map<int, Room>, conn: ConnId, id: int, other: ConnId, coin: Mark)
    requires id in Evicted(games, conn)
    ensures var g := AfterDisconnect(games, conn);
      AfterValidate(g, id, other, coin) == (g, [RoomValidated(other, false, false, None)])
  {
  }
}
