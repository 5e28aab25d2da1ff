/**
 * The socket handlers of the game server (index.ts:59-289) over the shared
 * `games` map and the `currentGameIdentifier` counter. Each handler runs to
 * completion before the next is dispatched, so each is one method of
 * `Registry`, proved to leave the map and the emitted events as the
 * matching function of module Rooms says.
 */
module Server {
  import opened Wrappers
  import opened Board
  import opened Rooms

  class Registry {
    /** The active rooms by numeric id (`games`, index.ts:12-21). */
    var games: map<int, Room>
    /** The id the next created room gets (`currentGameIdentifier`, index.ts:22). */
    var nextId: int

    ghost predicate Valid()
      reads this
    {
      RegistryInv(games, nextId)
    }

    /** Server start: no rooms, counter at 0. */
    constructor ()
      ensures Valid() && games == map[] && nextId == 0
    {
      games := map[];
      nextId := 0;
    }

    /**
     * `create_room`: the requester's room is stored under the counter, which
     * no stored room uses, and the counter then moves on by exactly one.
     */
    method CreateRoom(conn: ConnId) returns (events: seq<Event>)
      requires Valid()
      modifies this
      ensures Valid()
      ensures old(nextId) !in old(games) && nextId == old(nextId) + 1
      ensures games == AfterCreate(old(games), old(nextId), conn).0
      ensures events == AfterCreate(old(games), old(nextId), conn).1
    {
      CreateStoresFreshRoom(games, nextId, conn);
      games := games[nextId := Room(nextId, [conn], false, Unassigned, EmptyBoard())];
      events := [RoomCreated(conn, nextId)];
      events := events + [CountUpdated(nextId, 1)];
      nextId := nextId + 1;
    }

    /**
     * `validate_room`; `coin` stands for `Math.random() < 0.5` (red when
     * true), read only when the second player arrives. The joined room is
     * written back once, after the events, as in `Play`.
     */
    method ValidateRoom(conn: ConnId, id: int, coin: Mark) returns (events: seq<Event>)
      requires Valid()
      modifies this
      ensures Valid() && nextId == old(nextId)
      ensures games == AfterValidate(old(games), id, conn, coin).0
      ensures events == AfterValidate(old(games), id, conn, coin).1
    {
      ValidateKeepsInvariant(games, nextId, id, conn, coin);
      var roomExists := id in games;
      var full := false;
      events := [];
      if roomExists {
        var room := games[id];
        if |room.players| >= 2 {
          events := [RoomValidated(conn, true, true, Some(false))];
          return;
        }
        if |room.players| < 2 && conn !in room.players {
          var game, joinEvents := JoinRoom(room, conn, coin);
          events := joinEvents;
          games := games[room.id := game];
        }
      }
      var started := if id in games then Some(games[id].started) else None;
      events := events + [RoomValidated(conn, roomExists, full, started)];
    }

    /**
     * `play`; `subscribed` stands for `socket.rooms.has(room)` and `coin`
     * for the rematch turn drawn after a win or a tie. The source writes
     * the room back with `games.set` after each step; no other handler
     * runs in between, so one write of the final room is the same.
     */
    method Play(conn: ConnId, id: int, row: int, col: int, subscribed: bool, coin: Mark) returns (events: seq<Event>)
      requires Valid()
      requires MoveInRange(games, id, row, col)
      modifies this
      ensures Valid() && nextId == old(nextId)
      ensures games == AfterPlay(old(games), id, conn, subscribed, row, col, coin).0
      ensures events == AfterPlay(old(games), id, conn, subscribed, row, col, coin).1
    {
      PlayKeepsInvariant(games, nextId, id, conn, subscribed, row, col, coin);
      events := [];
      if id !in games || !games[id].started {
        return;
      }
      var game := games[id];
      var cell := game.board[row][col];
      var color := ColorOf(game.players, conn);
      if subscribed && color.Some? && game.turn == ToMove(color.value) && cell == Empty {
        var m := color.value;
        game := game.(board := SetCell(game.board, row, col, Filled(m)));

        var won := ScanForWin(game.board, m);
        var tie := ScanForTie(game.board);
        if won {
          tie := false;
        }
        var winner := game.turn;

        if game.turn == ToMove(Red) {
          game := game.(turn := ToMove(Green));
        } else {
          game := game.(turn := ToMove(Red));
        }

        events := [BoardUpdate(id, game.board, game.turn)];
        if won {
          events := events + [GameWon(id, winner)];
        }
        if tie {
          events := events + [GameTie(id)];
        }
        if won || tie {
          game := Room(game.id, game.players, true, ToMove(coin), EmptyBoard());
          events := events + [BoardUpdate(game.id, game.board, game.turn)];
        }
        games := games[game.id := game];
      }
    }

    /**
     * `disconnect`: every room whose players include `conn` is deleted and
     * announced with `leave_order`; every other room stays as it was.
     * `games.forEach` visits rooms in insertion order, which is increasing
     * id order since ids come from the counter, so the loop walks the ids
     * below the counter upwards and the announcements come in that order.
     * The deletions go to a copy of the map, stored once at the end; no
     * other handler runs in between, so the final state is the same.
     */
    method Disconnect(conn: ConnId) returns (events: seq<Event>)
      requires Valid()
      modifies this
      ensures Valid() && nextId == old(nextId)
      ensures games == AfterDisconnect(old(games), conn)
      ensures forall e | e in events :: e.LeaveOrder? && e.room in Evicted(old(games), conn)
      ensures forall k | k in Evicted(old(games), conn) :: LeaveOrder(k) in events
      ensures forall i, j | 0 <= i < j < |events| :: events[i].room < events[j].room
    {
      DisconnectRemovesRoomsOf(games, nextId, conn);
      var remaining;
      remaining, events := RemoveRoomsOf(games, nextId, conn);
      games := remaining;
    }
  }

  /**
   * The join branch of `validate_room` (index.ts:178-219): the requester is
   * appended, the room size is announced, and when that makes two players
   * the game starts with the drawn colour to move, `ready` is sent, the
   * `forEach` over the players sends each its colour, and the board follows.
   */
  method JoinRoom(room: Room, conn: ConnId, coin: Mark) returns (game: Room, events: seq<Event>)
    ensures game == Join(room, conn, coin)
    ensures events == JoinEvents(game)
  {
    game := room.(players := room.players + [conn]);
    events := [CountUpdated(game.id, |game.players|)];
    if |game.players| == 2 {
      game := game.(turn := ToMove(coin), started := true);
      events := events + [Ready(game.id)];
      ghost var before := events;
      var k := 0;
      while k < |game.players|
        invariant 0 <= k <= |game.players|
        invariant events == before + ColorAssigns(game.players)[..k]
      {
        assert ColorAssigns(game.players)[..k + 1] == ColorAssigns(game.players)[..k] + [ColorAssigns(game.players)[k]];
        events := events + [ColorAssign(game.players[k], ColorOf(game.players, game.players[k]))];
        k := k + 1;
      }
      assert ColorAssigns(game.players)[..k] == ColorAssigns(game.players);
      events := events + [BoardUpdate(game.id, game.board, game.turn)];
    }
  }

  /**
   * The `games.forEach` of `disconnect` (index.ts:270-288), over the ids
   * below `bound` in increasing order: each room holding `conn` is deleted
   * and announced with `leave_order`.
   */
  method RemoveRoomsOf(games: map<int, Room>, bound: int, conn: ConnId) returns (remaining: map<int, Room>, events: seq<Event>)
    requires 0 <= bound && forall k | k in games :: 0 <= k < bound && games[k].id == k
    ensures remaining == AfterDisconnect(games, conn)
    ensures forall e | e in events :: e.LeaveOrder? && e.room in Evicted(games, conn)
    ensures forall k | k in Evicted(games, conn) :: LeaveOrder(k) in events
    ensures forall i, j | 0 <= i < j < |events| :: events[i].room < events[j].room
  {
    remaining := games;
    var key := 0;
    events := [];
    while key < bound
      invariant 0 <= key <= bound
      invariant forall k | k in remaining :: k in games && (k >= key || conn !in games[k].players) && remaining[k] == games[k]
      invariant forall k | k in games && (k >= key || conn !in games[k].players) :: k in remaining
      invariant forall e | e in events :: e.LeaveOrder? && e.room in games && conn in games[e.room].players && e.room < key
      invariant forall k | k in games && conn in games[k].players && k < key :: LeaveOrder(k) in events
      invariant forall i, j | 0 <= i < j < |events| :: events[i].room < events[j].room
    {
      if key in remaining && conn in remaining[key].players {
        var game := remaining[key];
        events := events + [LeaveOrder(game.id)];
        remaining := remaining - {key};
      }
      key := key + 1;
    }
    DisconnectedMapIsUnique(remaining, games, conn);
  }

  /**
   * A whole session driven through the handlers: a room is created and
   * joined, red completes the top row, the room is reset for a rematch,
   * and after a disconnect the id no longer validates.
   */
  method WinningSession() {
    var server := OpenRoom();
    var events := server.Play("b", 0, 1, 1, true, Red);
    assert events == [];
    var board := EmptyBoard();
    board := Move(server, "a", 0, 0, Red, board);
    board := Move(server, "b", 1, 0, Green, board);
    board := Move(server, "a", 0, 1, Red, board);
    board := Move(server, "b", 1, 1, Green, board);
    WinAndLeave(server, board);
  }

  /** `a` creates room 0 and `b` joins it; red moves first. */
  method OpenRoom() returns (server: Registry)
    ensures fresh(server) && server.Valid() && server.games.Keys == {0}
    ensures server.games[0] == Room(0, ["a", "b"], true, ToMove(Red), EmptyBoard())
  {
    server := new Registry();
    var events := server.CreateRoom("a");
    assert events == [RoomCreated("a", 0), CountUpdated(0, 1)];
    ValidateJoinStartsGame(server.games, server.nextId, 0, "b", Red);
    events := server.ValidateRoom("b", 0, Red);
    assert events[2] == ColorAssign("a", Some(Red)) && events[3] == ColorAssign("b", Some(Green));
  }

  /** Red completes the top row: won, reset for a rematch, then `b` leaves. */
  method WinAndLeave(server: Registry, board: Board)
    requires server.Valid() && server.games.Keys == {0}
    requires server.games[0] == Room(0, ["a", "b"], true, ToMove(Red), board)
    requires board == SetCell(SetCell(SetCell(SetCell(EmptyBoard(), 0, 0, Filled(Red)), 1, 0, Filled(Green)), 0, 1, Filled(Red)), 1, 1, Filled(Green))
    modifies server
  {
    assert RowFilled(SetCell(board, 0, 2, Filled(Red)), 0, Red);
    PlayEndsAndResets(server.games, server.nextId, 0, "a", 0, 2, Green);
    PlayIgnoredUnlessAccepted(server.games, 0, "a", true, 0, 2, Green);
    var events := server.Play("a", 0, 0, 2, true, Green);
    assert events[1] == GameWon(0, ToMove(Red));
    assert events[2] == BoardUpdate(0, EmptyBoard(), ToMove(Green));
    assert server.games.Keys == {0};
    assert server.games[0] == Room(0, ["a", "b"], true, ToMove(Green), EmptyBoard());

    assert Evicted(server.games, "b") == {0};
    events := server.Disconnect("b");
    assert LeaveOrder(0) in events && server.games.Keys == {};
    events := server.ValidateRoom("c", 0, Red);
    assert events == [RoomValidated("c", false, false, None)];
  }

  /** One move of the session above that neither wins nor ties. */
  method Move(server: Registry, conn: ConnId, row: int, col: int, m: Mark, board: Board) returns (after: Board)
    requires server.Valid() && 0 <= row < 3 && 0 <= col < 3
    requires server.games.Keys == {0} && server.games[0].players == ["a", "b"] && server.games[0].started
    requires server.games[0].turn == ToMove(m) && server.games[0].board == board && board[row][col] == Empty
    requires conn == if m == Red then "a" else "b"
    requires !Wins(SetCell(board, row, col, Filled(m)), m) && !IsFull(SetCell(board, row, col, Filled(m)))
    modifies server
    ensures server.Valid() && server.games.Keys == {0} && server.games[0].players == ["a", "b"] && server.games[0].started
    ensures after == SetCell(board, row, col, Filled(m))
    ensures server.games[0].turn == ToMove(Other(m)) && server.games[0].board == after
  {
    PlayPlacesMark(server.games, server.nextId, 0, conn, row, col, Red);
    var events := server.Play(conn, 0, row, col, true, Red);
    after := server.games[0].board;
    assert after == SetCell(board, row, col, Filled(m));
  }
}
