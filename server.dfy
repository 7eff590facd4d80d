/**
 * The server's message handlers (tictactoe_online/server/server.py). Each
 * handler runs to completion on the caller's thread; what it would write to a
 * client socket is appended to `outbox` instead, addressed to the player. Game
 * ids that the source draws from uuid4 are passed in, fresh.
 */
module ServerCore {
  import opened Wrappers
  import opened Players
  import opened Boards
  import opened Games
  import opened Manager
  import opened Protocol
  import opened Handlers

  /** A message the server sends, with the `data` it carries. */
  datatype ServerMessage =
    | GameCreated(gameId: GameId, numPlayers: int)
    | GameJoined(gameId: GameId, playerId: PlayerId, symbol: Symbol)
    | GameList(games: seq<GameSummary>)
    | GameStateUpdate(snapshot: GameSnapshot)
    | PlayerJoined(player: Player)
    | PlayerLeft(playerId: PlayerId)
    | GameOver(isDraw: bool, winner: Option<Player>, abandoned: bool, reason: Option<string>)
    | Error(message: string)

  /** The `type` field a server message goes out with. */
  function TypeOf(m: ServerMessage): MessageType
  {
    match m
    case GameCreated(_, _) => GAME_CREATED
    case GameJoined(_, _, _) => GAME_JOINED
    case GameList(_) => GAME_LIST
    case GameStateUpdate(_) => GAME_STATE
    case PlayerJoined(_) => PLAYER_JOINED
    case PlayerLeft(_) => PLAYER_LEFT
    case GameOver(_, _, _, _) => GAME_OVER
    case Error(_) => ERROR
  }

  /** Every server message is of one of the server-to-client types; MOVE_RESULT is never sent. */
  lemma ServerTypes(m: ServerMessage)
    ensures TypeOf(m) !in {CREATE_GAME, JOIN_GAME, LIST_GAMES, MAKE_MOVE, QUIT_GAME, DISCONNECT, MOVE_RESULT}
  {
  }

  /** A message written to a player's connection. */
  datatype Outgoing = Outgoing(to: PlayerId, message: ServerMessage)

  /** `handler.send_message` after `clients.get(player_id)`: only a connected player is written to. */
  function Reply(connected: set<PlayerId>, pid: PlayerId, m: ServerMessage): seq<Outgoing>
  {
    if pid in connected then [Outgoing(pid, m)] else []
  }

  /** `_broadcast_to_game`'s sends: one per roster entry with a connection, in roster order. */
  function Fanout(roster: seq<Player>, connected: set<PlayerId>, m: ServerMessage): seq<Outgoing>
  {
    if roster == [] then [] else Reply(connected, roster[0].playerId, m) + Fanout(roster[1..], connected, m)
  }

  /**
   * A broadcast reaches exactly the connected players on the roster, inactive
   * ones included, and carries only the broadcast message.
   */
  lemma {:induction false} FanoutReaches(roster: seq<Player>, connected: set<PlayerId>, m: ServerMessage, o: Outgoing)
    ensures o in Fanout(roster, connected, m) <==> o.message == m && o.to in connected && HasPlayerId(roster, o.to)
    decreases |roster|
  {
    if roster != [] {
      FanoutReaches(roster[1..], connected, m, o);
      if HasPlayerId(roster, o.to) && o.to != roster[0].playerId {
        var j :| 0 <= j < |roster| && roster[j].playerId == o.to;
        assert roster[1..][j - 1].playerId == o.to;
      }
      if HasPlayerId(roster[1..], o.to) {
        var j :| 0 <= j < |roster[1..]| && roster[1..][j].playerId == o.to;
        assert roster[j + 1].playerId == o.to;
      }
    }
  }

  /** Broadcasting to a longer roster sends to the new entry last. */
  lemma {:induction false} FanoutSnoc(roster: seq<Player>, p: Player, connected: set<PlayerId>, m: ServerMessage)
    ensures Fanout(roster + [p], connected, m) == Fanout(roster, connected, m) + Reply(connected, p.playerId, m)
    decreases |roster|
  {
    if roster == [] {
      assert [p][1..] == [];
    } else {
      assert (roster + [p])[1..] == roster[1..] + [p];
      FanoutSnoc(roster[1..], p, connected, m);
    }
  }

  /** The `num_players` of a CREATE_GAME request, 2 when absent. */
  function RequestedPlayers(numPlayers: Option<int>): int
  {
    if numPlayers.Some? then numPlayers.value else 2
  }

  /** The name a joining player goes by: the one sent, or `Player-` and the id's first four characters. */
  function PlayerName(pid: PlayerId, name: Option<string>): string
  {
    if name.Some? then name.value else "Player-" + pid[..if |pid| < 4 then |pid| else 4]
  }

  /** The GAME_STATE payload describes the room as it now stands. */
  ghost predicate Describes(s: GameSnapshot, g: Game)
    reads g, g.board, g.board.grid
    requires g.board.Valid()
  {
    s.summary == g.Summary() && s.board == g.board.Snapshot() && s.players == g.players && s.winner == g.winner
  }

  /**
   * The GAME_OVER a quit announces, from the room's state, active count and
   * winner after the leave: none while the room is not FINISHED or nobody is
   * left; an abandonment when one active player is left and nobody won; the
   * winner when there is one.
   */
  function QuitNotice(state: GameState, active: nat, winner: Option<Player>): Option<ServerMessage>
  {
    if state != Finished || active == 0 then None
    else if active == 1 && winner.None? then Some(GameOver(false, None, true, Some("Other players left the game")))
    else if winner.Some? then Some(GameOver(false, winner, false, None))
    else None
  }

  /** The broadcast of an optional message: nothing when there is none. */
  function Announce(roster: seq<Player>, connected: set<PlayerId>, m: Option<ServerMessage>): seq<Outgoing>
  {
    if m.Some? then Fanout(roster, connected, m.value) else []
  }

  /**
   * The error `join_game` answers a player with when asked to add them to the
   * registered room `gid`, in the order it checks; none when the join succeeds.
   */
  ghost function JoinRefusal(gm: GameManager, gid: GameId, pid: PlayerId): Option<string>
    reads gm, gm.Repr
    requires gm.Valid() && gid in gm.games
  {
    var g := gm.games[gid];
    if g.state != Waiting then Some("Game already started")
    else if gm.Busy(pid) then Some("Player already in a game")
    else if |g.players| >= g.numPlayers || HasPlayerId(g.players, pid) then Some("Game is full")
    else None
  }

  class Server {
    const gm: GameManager
    var clients: map<PlayerId, ClientHandler>
    /** Everything sent so far, in order. */
    var outbox: seq<Outgoing>
    /** Whether `clients_lock` is held. */
    var lockHeld: bool

    /**
     * Class invariant: the registry is valid, the connections lie outside it and
     * are filed under their own player ids, and the lock is free between messages.
     */
    ghost predicate Valid()
      reads this`clients, this`lockHeld, gm, gm.Repr
    {
      && gm.Valid()
      && this !in gm.Repr
      && (forall p | p in clients :: clients[p] !in gm.Repr && clients[p].playerId == p)
      && !lockHeld
    }

    /** The connection of `pid`, as a frame. */
    ghost function Connection(pid: PlayerId): set<ClientHandler>
      reads this
    {
      if pid in clients then {clients[pid]} else {}
    }

    constructor ()
      ensures Valid() && fresh(gm) && gm.games == map[] && gm.playerToGame == map[]
      ensures clients == map[] && outbox == []
    {
      gm := new GameManager();
      clients := map[];
      outbox := [];
      lockHeld := false;
    }

    /** `_accept_connections` for one new connection: a handler under a fresh player id, started. */
    method Accept(pid: PlayerId, decode: Decoder) returns (h: ClientHandler)
      requires Valid() && pid !in clients
      modifies this
      ensures Valid() && fresh(h) && h.running && h.playerId == pid && h.Valid()
      ensures clients == old(clients)[pid := h] && outbox == old(outbox)
    {
      h := new ClientHandler(pid, decode);
      h.Start();
      clients := clients[pid := h];
    }

    /** `handler.send_message` on the connection of `pid`, if there is one. */
    method Send(pid: PlayerId, m: ServerMessage)
      requires Valid()
      modifies this`outbox
      ensures Valid()
      ensures outbox == old(outbox) + Reply(clients.Keys, pid, m)
    {
      if pid in clients {
        outbox := outbox + [Outgoing(pid, m)];
      }
    }

    /** `_send_error`: an ERROR with the message, to the player only. */
    method SendError(pid: PlayerId, message: string)
      requires Valid()
      modifies this`outbox
      ensures Valid()
      ensures outbox == old(outbox) + Reply(clients.Keys, pid, Error(message))
    {
      Send(pid, Error(message));
    }

    /** `_broadcast_to_game`: the message to every connected roster entry of a registered room. */
    method BroadcastToGame(gid: GameId, m: ServerMessage)
      requires Valid()
      modifies this`outbox
      ensures Valid()
      ensures outbox == old(outbox) + (if gid in gm.games then Fanout(gm.games[gid].players, clients.Keys, m) else [])
    {
      var game := gm.GetGame(gid);
      if game.Some? {
        SendAll(game.value.players, m);
      }
    }

    /** The loop of `_broadcast_to_game`: the message to each roster entry in turn that has a connection. */
    method SendAll(roster: seq<Player>, m: ServerMessage)
      requires Valid()
      modifies this`outbox
      ensures Valid()
      ensures outbox == old(outbox) + Fanout(roster, clients.Keys, m)
    {
      for i := 0 to |roster|
        invariant Valid()
        invariant outbox == old(outbox) + Fanout(roster[..i], clients.Keys, m)
      {
        FanoutSnoc(roster[..i], roster[i], clients.Keys, m);
        assert roster[..i + 1] == roster[..i] + [roster[i]];
        Send(roster[i].playerId, m);
      }
      assert roster[..|roster|] == roster;
    }

    /**
     * `_broadcast_game_state`: a registered room's snapshot to its connected
     * roster; taking it may move the room's turn index past inactive players.
     */
    method BroadcastGameState(gid: GameId) returns (ghost sent: Option<GameSnapshot>)
      requires Valid()
      modifies this`outbox, gm.Room(gid)
      ensures Valid() && unchanged(gm) && clients == old(clients)
      ensures gid !in gm.games ==> sent.None? && outbox == old(outbox)
      ensures gid in gm.games ==> var g := gm.games[gid];
                && sent.Some? && Describes(sent.value, g)
                && sent.value.currentPlayerIndex == old(g.currentPlayerIndex)
                && outbox == old(outbox) + Fanout(g.players, clients.Keys, GameStateUpdate(sent.value))
                && g.players == old(g.players) && g.state == old(g.state)
                && g.winner == old(g.winner) && g.isDraw == old(g.isDraw)
                && unchanged(g.board, g.board.grid)
    {
      sent := None;
      if gid in gm.games {
        assert this !in gm.Room(gid) && gm !in gm.Room(gid);
        var s := gm.SnapshotRoom(gid);
        sent := Some(s);
        BroadcastToGame(gid, GameStateUpdate(s));
      }
    }

    /**
     * `_broadcast_game_state` followed, when there is one, by `_broadcast_to_game`
     * of a second message, as the join and move handlers do.
     */
    method BroadcastStateThen(gid: GameId, next: Option<ServerMessage>) returns (ghost sent: Option<GameSnapshot>)
      requires Valid()
      modifies this`outbox, gm.Room(gid)
      ensures Valid() && unchanged(gm) && clients == old(clients)
      ensures gid !in gm.games ==> sent.None? && outbox == old(outbox)
      ensures gid in gm.games ==> var g := gm.games[gid];
                && sent.Some? && Describes(sent.value, g)
                && sent.value.currentPlayerIndex == old(g.currentPlayerIndex)
                && outbox == old(outbox) + Fanout(g.players, clients.Keys, GameStateUpdate(sent.value))
                                         + Announce(g.players, clients.Keys, next)
                && g.players == old(g.players) && g.state == old(g.state)
                && g.winner == old(g.winner) && g.isDraw == old(g.isDraw)
                && unchanged(g.board, g.board.grid)
    {
      sent := BroadcastGameState(gid);
      if next.Some? {
        BroadcastToGame(gid, next.value);
      }
    }

    /**
     * `_handle_create_game`: a player count outside 2..10 (2 when absent) is
     * refused with an ERROR to the requester; otherwise a new WAITING room is
     * registered under `gid` and the requester gets GAME_CREATED.
     */
    method HandleCreateGame(pid: PlayerId, numPlayers: Option<int>, gid: GameId)
      requires Valid() && gid != "" && gid !in gm.games
      modifies this`outbox, gm
      ensures Valid() && gm.playerToGame == old(gm.playerToGame)
      ensures var n := RequestedPlayers(numPlayers);
                !(MinPlayers <= n <= MaxPlayers) ==>
                  gm.games == old(gm.games) &&
                  outbox == old(outbox) + Reply(clients.Keys, pid, Error("Invalid number of players (2-10)"))
      ensures var n := RequestedPlayers(numPlayers);
                MinPlayers <= n <= MaxPlayers ==>
                  gid in gm.games && gm.games == old(gm.games)[gid := gm.games[gid]] &&
                  gm.games[gid].IsNew(gid, n) &&
                  outbox == old(outbox) + Reply(clients.Keys, pid, GameCreated(gid, n))
    {
      var n := RequestedPlayers(numPlayers);
      if n < 2 || n > 10 {
        SendError(pid, "Invalid number of players (2-10)");
        return;
      }
      var game := gm.CreateGame(n, gid);
      Send(pid, GameCreated(gid, n));
    }

    /** `_handle_list_games`: the requester gets the summaries of exactly the WAITING rooms. */
    method HandleListGames(pid: PlayerId) returns (ghost listed: seq<GameSummary>)
      requires Valid()
      modifies this`outbox
      ensures outbox == old(outbox) + Reply(clients.Keys, pid, GameList(listed))
      ensures forall i | 0 <= i < |listed| ::
                listed[i].gameId in gm.games && gm.games[listed[i].gameId].state == Waiting &&
                listed[i] == gm.games[listed[i].gameId].Summary()
      ensures forall g | g in gm.games && gm.games[g].state == Waiting ::
                exists i :: 0 <= i < |listed| && listed[i].gameId == g
    {
      var rs := gm.ListAvailableGames();
      listed := rs;
      Send(pid, GameList(rs));
    }

    /**
     * `_handle_join_game`: no id, or an unknown one, gets an ERROR and changes
     * nothing. The new player's symbol is taken by roster length before any
     * other check, so a room of ten raises IndexError, passed to the caller as
     * `raised`; otherwise the join goes ahead as `AdmitPlayer` describes.
     */
    method HandleJoinGame(pid: PlayerId, gameId: Option<GameId>, playerName: Option<string>)
      returns (raised: Option<string>, ghost sent: Option<GameSnapshot>)
      requires Valid()
      modifies this`outbox, gm, (if gameId.Some? then gm.Room(gameId.value) else {}), Connection(pid)`currentGameId
      ensures Valid() && gm.games == old(gm.games) && clients == old(clients)
      ensures gameId.None? || gameId.value == "" ==>
                raised.None? && sent.None? && unchanged(gm) && unchanged(Connection(pid)`currentGameId) &&
                outbox == old(outbox) + Reply(clients.Keys, pid, Error("Game ID required"))
      ensures gameId.Some? && gameId.value != "" && gameId.value !in gm.games ==>
                raised.None? && sent.None? && unchanged(gm) && unchanged(Connection(pid)`currentGameId) &&
                outbox == old(outbox) + Reply(clients.Keys, pid, Error("Game not found"))
      ensures gameId.Some? && gameId.value in gm.games ==>
                (raised.Some? <==> old(|gm.games[gameId.value].players|) >= |Symbols|)
      ensures raised.Some? ==>
                raised.value == "list index out of range" && sent.None? && outbox == old(outbox) &&
                unchanged(gm) && unchanged(Connection(pid)`currentGameId) && unchanged(gm.games[gameId.value])
      ensures gameId.Some? && gameId.value in gm.games && raised.None? ==>
                var gid := gameId.value;
                var player := NewPlayer(pid, PlayerName(pid, playerName), Symbols[old(|gm.games[gid].players|)]);
                Admitted(gid, player, old(JoinRefusal(gm, gid, pid)), old(gm.playerToGame),
                         old(gm.games[gid].players), old(outbox), sent)
      ensures gameId.Some? && gameId.value in gm.games && raised.None? &&
              old(JoinRefusal(gm, gameId.value, pid)).Some? ==>
                unchanged(gm.games[gameId.value])
      ensures gameId.Some? && gameId.value in gm.games && raised.None? &&
              old(JoinRefusal(gm, gameId.value, pid)).None? ==>
                var g := gm.games[gameId.value];
                && g.state == (if |g.players| == g.numPlayers then Playing else Waiting)
                && g.winner == old(g.winner) && g.isDraw == old(g.isDraw)
                && unchanged(g.board, g.board.grid)
                && sent.Some? && sent.value.currentPlayerIndex == old(g.currentPlayerIndex)
    {
      sent := None;
      if gameId.None? || gameId.value == "" {
        SendError(pid, "Game ID required");
        return None, sent;
      }
      var gid := gameId.value;
      var game := gm.GetGame(gid);
      if game.None? {
        SendError(pid, "Game not found");
        return None, sent;
      }
      if |game.value.players| >= |Symbols| {
        return Some("list index out of range"), sent;
      }
      var symbol := Symbols[|game.value.players|];
      var player := NewPlayer(pid, PlayerName(pid, playerName), symbol);
      sent := AdmitPlayer(gid, player);
      raised := None;
    }

    /**
     * The outcome of `AdmitPlayer` for `player` and room `gid`, from the
     * refusal, mappings, roster and outbox before it: a refused player gets the
     * ERROR and stays out (a stale mapping of theirs still goes when the room is
     * full); an admitted one is appended and mapped, and the announcements of
     * `Announced` follow.
     */
    ghost predicate Admitted(gid: GameId, player: Player, refusal: Option<string>, ptg0: map<PlayerId, GameId>,
                             roster0: seq<Player>, outbox0: seq<Outgoing>, sent: Option<GameSnapshot>)
      reads this, gm, gm.Repr, clients.Values
      requires gm.Valid() && gid in gm.games
    {
      var pid := player.playerId;
      var g := gm.games[gid];
      && (refusal.Some? ==>
            && sent.None? && g.players == roster0
            && gm.playerToGame == (if refusal == Some("Game is full") then ptg0 - {pid} else ptg0)
            && outbox == outbox0 + Reply(clients.Keys, pid, Error(refusal.value)))
      && (refusal.None? ==>
            && g.players == roster0 + [player] && gm.playerToGame == ptg0[pid := gid]
            && Announced(gid, player, outbox0, sent))
    }

    /**
     * What a successful join sends, from the outbox before it: the joining
     * player's connection is told the room and gets GAME_JOINED, then the room
     * gets GAME_STATE describing it and then PLAYER_JOINED.
     */
    ghost predicate Announced(gid: GameId, player: Player, outbox0: seq<Outgoing>, sent: Option<GameSnapshot>)
      reads this, gm, gm.Repr, clients.Values
      requires gm.Valid() && gid in gm.games
    {
      var pid := player.playerId;
      var g := gm.games[gid];
      && sent.Some? && Describes(sent.value, g)
      && (pid in clients ==> clients[pid].currentGameId == Some(gid))
      && outbox == outbox0 + Reply(clients.Keys, pid, GameJoined(gid, pid, player.symbol))
                           + Fanout(g.players, clients.Keys, GameStateUpdate(sent.value))
                           + Fanout(g.players, clients.Keys, PlayerJoined(player))
    }

    /** `join_game` for the new player, then the reply to a refusal or the announcements of a join. */
    method AdmitPlayer(gid: GameId, player: Player) returns (ghost sent: Option<GameSnapshot>)
      requires Valid() && gid in gm.games
      modifies this`outbox, gm, gm.Room(gid), Connection(player.playerId)`currentGameId
      ensures Valid() && gm.games == old(gm.games) && clients == old(clients)
      ensures Admitted(gid, player, old(JoinRefusal(gm, gid, player.playerId)), old(gm.playerToGame),
                       old(gm.games[gid].players), old(outbox), sent)
      ensures old(JoinRefusal(gm, gid, player.playerId)).None? ==> var g := gm.games[gid];
                && g.state == (if |g.players| == g.numPlayers then Playing else Waiting)
                && g.winner == old(g.winner) && g.isDraw == old(g.isDraw)
                && unchanged(g.board, g.board.grid)
                && sent.Some? && sent.value.currentPlayerIndex == old(g.currentPlayerIndex)
      ensures old(JoinRefusal(gm, gid, player.playerId)).Some? ==>
                unchanged(gm.games[gid]) && unchanged(Connection(player.playerId)`currentGameId)
    {
      var pid := player.playerId;
      assert this !in gm.Room(gid);
      var ok, err := gm.JoinGame(gid, player);
      if !ok {
        SendError(pid, err.value);
        return None;
      }
      sent := AnnounceJoin(gid, player);
    }

    /** The sends of `_handle_join_game` after a successful `join_game`. */
    method AnnounceJoin(gid: GameId, player: Player) returns (ghost sent: Option<GameSnapshot>)
      requires Valid() && gid in gm.games
      modifies this`outbox, gm.Room(gid), Connection(player.playerId)`currentGameId
      ensures Valid() && unchanged(gm) && clients == old(clients)
      ensures gm.games[gid].players == old(gm.games[gid].players)
      ensures Announced(gid, player, old(outbox), sent)
      ensures var g := gm.games[gid];
                && g.state == old(g.state) && g.winner == old(g.winner) && g.isDraw == old(g.isDraw)
                && unchanged(g.board, g.board.grid)
                && sent.Some? && sent.value.currentPlayerIndex == old(g.currentPlayerIndex)
    {
      var pid := player.playerId;
      Greet(gid, player);
      assert Connection(pid) !! gm.Room(gid);
      sent := BroadcastStateThen(gid, Some(PlayerJoined(player)));
    }

    /** The joining player's connection records the room and is sent GAME_JOINED. */
    method Greet(gid: GameId, player: Player)
      requires Valid()
      modifies this`outbox, Connection(player.playerId)`currentGameId
      ensures Valid() && clients == old(clients)
      ensures var pid := player.playerId;
                && (pid in clients ==> clients[pid].currentGameId == Some(gid))
                && outbox == old(outbox) + Reply(clients.Keys, pid, GameJoined(gid, pid, player.symbol))
    {
      var pid := player.playerId;
      if pid in clients {
        clients[pid].currentGameId := Some(gid);
      }
      Send(pid, GameJoined(gid, pid, player.symbol));
    }

    /**
     * `_handle_make_move`: a missing row or column gets an ERROR and changes
     * nothing; otherwise `MoveAndReport` plays the move and answers.
     */
    method HandleMakeMove(pid: PlayerId, row: Option<int>, col: Option<int>)
      returns (refusal: Option<string>, ghost sent: Option<GameSnapshot>)
      requires Valid()
      modifies this`outbox, gm, gm.PlayerRoom(pid)
      ensures Valid() && gm.games == old(gm.games) && clients == old(clients)
      ensures row.None? || col.None? ==>
                refusal == Some("Row and column required") && unchanged(gm) && unchanged(gm.PlayerRoom(pid))
      ensures row.Some? && col.Some? && old(gm.GetPlayerGame(pid)).None? ==> refusal == Some("Not in a game") && unchanged(gm)
      ensures row.Some? && col.Some? && old(gm.GetPlayerGame(pid)).Some? ==>
                var g := old(gm.GetPlayerGame(pid)).value;
                && refusal == old(g.MoveRefusal(pid, row.value, col.value))
                && (refusal.Some? ==> g.Refused())
                && g.players == old(g.players) && HasPlayerId(g.players, pid)
                && (refusal.None? ==>
                      && g.board.Placed(EntryOf(g.players, pid).symbol, row.value, col.value)
                      && g.Ended(EntryOf(g.players, pid), row.value, col.value)
                      && 0 <= old(g.currentPlayerIndex) < |g.players|
                      && sent.Some? && sent.value.currentPlayerIndex == TurnAfter(g.players, old(g.currentPlayerIndex), g.state))
      ensures refusal.Some? ==> sent.None? && outbox == old(outbox) + Reply(clients.Keys, pid, Error(refusal.value))
      ensures refusal.None? ==>
                row.Some? && col.Some? && old(gm.GetPlayerGame(pid)).Some? &&
                var g := old(gm.GetPlayerGame(pid)).value;
                && sent.Some? && Describes(sent.value, g)
                && outbox == old(outbox) + Fanout(g.players, clients.Keys, GameStateUpdate(sent.value))
                                         + Announce(g.players, clients.Keys, MoveNotice(g.state, g.isDraw, g.winner))
    {
      sent := None;
      if row.None? || col.None? {
        refusal := Some("Row and column required");
        SendError(pid, refusal.value);
        return;
      }
      refusal, sent := MoveAndReport(pid, row.value, col.value);
    }

    /**
     * A move request with a row and a column: the registry plays the move
     * (`PlayMove`). A refusal is sent back to the requester only; an accepted move
     * sends the room GAME_STATE, whose turn index is where `TurnAfter` puts it,
     * and then, if the game is over, the GAME_OVER of `MoveNotice`.
     */
    method MoveAndReport(pid: PlayerId, row: int, col: int)
      returns (refusal: Option<string>, ghost sent: Option<GameSnapshot>)
      requires Valid()
      modifies this`outbox, gm, gm.PlayerRoom(pid)
      ensures Valid() && gm.games == old(gm.games) && clients == old(clients)
      ensures old(gm.GetPlayerGame(pid)).None? ==> refusal == Some("Not in a game") && unchanged(gm)
      ensures old(gm.GetPlayerGame(pid)).Some? ==>
                var g := old(gm.GetPlayerGame(pid)).value;
                && refusal == old(g.MoveRefusal(pid, row, col))
                && (refusal.Some? ==> g.Refused())
                && g.players == old(g.players) && HasPlayerId(g.players, pid)
                && (refusal.None? ==>
                      && g.board.Placed(EntryOf(g.players, pid).symbol, row, col)
                      && g.Ended(EntryOf(g.players, pid), row, col)
                      && 0 <= old(g.currentPlayerIndex) < |g.players|
                      && sent.Some? && sent.value.currentPlayerIndex == TurnAfter(g.players, old(g.currentPlayerIndex), g.state))
      ensures refusal.Some? ==> sent.None? && outbox == old(outbox) + Reply(clients.Keys, pid, Error(refusal.value))
      ensures refusal.None? ==>
                old(gm.GetPlayerGame(pid)).Some? &&
                var g := old(gm.GetPlayerGame(pid)).value;
                && sent.Some? && Describes(sent.value, g)
                && outbox == old(outbox) + Fanout(g.players, clients.Keys, GameStateUpdate(sent.value))
                                         + Announce(g.players, clients.Keys, MoveNotice(g.state, g.isDraw, g.winner))
    {
      sent := None;
      var game;
      assert this !in gm.PlayerRoom(pid);
      refusal, game := PlayMove(pid, row, col);
      assert outbox == old(outbox);
      label moved:
      if refusal.Some? {
        SendError(pid, refusal.value);
        assert game.Some? ==> unchanged@moved(game.value, game.value.board, game.value.board.grid);
      } else {
        var g := game.value;
        sent := BroadcastStateThen(g.gameId, MoveNotice(g.state, g.isDraw, g.winner));
        assert unchanged@moved(g.board, g.board.grid);
      }
    }

    /** The GAME_OVER an accepted move announces: one when it finished the game, with the draw flag and any winner. */
    function MoveNotice(state: GameState, isDraw: bool, winner: Option<Player>): Option<ServerMessage>
    {
      if state == Finished then Some(GameOver(isDraw, winner, false, None)) else None
    }

    /** The registry's `make_move` for the requester, whose room is returned; nothing is sent yet. */
    method PlayMove(pid: PlayerId, row: int, col: int) returns (refusal: Option<string>, game: Option<Game>)
      requires Valid()
      modifies gm, gm.PlayerRoom(pid)
      ensures Valid() && gm.games == old(gm.games) && clients == old(clients)
      ensures game == old(gm.GetPlayerGame(pid))
      ensures game.None? ==> refusal == Some("Not in a game") && unchanged(gm)
      ensures game.Some? ==>
                var g := game.value;
                && g.gameId in gm.games && gm.games[g.gameId] == g
                && gm.playerToGame == (if g.state == Finished then ReleaseRoster(old(gm.playerToGame), g.players, g.gameId)
                                       else old(gm.playerToGame))
                && g.players == old(g.players) && HasPlayerId(g.players, pid)
                && refusal == old(g.MoveRefusal(pid, row, col))
                && (refusal.Some? ==> g.Refused())
                && (refusal.None? ==> g.Played(EntryOf(g.players, pid), row, col))
    {
      assert this !in gm.PlayerRoom(pid);
      var ok;
      ok, refusal, game := gm.MakeMove(pid, row, col);
    }

    /**
     * `_handle_quit_game`: an unmapped player changes nothing. Otherwise the
     * player leaves the room as `Leave` describes, and the room hears of it as
     * `AnnounceLeave` describes.
     */
    method HandleQuitGame(pid: PlayerId) returns (ghost sent: Option<GameSnapshot>)
      requires Valid()
      modifies this`outbox, gm, gm.Repr, Connection(pid)`currentGameId
      ensures Valid() && clients == old(clients) && gm.Repr == old(gm.Repr)
      ensures pid !in gm.playerToGame
      ensures old(gm.GetPlayerGame(pid)).None? ==>
                sent.None? && outbox == old(outbox) && unchanged(gm) && unchanged(Connection(pid)`currentGameId)
      ensures old(gm.GetPlayerGame(pid)).Some? ==>
                var g := old(gm.GetPlayerGame(pid)).value;
                var active := ActiveCount(g.players);
                && g.players == MarkInactive(old(g.players), pid)
                && g.state == (if old(g.state) == Playing then Finished else old(g.state))
                && g.winner == old(g.winner) && g.isDraw == old(g.isDraw) && unchanged(g.board, g.board.grid)
                && (pid in clients ==> clients[pid].currentGameId.None?)
                && (active == 0 ==> gm.games == old(gm.games) - {g.gameId} && sent.None? && outbox == old(outbox))
                && (active > 0 ==>
                      && gm.games == old(gm.games) && sent.Some? && Describes(sent.value, g)
                      && outbox == old(outbox) + Fanout(g.players, clients.Keys, PlayerLeft(pid))
                                   + Fanout(g.players, clients.Keys, GameStateUpdate(sent.value))
                                   + Announce(g.players, clients.Keys, QuitNotice(g.state, active, g.winner)))
    {
      sent := None;
      assert this !in gm.PlayerRoom(pid);
      var game := Leave(pid);
      assert outbox == old(outbox);
      if game.Some? {
        assert Connection(pid) !! gm.Room(game.value.gameId);
        sent := AnnounceLeave(game.value, pid);
      }
    }

    /** The player's connection, if still filed, forgets its room. */
    method Forget(pid: PlayerId)
      requires Valid()
      modifies Connection(pid)`currentGameId
      ensures Valid() && clients == old(clients) && outbox == old(outbox) && unchanged(gm, gm.Repr)
      ensures pid in clients ==> clients[pid].currentGameId.None?
    {
      if pid in clients {
        clients[pid].currentGameId := None;
      }
    }

    /**
     * The registry's `leave_game` for `pid`: the room that was left is returned,
     * with the player marked inactive and a game being played ended; a room
     * nobody is active in any more is dropped with its roster's mappings.
     */
    method Leave(pid: PlayerId) returns (game: Option<Game>)
      requires Valid()
      modifies gm, gm.PlayerRoom(pid)
      ensures Valid() && clients == old(clients) && gm.Repr == old(gm.Repr)
      ensures game == old(gm.GetPlayerGame(pid)) && pid !in gm.playerToGame
      ensures game.None? ==> unchanged(gm)
      ensures game.Some? ==>
                var g := game.value;
                && g.players == MarkInactive(old(g.players), pid)
                && g.state == (if old(g.state) == Playing then Finished else old(g.state))
                && g.winner == old(g.winner) && g.isDraw == old(g.isDraw)
                && g.currentPlayerIndex == old(g.currentPlayerIndex) && unchanged(g.board, g.board.grid)
                && (ActiveCount(g.players) > 0 ==>
                      gm.games == old(gm.games) && g.gameId in gm.games && gm.games[g.gameId] == g &&
                      gm.playerToGame == old(gm.playerToGame) - {pid})
                && (ActiveCount(g.players) == 0 ==>
                      gm.games == old(gm.games) - {g.gameId} &&
                      gm.playerToGame == ReleaseRoster(old(gm.playerToGame) - {pid}, g.players, g.gameId))
    {
      assert this !in gm.PlayerRoom(pid);
      game := gm.LeaveGame(pid);
    }

    /**
     * The rest of `_handle_quit_game` once `pid` has left `game`: the leaving
     * player's connection forgets its room, then the room hears of the leave as
     * `BroadcastLeave` describes. A room that `leave_game` dropped gets nothing.
     */
    method AnnounceLeave(game: Game, pid: PlayerId) returns (ghost sent: Option<GameSnapshot>)
      requires Valid()
      requires ActiveCount(game.players) > 0 ==> game.gameId in gm.games && gm.games[game.gameId] == game
      requires ActiveCount(game.players) == 0 ==> game.gameId !in gm.games
      modifies this`outbox, gm, gm.Room(game.gameId), Connection(pid)`currentGameId
      ensures Valid() && clients == old(clients) && gm.games == old(gm.games) && gm.Repr == old(gm.Repr)
      ensures gm.playerToGame.Keys <= old(gm.playerToGame.Keys)
      ensures pid in clients ==> clients[pid].currentGameId.None?
      ensures game.players == old(game.players) && game.state == old(game.state) && game.winner == old(game.winner)
      ensures game.isDraw == old(game.isDraw) && unchanged(game.board, game.board.grid)
      ensures var active := ActiveCount(game.players);
                && (active == 0 ==> sent.None? && outbox == old(outbox) && gm.playerToGame == old(gm.playerToGame))
                && (active > 0 ==>
                      && sent.Some? && Describes(sent.value, game)
                      && outbox == old(outbox) + Fanout(game.players, clients.Keys, PlayerLeft(pid))
                                   + Fanout(game.players, clients.Keys, GameStateUpdate(sent.value))
                                   + Announce(game.players, clients.Keys, QuitNotice(game.state, active, game.winner))
                      && gm.playerToGame == (if QuitNotice(game.state, active, game.winner).Some?
                                             then ReleaseRoster(old(gm.playerToGame), game.players, game.gameId)
                                             else old(gm.playerToGame)))
    {
      Forget(pid);
      sent := BroadcastLeave(game, pid);
    }

    /**
     * What `_handle_quit_game` sends once `pid` has left `game`: PLAYER_LEFT,
     * then GAME_STATE, then the GAME_OVER of `QuitNotice`, after which the
     * roster's mappings are freed. A room that `leave_game` dropped gets nothing.
     */
    method BroadcastLeave(game: Game, pid: PlayerId) returns (ghost sent: Option<GameSnapshot>)
      requires Valid()
      requires ActiveCount(game.players) > 0 ==> game.gameId in gm.games && gm.games[game.gameId] == game
      requires ActiveCount(game.players) == 0 ==> game.gameId !in gm.games
      modifies this`outbox, gm, gm.Room(game.gameId)
      ensures Valid() && clients == old(clients) && gm.games == old(gm.games) && gm.Repr == old(gm.Repr)
      ensures gm.playerToGame.Keys <= old(gm.playerToGame.Keys)
      ensures game.players == old(game.players) && game.state == old(game.state) && game.winner == old(game.winner)
      ensures game.isDraw == old(game.isDraw) && unchanged(game.board, game.board.grid)
      ensures var active := ActiveCount(game.players);
                && (active == 0 ==> sent.None? && outbox == old(outbox) && gm.playerToGame == old(gm.playerToGame))
                && (active > 0 ==>
                      && sent.Some? && Describes(sent.value, game)
                      && outbox == old(outbox) + Fanout(game.players, clients.Keys, PlayerLeft(pid))
                                   + Fanout(game.players, clients.Keys, GameStateUpdate(sent.value))
                                   + Announce(game.players, clients.Keys, QuitNotice(game.state, active, game.winner))
                      && gm.playerToGame == (if QuitNotice(game.state, active, game.winner).Some?
                                             then ReleaseRoster(old(gm.playerToGame), game.players, game.gameId)
                                             else old(gm.playerToGame)))
    {
      BroadcastToGame(game.gameId, PlayerLeft(pid));
      sent := BroadcastGameState(game.gameId);
      EndQuit(game);
    }

    /**
     * The end of `_handle_quit_game` for a FINISHED room: with nobody left,
     * nothing; with one player left and no winner, an abandonment GAME_OVER;
     * with a winner, a GAME_OVER naming them; after either, the roster's
     * mappings are freed.
     */
    method EndQuit(game: Game)
      requires Valid()
      requires ActiveCount(game.players) > 0 ==> game.gameId in gm.games && gm.games[game.gameId] == game
      modifies this`outbox, gm
      ensures Valid() && clients == old(clients) && gm.games == old(gm.games) && gm.Repr == old(gm.Repr)
      ensures var notice := QuitNotice(game.state, ActiveCount(game.players), game.winner);
                && outbox == old(outbox) + Announce(game.players, clients.Keys, notice)
                && gm.playerToGame == (if notice.Some? then ReleaseRoster(old(gm.playerToGame), game.players, game.gameId)
                                       else old(gm.playerToGame))
    {
      if game.state == Finished {
        var active := game.ActivePlayerCount();
        if active == 0 {
        } else if active == 1 && game.winner.None? {
          BroadcastToGame(game.gameId, GameOver(false, None, true, Some("Other players left the game")));
          gm.FreeRoster(game.gameId);
        } else if game.winner.Some? {
          BroadcastToGame(game.gameId, GameOver(false, game.winner, false, None));
          gm.FreeRoster(game.gameId);
        }
      }
    }

    /** Taking `clients_lock`, which is not re-entrant: a thread that already holds it waits forever. */
    method Acquire() returns (acquired: bool)
      modifies this`lockHeld
      ensures acquired == !old(lockHeld) && lockHeld
    {
      acquired := !lockHeld;
      lockHeld := true;
    }

    /**
     * `_handle_disconnect`, with the lock held only while the connection is
     * taken out of `clients`: the player quits, loses their connection, and the
     * connection is stopped. A connection that was still running hands back one
     * DISCONNECT, whose handling (the recursive call) finds nothing left to do.
     */
    method HandleDisconnect(pid: PlayerId)
      requires Valid()
      modifies this, gm, gm.Repr, Connection(pid)
      decreases if pid in clients then 1 else 0
      ensures Valid() && clients == old(clients) - {pid} && pid !in gm.playerToGame
      ensures old(pid in clients) ==>
                var h := old(clients[pid]);
                !h.running && h.delivered == old(h.delivered) + (if old(h.running) then [Disconnect] else [])
    {
      var _ := HandleQuitGame(pid);
      var _ := Acquire();
      var handler: ClientHandler? := null;
      if pid in clients {
        handler := clients[pid];
        clients := clients - {pid};
      }
      lockHeld := false;
      if handler != null {
        var notified := handler.Stop();
        if notified {
          HandleDisconnect(pid);
        }
      }
    }

    /**
     * `_handle_disconnect` as written: `handler.stop()` runs while the lock is
     * held. Stopping a running connection hands DISCONNECT straight back to this
     * thread, whose nested `_handle_disconnect` quits again (nothing is left to
     * do) and then waits for the lock it already holds: the thread hangs, with
     * the connection still filed. Only a connection already stopped, as after
     * the peer closed it, is removed.
     */
    method HandleDisconnectAsWritten(pid: PlayerId) returns (deadlocked: bool)
      requires Valid()
      modifies this, gm, gm.Repr, Connection(pid)
      ensures deadlocked <==> old(pid in clients) && old(clients[pid].running)
      ensures deadlocked ==> lockHeld && clients == old(clients)
      ensures !deadlocked ==> Valid() && clients == old(clients) - {pid}
    {
      var _ := HandleQuitGame(pid);
      var _ := Acquire();
      deadlocked := false;
      if pid in clients {
        var handler := clients[pid];
        var notified := handler.Stop();
        if notified {
          var again := Acquire();
          deadlocked := !again;
          return;
        }
        clients := clients - {pid};
      }
      lockHeld := false;
    }

    /**
     * `_handle_client_message`: the request goes to its handler; an exception
     * (the IndexError of a join into a room of ten) becomes an ERROR to the
     * requester; an unknown type is ignored. Only DISCONNECT changes `clients`.
     */
    method HandleClientMessage(pid: PlayerId, request: Request, gid: GameId)
      requires Valid() && gid != "" && gid !in gm.games
      modifies this, gm, gm.Repr, Connection(pid)
      ensures Valid()
      ensures request.Disconnect? ==> clients == old(clients) - {pid} && pid !in gm.playerToGame
      ensures !request.Disconnect? ==> clients == old(clients)
      ensures request.QuitGame? ==> pid !in gm.playerToGame
      ensures request.Unhandled? ==> outbox == old(outbox) && unchanged(gm)
      ensures request.JoinGame? && request.gameId.Some? && request.gameId.value in old(gm.games) &&
              old(|gm.games[request.gameId.value].players|) >= |Symbols| ==>
                outbox == old(outbox) + Reply(clients.Keys, pid, Error("list index out of range")) && unchanged(gm)
    {
      match request
      case CreateGame(n) =>
        HandleCreateGame(pid, n, gid);
      case JoinGame(g, name) =>
        var raised, _ := HandleJoinGame(pid, g, name);
        if raised.Some? {
          SendError(pid, raised.value);
        }
      case ListGames =>
        var _ := HandleListGames(pid);
      case MakeMove(row, col) =>
        var _, _ := HandleMakeMove(pid, row, col);
      case QuitGame =>
        var _ := HandleQuitGame(pid);
      case Disconnect =>
        HandleDisconnect(pid);
      case Unhandled =>
    }
  }
}
