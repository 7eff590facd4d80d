# Tic-tac-toe online: the server's game engine, verified

This project is a Dafny model of the server side of a networked, multi-player
tic-tac-toe. Rooms hold 2 to 10 players on a square board with side
`num_players + 1`. A player wins with `num_players + 1` of their symbol in a row.
The model covers seven layers:

- **Players** (`players.dfy`): the player record, whose identity is its id.
  It also holds the ten-symbol alphabet and the dictionary round trip.
- **Boards** (`board.dfy`): the board, a class over an `array2`. It has a move
  counter and the anchored four-direction winner scan, written as the source's
  `while` loops.
- **Games** (`game.dfy`): one room, a class. It holds a roster in join order, a
  turn index and a board. Its state machine runs WAITING → PLAYING → FINISHED.
  The turn index skips inactive players lazily, going round the roster.
- **Manager** (`game_manager.dfy`): the registry, a class. It has two maps: game
  id → room, and player id → game id. It implements the create, join, leave,
  move, clean-up, listing and statistics transactions.
- **Protocol** (`protocol.dfy`): the message types, the requests a decoded
  message carries, and the newline framing of the byte stream.
- **Handlers** (`client_handler.dfy`): one connection. It cuts the receive
  buffer into messages, hands them over in order, and stops at most once.
- **ServerCore** (`server.dfy`): the request handlers and the broadcasts. A
  write to a client socket is modelled as an append to the server's `outbox`,
  addressed to the player.

The registry keeps a class invariant, `Manager.GameManager.Valid`, which every
transaction preserves:

- the rooms own disjoint objects, and each room is valid under its own id;
- every mapping points at a registered room whose roster holds the player;
- every active member of an unfinished room is mapped to that room.

Each room keeps `Games.Game.Valid`:

- the roster is within the room's size and holds distinct ids;
- the room waits exactly while its roster is short;
- the turn index stays on the roster;
- a winner and a draw each imply FINISHED, and never occur together.

Each board keeps `Boards.Board.Valid`, whose main part is that the move counter
equals the number of occupied cells.

The doc comments at `common/board.py:20` and `:113` say that the win length
equals the number of players. The code sets it to `num_players + 1`, and the
model follows the code.

## Model

| member | source | states |
|---|---|---|
| Players.NewPlayer | tictactoe_online/common/player.py:22-36 | a new player carries the given id, name and symbol and starts active |
| Players.SymbolsDistinct | tictactoe_online/common/player.py:19-20 | the alphabet has ten symbols, one per allowed roster slot, pairwise distinct |
| Players.ToDict | tictactoe_online/common/player.py:38-50 | the dictionary has exactly the keys player_id, name, symbol and is_active |
| Players.FromDictToDict | tictactoe_online/common/player.py:38-69 | reading back a serialised player gives the same player, activity included |
| Players.FromDictDefaultsActive | tictactoe_online/common/player.py:63-69 | a dictionary without is_active yields an active player with the dictionary's id |
| Players.FromDictNeedsId | tictactoe_online/common/player.py:63-67 | a dictionary without player_id is refused (the source's KeyError) |
| Boards.Board.constructor | tictactoe_online/common/board.py:33-37 | a new board has side and win length num_players + 1, every cell empty, no moves, and the counter invariant |
| Boards.Board.Create | tictactoe_online/common/board.py:23-37 | construction fails with "Number of players must be between 2 and 10" iff the count is outside [2, 10]; otherwise it gives a fresh empty valid board of side and win length count + 1 |
| Boards.Board.MakeMove | tictactoe_online/common/board.py:39-71 | a move is accepted iff the cell is in bounds and empty. An accepted move writes exactly that cell and adds one to the counter; a refused one changes nothing. No other cell changes, and the counter still equals the number of occupied cells |
| Boards.Board.MoveCountBounded | tictactoe_online/common/board.py:37-70 | on a valid board the counter lies between 0 and size² |
| Boards.Board.FullIffNoValidMove | tictactoe_online/common/board.py:119-126 | the board is full (counter ≥ size²) iff no move is valid |
| Boards.Board.CountRay | tictactoe_online/common/board.py:100-111 | one counting loop returns the length of the same-symbol run from its start cell |
| Boards.Board.CountLine | tictactoe_online/common/board.py:96-111 | one direction's count is the anchor plus both runs outward |
| Boards.Board.CheckWinner | tictactoe_online/common/board.py:73-117 | an empty anchor yields none; otherwise the result is the anchor's symbol iff some direction's run through the anchor reaches the win length |
| Boards.Board.ReachIsRun | tictactoe_online/common/board.py:100-104 | the cells the loop counts do all hold the symbol |
| Boards.Board.ReachIsLongest | tictactoe_online/common/board.py:100-104 | the loop's count is at least the length of any run from its start, so it is the longest |
| Boards.Board.RunGivesLine | tictactoe_online/common/board.py:96-115 | a run the scan accepts is a winning line through the anchor |
| Boards.Board.LineGivesRun | tictactoe_online/common/board.py:96-115 | any winning line through the anchor makes the scan's run long enough |
| Boards.Board.WinsAtIffLine | tictactoe_online/common/board.py:84-117 | the scan's verdict agrees with the plain definition of a winning line through the anchor, in both directions |
| Boards.Board.Cells | tictactoe_online/common/board.py:128-135 | the copy has size rows of size cells, each equal to the grid's cell |
| Boards.Board.Snapshot | tictactoe_online/common/board.py:137-151 | the dictionary carries the player count, side and win length both one larger, a cell-by-cell copy of the grid, and a move count equal to the number of occupied cells, at most size² |
| Games.FinishedIsTerminal | tictactoe_online/common/game.py:70-151 | no forward state change leaves FINISHED |
| Games.MarkInactive | tictactoe_online/common/game.py:84-87 | marking a player inactive keeps the roster's length, ids and symbols |
| Games.ActiveCountZero | tictactoe_online/common/game.py:159-166 | the active count is zero iff every roster entry is inactive |
| Games.ActiveCountMarkInactive | tictactoe_online/common/game.py:84-87 | marking an active member inactive lowers the active count by exactly one |
| Games.MarkInactiveAbsent | tictactoe_online/common/game.py:84-85 | marking an id absent from the roster changes nothing |
| Games.Wrap | tictactoe_online/common/game.py:111 | the wrapped index stays on the roster |
| Games.ModIsWrap | tictactoe_online/common/game.py:111-155 | below two laps, Python's `%` on the index is the wrap-around |
| Games.NextActive | tictactoe_online/common/game.py:106-112 | the search finds the first active seat at or after an offset, with every seat it passes inactive, or reports that none is active |
| Games.SkipIndex | tictactoe_online/common/game.py:106-114 | the index where the skip loop stops stays on the roster |
| Games.CurrentIsFirstActive | tictactoe_online/common/game.py:102-114 | someone has the turn iff some player is active. That player is the first active one going round from the index, and the index stops on them; with nobody active the index does not move |
| Games.SkipIndexIdempotent | tictactoe_online/common/game.py:95-114 | asking again for the current player moves the index no further and gives the same answer |
| Games.SkipInactive | tictactoe_online/common/game.py:105-114 | the loop ends on the first active player going round from the index, or back at the start when all are inactive |
| Games.Game.constructor | tictactoe_online/common/game.py:41-48 | a new room is WAITING with an empty roster, index 0, no winner, no draw, and its board |
| Games.Game.Create | tictactoe_online/common/game.py:33-48 | construction fails with the board's error iff the count is outside [2, 10]; otherwise it gives a fresh valid room in the initial state |
| Games.ContainsIffHasPlayerId | tictactoe_online/common/game.py:63-84 | `player in self.players`, which compares with `Player.__eq__` (player.py:74-77), holds iff some roster entry has the player's id, whatever its name, symbol or activity |
| Games.EntryOfAt | tictactoe_online/server/game_manager.py:110-114 | with distinct ids, the roster entry found for an id is the one at any index holding that id |
| Games.Game.AddPlayer | tictactoe_online/common/game.py:50-72 | a player joins iff the roster has room and no entry equals them (same id); a refusal changes nothing; a join appends at the end and starts PLAYING exactly when the roster fills |
| Games.Game.RemovePlayer | tictactoe_online/common/game.py:74-93 | a listed player is marked inactive and stays on the roster, and PLAYING becomes FINISHED; an unlisted one changes nothing |
| Games.Game.GetCurrentPlayer | tictactoe_online/common/game.py:95-114 | outside PLAYING there is nobody and the index stays; in PLAYING the result and the new index are those of the skip over inactive players |
| Games.Game.MakeMove | tictactoe_online/common/game.py:116-157 | the error is `MoveRefusal`: "Game is not in progress" outside PLAYING, else "Not your turn" unless the player is the first active one from the index, else "Invalid move" unless the cell is on the board and empty; no error means accepted. A refusal leaves the board as it was; an accepted move writes the player's symbol in that cell only. An accepted move has exactly one outcome: a win (winner set, FINISHED, index not advanced), else a draw on a full board (FINISHED), else the turn passes one seat on, modulo the roster. State only moves forward |
| Games.Game.PlayTurn | tictactoe_online/common/game.py:137-157 | once the turn is checked, the move is accepted iff the cell is valid, and settles win, draw or next turn as above |
| Games.Game.IsReady | tictactoe_online/common/game.py:168-175 | on a valid room, the roster is full iff the room has left WAITING |
| Games.Game.Snapshot | tictactoe_online/common/game.py:177-207 | the GAME_STATE payload records the summary, board, roster, winner and the index before the lookup; a PLAYING room's index then moves past inactive players and the current player's id is reported |
| Manager.ReleaseRosterFrees | tictactoe_online/server/game_manager.py:184-188 | the release frees exactly the roster's mappings into the room: other rooms' mappings and non-members' mappings survive unchanged |
| Manager.ReleaseRosterEmptiesRoom | tictactoe_online/server/game_manager.py:200-209 | when every mapping into the room belongs to a roster member, no mapping into the room is left |
| Manager.AsWrittenReleaseDropsLiveMapping | tictactoe_online/server/game_manager.py:204-206 | the release as written drops a former member's mapping to another room; the corrected release keeps it |
| Manager.Release | tictactoe_online/server/game_manager.py:186-188 | the release loop computes the corrected release |
| Manager.StatesPartition | tictactoe_online/server/game_manager.py:219-224 | the waiting, playing and finished counts add up to the number of rooms |
| Manager.CountStates | tictactoe_online/server/game_manager.py:221-223 | the counting walk gives the number of rooms in each state |
| Manager.GameManager.constructor | tictactoe_online/server/game_manager.py:20-23 | the registry starts empty and valid |
| Manager.GameManager.GetGame | tictactoe_online/server/game_manager.py:41-51 | a room is found iff registered, under its own id, and is valid |
| Manager.GameManager.GetPlayerGame | tictactoe_online/server/game_manager.py:127-140 | a room is found iff the player has a non-empty mapping; it is the mapped room and its roster holds the player |
| Manager.GameManager.CreateGame | tictactoe_online/server/game_manager.py:26-39 | a count outside [2, 10] fails with the board's error and registers nothing; otherwise a fresh WAITING room is registered under the new id and nothing else changes |
| Manager.GameManager.Register | tictactoe_online/server/game_manager.py:37 | adding a room under its id keeps the registry invariant |
| Manager.GameManager.JoinGame | tictactoe_online/server/game_manager.py:53-89 | "Game not found", "Game already started" and "Player already in a game" each change nothing. A stale mapping is dropped, and stays dropped even if the join then fails with "Game is full". A success appends and maps the player and starts a full room. The room's turn index, winner, draw flag and board are unchanged either way |
| Manager.GameManager.DropMapping | tictactoe_online/server/game_manager.py:76-78 | deleting a stale mapping keeps the invariant and removes only that key |
| Manager.GameManager.AddMember | tictactoe_online/server/game_manager.py:83-86 | the `add_player` step of a join, and the mapping when it succeeds; the room's turn index, winner, draw flag and board are unchanged |
| Manager.GameManager.LeaveGame | tictactoe_online/server/game_manager.py:91-125 | an unmapped player changes nothing and gets no room. Otherwise the player is marked inactive and unmapped, and a PLAYING room ends; its winner, draw flag, turn index and board are unchanged. A room left with no active player is dropped with its roster's mappings |
| Manager.GameManager.DepartRoom | tictactoe_online/server/game_manager.py:116-123 | the found roster entry is marked inactive and unmapped, a PLAYING room ends with its winner, draw flag, turn index and board unchanged, and a room with no active player left is dropped with its roster's mappings |
| Manager.GameManager.CleanupGame | tictactoe_online/server/game_manager.py:193-210 | an unknown id changes nothing; a known room is deleted with its roster's mappings into it, and no mapping into it remains |
| Manager.GameManager.MakeMove | tictactoe_online/server/game_manager.py:155-191 | a player without a room gets "Not in a game" and nothing changes. Otherwise the error is the room's `MoveRefusal` for the player, so a move is accepted iff the room is PLAYING, it is the player's turn and the cell is valid. A refusal leaves roster, state, winner, draw flag and board as they were, and moves the index only by the lazy skip over inactive players. An accepted move (`Game.Played`) writes the symbol of the player's roster entry in that cell only, adds one to the counter, and has the room's outcome: a win, else a draw on a full board, else the turn passes one seat on. A room that is FINISHED afterwards frees its roster's mappings, and only a FINISHED room does |
| Manager.GameManager.PlayAndRelease | tictactoe_online/server/game_manager.py:181-191 | the error is the room's `MoveRefusal` for the entry's id; a refusal changes only the lazy turn skip; an accepted move writes the entry's symbol in that cell only and settles win, draw or next turn as `Game.MakeMove` does; then a FINISHED room's roster is freed, and only then |
| Manager.GameManager.FreeRoster | tictactoe_online/server/game_manager.py:184-188 | a FINISHED room stays registered and its roster's mappings into it are freed |
| Manager.GameManager.SnapshotRoom | tictactoe_online/server/server.py:308-310 | taking a registered room's snapshot changes at most its turn index and keeps the registry valid |
| Manager.GameManager.ListAvailableGames | tictactoe_online/server/game_manager.py:142-153 | the list holds the summary of every WAITING room, only those, each once |
| Manager.GameManager.GetStats | tictactoe_online/server/game_manager.py:212-224 | the figures are the registry's size, the per-state counts and the number of mappings; the state counts add up to the size |
| Protocol.FirstDelimiter | tictactoe_online/server/client_handler.py:69-70 | finds the first newline, with none before it, or reports that there is none |
| Protocol.FramesRoundTrip | tictactoe_online/server/client_handler.py:66-71 | the frames, each followed by the newline, then the remainder, give back the buffer |
| Protocol.FramesAreDelimiterFree | tictactoe_online/server/client_handler.py:69-71 | no frame, and not the remainder, contains a newline |
| Protocol.FramesAppend | tictactoe_online/server/client_handler.py:58-71 | cutting frames chunk by chunk gives the frames and the remainder of the whole stream |
| Protocol.DecodedAppend | tictactoe_online/server/client_handler.py:80-90 | decoding frames one run after another is decoding them all, in order |
| Handlers.ClientHandler.constructor | tictactoe_online/server/client_handler.py:38-46 | a new connection has no room, is not running, and has an empty buffer |
| Handlers.ClientHandler.Start | tictactoe_online/server/client_handler.py:48-52 | the connection is running |
| Handlers.ClientHandler.Stop | tictactoe_online/server/client_handler.py:123-145 | a running connection stops and hands over exactly one DISCONNECT; a stopped one does nothing |
| Handlers.ClientHandler.ProcessMessage | tictactoe_online/server/client_handler.py:80-102 | a frame the decoder accepts is handed over; a rejected one is dropped |
| Handlers.ClientHandler.ReceiveChunk | tictactoe_online/server/client_handler.py:58-71 | an empty chunk stops the connection. Otherwise the buffer becomes the stream's remainder, with no newline, and the frames are handed over decoded, in order; the cut frames and the remainder give back the old buffer plus the chunk |
| Handlers.ClientHandler.SplitMessages | tictactoe_online/server/client_handler.py:69-71 | the inner loop cuts every complete frame at its first newline, in order, and leaves the remainder |
| Handlers.ClientHandler.Serve | tictactoe_online/server/client_handler.py:55-78 | a running connection hands over the decoded messages of everything received, in order, then one DISCONNECT, and keeps the stream's remainder |
| ServerCore.ServerTypes | tictactoe_online/common/protocol.py:11-31 | the server only sends server-to-client types, and never MOVE_RESULT |
| ServerCore.FanoutReaches | tictactoe_online/server/server.py:313-330 | a broadcast reaches exactly the connected roster members, inactive ones included, with the broadcast message only |
| ServerCore.FanoutSnoc | tictactoe_online/server/server.py:326-330 | a broadcast goes out in roster order |
| ServerCore.Server.constructor | tictactoe_online/server/server.py:23-46 | the server starts with an empty registry, no connections and nothing sent |
| ServerCore.Server.Accept | tictactoe_online/server/server.py:80-94 | a new connection is filed under its fresh player id and started; nothing is sent |
| ServerCore.Server.Send | tictactoe_online/server/server.py:146-151 | a message goes to the player iff they have a connection |
| ServerCore.Server.SendError | tictactoe_online/server/server.py:332-344 | an ERROR with the text goes to the player only |
| ServerCore.Server.BroadcastToGame | tictactoe_online/server/server.py:313-330 | an unknown room gets nothing; a registered room's connected roster gets the message, in roster order |
| ServerCore.Server.SendAll | tictactoe_online/server/server.py:326-330 | the send loop appends one message per connected roster entry, in order |
| ServerCore.Server.BroadcastGameState | tictactoe_online/server/server.py:299-311 | an unknown room gets nothing; a registered room gets GAME_STATE describing it. Only the room's turn index may move |
| ServerCore.Server.BroadcastStateThen | tictactoe_online/server/server.py:188-194 | GAME_STATE describing the room, then the optional second broadcast, with the roster, state, winner and board unchanged |
| ServerCore.Server.HandleCreateGame | tictactoe_online/server/server.py:134-151 | a count outside 2..10 (2 when absent) gets "Invalid number of players (2-10)" and creates nothing; otherwise a new WAITING room is registered and the requester gets GAME_CREATED |
| ServerCore.Server.HandleListGames | tictactoe_online/server/server.py:196-204 | the requester gets GAME_LIST with the summaries of exactly the WAITING rooms |
| ServerCore.Server.HandleJoinGame | tictactoe_online/server/server.py:153-194 | "Game ID required" and "Game not found" change nothing. A room of ten raises IndexError before any check. Otherwise the joiner's symbol is taken by roster length, inactive entries included, and the registry's join decides; only that room may change. A refused join leaves the room as it was. An accepted join starts the room iff it fills it and leaves it WAITING otherwise, keeps its winner, draw flag and board, and the GAME_STATE sent carries the turn index from before the join |
| ServerCore.Server.AdmitPlayer | tictactoe_online/server/server.py:171-194 | a refusal gets the registry's error and leaves the roster; "Game is full" still drops a stale mapping. A join appends and maps the player, starts the room iff it fills it and leaves it WAITING otherwise, keeps the room's winner, draw flag and board, then sends the announcements with the turn index from before the join; no other room changes |
| ServerCore.Server.AnnounceJoin | tictactoe_online/server/server.py:182-194 | the joiner's connection records the room and gets GAME_JOINED, then the room gets GAME_STATE, with the turn index from before, and then PLAYER_JOINED; the room's roster, state, winner, draw flag and board are unchanged |
| ServerCore.Server.Greet | tictactoe_online/server/server.py:182-188 | the joiner's connection records the room and is sent GAME_JOINED with id, player id and symbol |
| ServerCore.Server.HandleMakeMove | tictactoe_online/server/server.py:206-232 | a missing row or column gets "Row and column required" and changes nothing, the player's room included. Otherwise a player without a room gets "Not in a game" and nothing changes, and a player in a room is refused exactly by the room's `MoveRefusal`; only the requester's room may change. A refused move is answered to the requester only and changes only the lazy turn skip. An accepted move writes the requester's symbol in that cell only, settles win, draw or next turn, and sends the room GAME_STATE whose turn index is the one after the move, then GAME_OVER with the draw flag and any winner if the game is over |
| ServerCore.Server.MoveAndReport | tictactoe_online/server/server.py:215-232 | the move and its replies once row and column are present: the same outcome as `HandleMakeMove` for a room's player, and "Not in a game" with nothing changed without a room |
| ServerCore.Server.PlayMove | tictactoe_online/server/server.py:215 | the registry's move for the requester, touching only the requester's room: "Not in a game" without a room, otherwise the room's `MoveRefusal`; a refusal changes only the lazy turn skip, an accepted move writes the requester's symbol in that cell only and settles win, draw or next turn, and a FINISHED room's roster is freed |
| ServerCore.Server.HandleQuitGame | tictactoe_online/server/server.py:237-283 | an unmapped player changes nothing. Otherwise the player ends unmapped and marked inactive, and their connection forgets the room; a PLAYING room becomes FINISHED, any other keeps its state, and the room's winner, draw flag and board are unchanged. A room still registered gets PLAYER_LEFT, GAME_STATE, then the GAME_OVER the quit calls for; a dropped room gets nothing |
| ServerCore.Server.Leave | tictactoe_online/server/server.py:239 | the registry's leave, touching only the player's room: the player is marked inactive and unmapped, the room's winner, draw flag, turn index and board are unchanged, and an empty room is dropped with its roster's mappings |
| ServerCore.Server.Forget | tictactoe_online/server/server.py:242-245 | the leaving player's connection forgets the room and nothing else changes |
| ServerCore.Server.AnnounceLeave | tictactoe_online/server/server.py:241-283 | the connection forgets the room, then the room hears of the leave, with the mapping release of a finished room; the draw flag and board are unchanged |
| ServerCore.Server.BroadcastLeave | tictactoe_online/server/server.py:247-283 | PLAYER_LEFT, then GAME_STATE, then the GAME_OVER of the quit; a roster is freed only after a GAME_OVER; no mapping is added; the draw flag and board are unchanged |
| ServerCore.Server.EndQuit | tictactoe_online/server/server.py:255-283 | a FINISHED room with one active player and no winner gets an abandonment GAME_OVER; one with a winner gets GAME_OVER naming them; either way its roster's mappings are freed; otherwise nothing happens |
| ServerCore.Server.Acquire | tictactoe_online/server/server.py:39 | the lock is not re-entrant: taking it succeeds iff it was free |
| ServerCore.Server.HandleDisconnect | tictactoe_online/server/server.py:285-297 | the player quits, ends unmapped and loses their connection; a running connection stops and hands back exactly one DISCONNECT |
| ServerCore.Server.HandleDisconnectAsWritten | tictactoe_online/server/server.py:285-297 | stopping a still-running connection while the lock is held deadlocks, with the connection still filed; a stopped connection is removed |
| ServerCore.Server.HandleClientMessage | tictactoe_online/server/server.py:100-132 | each request goes to its handler. The IndexError of a join into a room of ten becomes an ERROR with Python's text. An unknown type changes nothing. Only DISCONNECT changes the connections |

## Left out

- Sockets, threads, `recv`/`sendall` and logging are not modelled. A write to a client is an `outbox` append, and a failed `sendall` is not modelled.
- Concurrent access to the registry from several connection threads is not modelled; every handler runs to completion. `clients_lock` appears only as the `lockHeld` flag used for the disconnect finding.
- JSON encoding and decoding are not modelled. A connection gets its decoder as a function value, and a decoded request carries typed, optional fields.
- Exceptions other than the IndexError of a join into a room of ten are not modelled (for example a `TypeError` from a non-integer count), because requests arrive typed.
- Exceptions raised by the message callback inside `_process_message` and `stop` are not modelled; the handlers modelled raise only the IndexError, which `HandleClientMessage` catches.
- Ids drawn from `uuid4` are taken as fresh, non-empty parameters: a new player id for `Accept`, and a new game id for `CreateGame`, `HandleCreateGame` and `HandleClientMessage`.
- `Server.start`, `Server.stop`, `Server.get_stats` and `ClientHandler.start`'s thread are not modelled. `Handlers.ClientHandler.Start` only sets `running`.
- The `socket` field of a player is left out.
- `Board.from_dict` and the `__repr__` methods are left out. `from_dict` bypasses the move counter and the engine does not use it.
- Players.FromDict: a present `player_id`, `name` or `symbol` that is not text, or a present `is_active` that is not a boolean, is refused; Python would store whatever value is there.
- `Player.__hash__` is not modelled: the core keeps no set or dictionary of players, only lists, whose membership test uses `__eq__` (`Games.ContainsIffHasPlayerId`).
- Manager.GameManager.ListAvailableGames: states which summaries are listed, not their order; the source lists them in the registry's insertion order, which is creation order.
- Handlers.ClientHandler.ProcessMessage: a frame that decodes to JSON that is truthy but not an object (`[1]`, `1`, `"a"`, `true`) makes `message.get` raise outside the callback's `try` at `client_handler.py:92`; the model's decoder can only accept or drop a frame, so this path is not modelled.
- Handlers.ClientHandler.ReceiveChunk: for the same reason it does not model the receive loop ending on such a frame (`client_handler.py:75-78`), which discards the rest of the buffer and sends one DISCONNECT; the model keeps running and hands over every frame.
- Handlers.ClientHandler.ReceiveChunk: the message callback is a recorded hand-over, so its effect on this connection is not modelled. A DISCONNECT frame makes the server stop the connection from inside the callback (`server.py:127-128`, `server.py:296`). As written this deadlocks on the lock (see Findings). With the stop moved out of the lock, `running` becomes false mid-chunk, the inner loop still hands over the rest of the buffer, and no further chunk is read. The model keeps the connection running through the chunk.
- Handlers.ClientHandler.Serve: likewise, "everything received, then one DISCONNECT" assumes no frame decodes to truthy non-object JSON and no frame is a DISCONNECT request, which would end the receive loop after its chunk (see the line above).
- The GUI and network client, `server/main.py` and `client/main.py` are not part of this model. The client's framing loop repeats the server's.
- `leave_game`'s branches for a mapping into a missing room and for a player missing from their room's roster are unreachable under the registry invariant, so they are not stated separately. The same goes for `make_move`'s "Player not found in game", which is modelled in the code.
- `Game.remove_player` flips the flag on the object it is handed, which every caller takes from the roster. The model updates the roster entry with that id.
- ServerCore.Server.HandleMakeMove: does not restate the release of a finished roster's mappings, and gives the turn index after a move through the GAME_STATE it sends rather than the room's final index (the broadcast's own lookup may move it past inactive players); `ServerCore.Server.PlayMove` and `Manager.GameManager.MakeMove` state the release.
- ServerCore.Server.HandleQuitGame: states that the player ends unmapped, but does not restate how the other mappings change; `ServerCore.Server.Leave`, `ServerCore.Server.BroadcastLeave` and `ServerCore.Server.EndQuit` state it.
- ServerCore.Server.HandleQuitGame: its frame lets every room change, because `HandleDisconnect` calls it; it does not state that rooms other than the player's are unchanged (`ServerCore.Server.Leave` does, for the registry step). It also does not restate the turn index, which the GAME_STATE broadcast may move past inactive players.
- ServerCore.Server.HandleDisconnect: states the connections, the player's mapping and the stop, but not the messages of the quit it runs; `ServerCore.Server.HandleQuitGame` states those.
- ServerCore.Server.HandleClientMessage: states the connections, the quit's unmapping and the IndexError reply; for each handler's own effect it relies on that handler's contract rather than restating it.

## Findings

| source | as written | input that shows it | evidently intended | confidence | as-written member | corrected member |
|---|---|---|---|---|---|---|
| tictactoe_online/server/game_manager.py:184-188 | when a room finishes or is cleaned up, every roster member's mapping is deleted, wherever it points (also `game_manager.py:204-206` and `server.py:271-273`) | player A leaves room G while it waits, so A stays on G's roster as inactive, and joins room H. G later fills, is won, and is freed. A's mapping to H is deleted while A is still in H | free only the mappings that still point at the finished room | not executed | Manager.AsWrittenReleaseDropsLiveMapping | Manager.GameManager.FreeRoster |
| tictactoe_online/server/server.py:285-297 | `_handle_disconnect` calls `handler.stop()` while holding `clients_lock`, which is not re-entrant. `stop()` on a running connection calls back with DISCONNECT, and the nested `_handle_disconnect` waits for the same lock | a peer sends `{"type": "DISCONNECT"}` on a live connection, which `_handle_client_message` dispatches at `server.py:127-128` (the bundled client never gets this message out: `disconnect()` clears `running` at `client/network_client.py:177` before `send_message`, which then returns early at lines 134-136) | take the connection out under the lock, and stop it after releasing the lock | not executed | ServerCore.Server.HandleDisconnectAsWritten | ServerCore.Server.HandleDisconnect |
