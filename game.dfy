/**
 * One game room (tictactoe_online/common/game.py): a roster in join order, a
 * turn index, a board and the WAITING -> PLAYING -> FINISHED state machine.
 */
module Games {
  import opened Wrappers
  import opened Players
  import opened Boards

  type GameId = string

  datatype GameState = Waiting | Playing | Finished

  /** Position of a state on the only path the source allows: WAITING, PLAYING, FINISHED. */
  function Rank(s: GameState): nat
  {
    match s
    case Waiting => 0
    case Playing => 1
    case Finished => 2
  }

  /** A state change that only moves forward (FINISHED, the last state, is terminal). */
  predicate Advances(before: GameState, after: GameState)
  {
    Rank(before) <= Rank(after)
  }

  lemma FinishedIsTerminal(after: GameState)
    requires Advances(Finished, after)
    ensures after == Finished
  {
  }

  /** `player in self.players`: membership uses `Player.__eq__`, i.e. the id. */
  predicate HasPlayerId(ps: seq<Player>, id: PlayerId)
  {
    exists i :: 0 <= i < |ps| && ps[i].playerId == id
  }

  /**
   * `player in self.players` asks whether some roster entry has the player's id:
   * `Player.__eq__` ignores name, symbol and activity.
   */
  lemma ContainsIffHasPlayerId(ps: seq<Player>, p: Player)
    ensures Contains(ps, p) <==> HasPlayerId(ps, p.playerId)
  {
    if HasPlayerId(ps, p.playerId) {
      var i :| 0 <= i < |ps| && ps[i].playerId == p.playerId;
      assert ps[i] in ps && SamePlayer(ps[i], p);
    }
    if Contains(ps, p) {
      var q :| q in ps && SamePlayer(q, p);
      var i :| 0 <= i < |ps| && ps[i] == q;
    }
  }

  predicate DistinctIds(ps: seq<Player>)
  {
    forall i, j :: 0 <= i < j < |ps| ==> ps[i].playerId != ps[j].playerId
  }

  /** The first roster entry carrying `id`: the player the roster scans for. */
  function EntryOf(ps: seq<Player>, id: PlayerId): (e: Player)
    requires HasPlayerId(ps, id)
    ensures e in ps && e.playerId == id
  {
    if ps[0].playerId == id then ps[0]
    else
      var i :| 0 <= i < |ps| && ps[i].playerId == id;
      assert ps[1..][i - 1].playerId == id;
      EntryOf(ps[1..], id)
  }

  /** With distinct ids, the entry carrying `id` is the one at any index that carries it. */
  lemma EntryOfAt(ps: seq<Player>, id: PlayerId, i: int)
    requires DistinctIds(ps) && 0 <= i < |ps| && ps[i].playerId == id
    ensures HasPlayerId(ps, id) && EntryOf(ps, id) == ps[i]
  {
    assert HasPlayerId(ps, id);
    var e := EntryOf(ps, id);
    var j :| 0 <= j < |ps| && ps[j] == e;
    if j < i {
      assert ps[j].playerId != ps[i].playerId;
    } else if i < j {
      assert ps[i].playerId != ps[j].playerId;
    }
  }

  /** The roster with the entry of `id` marked inactive; nothing else changes. */
  function MarkInactive(ps: seq<Player>, id: PlayerId): (r: seq<Player>)
    ensures |r| == |ps|
    ensures forall i | 0 <= i < |ps| :: r[i].playerId == ps[i].playerId && r[i].symbol == ps[i].symbol
  {
    seq(|ps|, i requires 0 <= i < |ps| => if ps[i].playerId == id then ps[i].(isActive := false) else ps[i])
  }

  /** `get_active_player_count`: how many roster entries are active. */
  function ActiveCount(ps: seq<Player>): nat
  {
    if ps == [] then 0 else ActiveCount(ps[..|ps| - 1]) + (if ps[|ps| - 1].isActive then 1 else 0)
  }

  /** No active player remains exactly when every roster entry is inactive. */
  lemma {:induction false} ActiveCountZero(ps: seq<Player>)
    ensures ActiveCount(ps) == 0 <==> forall i :: 0 <= i < |ps| ==> !ps[i].isActive
  {
    if ps != [] {
      var init := ps[..|ps| - 1];
      ActiveCountZero(init);
      assert forall i :: 0 <= i < |init| ==> init[i] == ps[i];
    }
  }

  /** Marking an active member inactive lowers the active count by exactly one. */
  lemma {:induction false} ActiveCountMarkInactive(ps: seq<Player>, k: nat)
    requires DistinctIds(ps) && k < |ps| && ps[k].isActive
    ensures ActiveCount(MarkInactive(ps, ps[k].playerId)) == ActiveCount(ps) - 1
    decreases |ps|
  {
    var id := ps[k].playerId;
    var init := ps[..|ps| - 1];
    var r := MarkInactive(ps, id);
    assert r[..|r| - 1] == MarkInactive(init, id);
    if k < |ps| - 1 {
      ActiveCountMarkInactive(init, k);
      assert r[|r| - 1] == ps[|ps| - 1];
    } else {
      MarkInactiveAbsent(init, id);
    }
  }

  /** Marking an id that is absent from the roster changes nothing. */
  lemma MarkInactiveAbsent(ps: seq<Player>, id: PlayerId)
    requires !HasPlayerId(ps, id)
    ensures MarkInactive(ps, id) == ps
  {
  }

  /** Position `i` of a walk round a ring of `n` seats, for `i` less than two laps. */
  function Wrap(i: nat, n: nat): (r: nat)
    requires 0 < n && i < 2 * n
    ensures r < n
  {
    if i < n then i else i - n
  }

  /** Below two laps, Python's `i % n` is the wrap-around. */
  lemma ModIsWrap(i: nat, n: nat)
    requires 0 < n && i < 2 * n
    ensures i % n == Wrap(i, n)
  {
    if i >= n {
      assert i == 1 * n + (i - n);
    }
  }

  /** The player `j` seats after `start`, going round the roster. */
  function Seat(ps: seq<Player>, start: nat, j: nat): Player
    requires start < |ps| && j < |ps|
  {
    ps[Wrap(start + j, |ps|)]
  }

  /**
   * The first offset at or after k, going round the roster from `start`, at
   * which an active player sits.
   */
  function NextActive(ps: seq<Player>, start: nat, k: nat): (r: Option<nat>)
    requires start < |ps| && k <= |ps|
    ensures r.Some? ==> k <= r.value < |ps| && Seat(ps, start, r.value).isActive
    ensures r.Some? ==> forall j :: k <= j < r.value ==> !Seat(ps, start, j).isActive
    ensures r.None? ==> forall j :: k <= j < |ps| ==> !Seat(ps, start, j).isActive
    decreases |ps| - k
  {
    if k == |ps| then None
    else if Seat(ps, start, k).isActive then Some(k)
    else NextActive(ps, start, k + 1)
  }

  /** Where `get_current_player` leaves the turn index: on the first active player, or unmoved when none is. */
  function SkipIndex(ps: seq<Player>, idx: nat): (r: nat)
    requires idx < |ps|
    ensures r < |ps|
  {
    match NextActive(ps, idx, 0)
    case Some(k) => Wrap(idx + k, |ps|)
    case None => idx
  }

  /** The player `get_current_player` returns in a PLAYING game. */
  function CurrentOf(ps: seq<Player>, idx: nat): Option<Player>
    requires idx < |ps|
  {
    match NextActive(ps, idx, 0)
    case Some(k) => Some(ps[Wrap(idx + k, |ps|)])
    case None => None
  }

  /**
   * The turn goes to the first active player at or after the index, going
   * round the roster; the players passed over are all inactive. Nobody has the
   * turn only when every player is inactive.
   */
  lemma CurrentIsFirstActive(ps: seq<Player>, idx: nat)
    requires idx < |ps|
    ensures CurrentOf(ps, idx).Some? <==> exists i :: 0 <= i < |ps| && ps[i].isActive
    ensures CurrentOf(ps, idx).Some? ==>
              CurrentOf(ps, idx) == Some(ps[SkipIndex(ps, idx)]) && ps[SkipIndex(ps, idx)].isActive
    ensures CurrentOf(ps, idx).None? ==> SkipIndex(ps, idx) == idx
  {
    var n := |ps|;
    if CurrentOf(ps, idx).None? {
      forall i | 0 <= i < n ensures !ps[i].isActive {
        var j := if i >= idx then i - idx else i + n - idx;
        assert Seat(ps, idx, j) == ps[i];
      }
    }
  }

  /** Asking for the current player again neither moves the index nor changes the answer. */
  lemma SkipIndexIdempotent(ps: seq<Player>, idx: nat)
    requires idx < |ps|
    ensures SkipIndex(ps, SkipIndex(ps, idx)) == SkipIndex(ps, idx)
    ensures CurrentOf(ps, SkipIndex(ps, idx)) == CurrentOf(ps, idx)
  {
    var s := SkipIndex(ps, idx);
    CurrentIsFirstActive(ps, idx);
    if CurrentOf(ps, idx).Some? {
      assert Wrap(s + 0, |ps|) == s;
      assert NextActive(ps, s, 0) == Some(0);
    }
  }

  /**
   * The loop of `get_current_player`: from `start`, step round the roster at
   * most once until an active player is found; the index ends on that player,
   * or back at `start` when every player is inactive.
   */
  method SkipInactive(ps: seq<Player>, start: nat) returns (index: nat, cur: Option<Player>)
    requires start < |ps|
    ensures index == SkipIndex(ps, start) && cur == CurrentOf(ps, start)
  {
    var n := |ps|;
    index := start;
    var attempts := 0;
    while attempts < n
      invariant 0 <= attempts <= n
      invariant attempts < n ==> index == Wrap(start + attempts, n)
      invariant attempts == n ==> index == start
      invariant NextActive(ps, start, attempts) == NextActive(ps, start, 0)
    {
      var p := ps[index];
      if p.isActive {
        return index, Some(p);
      }
      ModIsWrap(index + 1, n);
      index := (index + 1) % n;
      attempts := attempts + 1;
    }
    return index, None;
  }

  /** The game summary sent in GAME_LIST (`to_dict(include_board=False)`). */
  datatype GameSummary = GameSummary(
    gameId: GameId, numPlayers: int, currentPlayerCount: nat, state: GameState, isDraw: bool)

  /** The full snapshot sent in GAME_STATE (`to_dict(include_board=True)`). */
  datatype GameSnapshot = GameSnapshot(
    summary: GameSummary, board: BoardSnapshot, players: seq<Player>,
    currentPlayerIndex: int, currentPlayerId: Option<PlayerId>, winner: Option<Player>)

  /**
   * The turn index after an accepted move from a room whose index stood at
   * `from`: on the mover when the move ended the game, else on the seat after
   * the mover.
   */
  function TurnAfter(ps: seq<Player>, from: nat, s: GameState): nat
    requires from < |ps|
  {
    if s == Finished then SkipIndex(ps, from) else Wrap(SkipIndex(ps, from) + 1, |ps|)
  }

  /** Python truthiness of a symbol string: `if winner_symbol:`. */
  predicate Truthy(s: Symbol)
  {
    |s| > 0
  }

  class Game {
    const gameId: GameId
    const numPlayers: int
    const board: Board
    var players: seq<Player>
    var currentPlayerIndex: int
    var state: GameState
    var winner: Option<Player>
    var isDraw: bool

    /** The objects this room owns. */
    ghost function Repr(): set<object>
    {
      {this, board, board.grid}
    }

    /**
     * Class invariant. The roster never outgrows the room and holds distinct ids;
     * the room waits exactly while the roster is short; the turn index stays on the
     * roster; a winner and a draw each imply FINISHED and never coexist.
     */
    ghost predicate Valid()
      reads this, board, board.grid
    {
      && board.Valid()
      && board.numPlayers == numPlayers
      && |players| <= numPlayers
      && DistinctIds(players)
      && (state == Waiting <==> |players| < numPlayers)
      && 0 <= currentPlayerIndex
      && (currentPlayerIndex < |players| || currentPlayerIndex == 0)
      && (state == Waiting ==> board.moveCount == 0)
      && (winner.Some? ==> state == Finished && !isDraw && HasPlayerId(players, winner.value.playerId))
      && (isDraw ==> state == Finished)
    }

    /** The state of a room fresh from `Game.__init__`. */
    ghost predicate IsNew(id: GameId, n: int)
      reads this, board, board.grid
    {
      && gameId == id && numPlayers == n
      && players == [] && currentPlayerIndex == 0
      && state == Waiting && winner.None? && !isDraw
      && board.numPlayers == n && board.size == n + 1 && board.winLength == n + 1
      && board.moveCount == 0 && board.Shaped()
      && (forall r, c | 0 <= r < board.size && 0 <= c < board.size :: board.grid[r, c].None?)
    }

    constructor (gameId: GameId, board: Board)
      requires board.Valid() && board.moveCount == 0
      ensures this.board == board && Valid()
      ensures gameId == this.gameId && numPlayers == board.numPlayers
      ensures players == [] && currentPlayerIndex == 0 && state == Waiting && winner.None? && !isDraw
    {
      this.gameId := gameId;
      this.numPlayers := board.numPlayers;
      this.board := board;
      players := [];
      currentPlayerIndex := 0;
      state := Waiting;
      winner := None;
      isDraw := false;
    }

    /** `Game(game_id, num_players)`, passing on the board's ValueError for a bad count. */
    static method Create(gameId: GameId, numPlayers: int) returns (r: Result<Game>)
      ensures r.Err? <==> !(MinPlayers <= numPlayers <= MaxPlayers)
      ensures r.Err? ==> r.error == "Number of players must be between 2 and 10"
      ensures r.Ok? ==> fresh(r.value.Repr()) && r.value.Valid() && r.value.IsNew(gameId, numPlayers)
    {
      var b := Board.Create(numPlayers);
      if b.Err? {
        return Err(b.error);
      }
      var g := new Game(gameId, b.value);
      return Ok(g);
    }

    /** `add_player`: appends a new id to a roster with room; the room starts when it fills. */
    method AddPlayer(p: Player) returns (ok: bool)
      requires Valid()
      modifies this
      ensures Valid()
      ensures ok <==> old(|players|) < numPlayers && !HasPlayerId(old(players), p.playerId)
      ensures !ok ==> unchanged(this)
      ensures players == if ok then old(players) + [p] else old(players)
      ensures state == if ok && |players| == numPlayers then Playing else old(state)
      ensures Advances(old(state), state)
      ensures currentPlayerIndex == old(currentPlayerIndex) && winner == old(winner) && isDraw == old(isDraw)
    {
      if |players| >= numPlayers {
        return false;
      }
      ContainsIffHasPlayerId(players, p);
      if Contains(players, p) {
        return false;
      }
      players := players + [p];
      if |players| == numPlayers {
        state := Playing;
      }
      return true;
    }

    /**
     * `remove_player`: marks the member inactive without shortening the roster,
     * and ends a game in progress. The source flips the flag on the object it is
     * handed, which every caller takes from this roster; here the roster entry
     * with that id is updated.
     */
    method RemovePlayer(p: Player) returns (ok: bool)
      requires Valid()
      modifies this
      ensures Valid()
      ensures ok == HasPlayerId(old(players), p.playerId)
      ensures players == if ok then MarkInactive(old(players), p.playerId) else old(players)
      ensures state == if ok && old(state) == Playing then Finished else old(state)
      ensures Advances(old(state), state)
      ensures currentPlayerIndex == old(currentPlayerIndex) && winner == old(winner) && isDraw == old(isDraw)
    {
      ContainsIffHasPlayerId(players, p);
      if !Contains(players, p) {
        return false;
      }
      players := MarkInactive(players, p.playerId);
      if state == Playing {
        state := Finished;
      }
      return true;
    }

    /**
     * `get_current_player`: outside PLAYING there is none; otherwise the index is
     * moved past inactive players, going round the roster at most once.
     */
    method GetCurrentPlayer() returns (cur: Option<Player>)
      requires Valid()
      modifies this`currentPlayerIndex
      ensures Valid()
      ensures old(state) != Playing ==> cur.None? && currentPlayerIndex == old(currentPlayerIndex)
      ensures old(state) == Playing ==>
                cur == CurrentOf(players, old(currentPlayerIndex)) &&
                currentPlayerIndex == SkipIndex(players, old(currentPlayerIndex))
    {
      if state != Playing {
        return None;
      }
      var index;
      index, cur := SkipInactive(players, currentPlayerIndex);
      currentPlayerIndex := index;
    }

    /** `pid` is the id of the player whose turn it is. */
    ghost predicate IsTurnOf(pid: PlayerId)
      reads this
      requires 0 <= currentPlayerIndex < |players|
    {
      CurrentOf(players, currentPlayerIndex).Some? &&
      CurrentOf(players, currentPlayerIndex).value.playerId == pid
    }

    /**
     * The error `make_move` answers the player `pid` with for the cell (row, col),
     * in the order it checks: outside PLAYING, out of turn, an invalid cell; none
     * when the move is accepted.
     */
    ghost function MoveRefusal(pid: PlayerId, row: int, col: int): Option<string>
      reads this, board, board.grid
      requires Valid()
    {
      if state != Playing then Some("Game is not in progress")
      else if !(currentPlayerIndex < |players| && IsTurnOf(pid)) then Some("Not your turn")
      else if !board.IsValidMove(row, col) then Some("Invalid move")
      else None
    }

    /**
     * How an accepted move by `p` at (row, col) ends: a win for `p` when the move
     * completes a line of a truthy symbol, else a draw on a full board, else play
     * goes on.
     */
    ghost predicate Ended(p: Player, row: int, col: int)
      reads this`winner, this`state, this`isDraw, board, board.grid
    {
      && board.Shaped()
      && if board.WinsAt(row, col, p.symbol) && Truthy(p.symbol) then
           winner == Some(p) && state == Finished && !isDraw
         else if board.IsFull() then
           winner.None? && isDraw && state == Finished
         else
           winner.None? && !isDraw && state == Playing
    }

    /**
     * Everything an accepted `make_move` by `p` at (row, col) leaves behind: the
     * roster as it was, `p`'s symbol `Placed` on the board, the ending `Ended`,
     * and the turn index `TurnAfter` gives from where it stood.
     */
    twostate predicate Played(p: Player, row: int, col: int)
      reads this, board, board.grid
    {
      && players == old(players)
      && board.Placed(p.symbol, row, col)
      && Ended(p, row, col)
      && 0 <= old(currentPlayerIndex) < |players|
      && currentPlayerIndex == TurnAfter(players, old(currentPlayerIndex), state)
    }

    /**
     * What a refused `make_move` leaves behind: nothing changes but the turn
     * index, which the turn check in a PLAYING game moves onto the first active
     * player.
     */
    twostate predicate Refused()
      reads this, board, board.grid
    {
      && players == old(players) && state == old(state)
      && winner == old(winner) && isDraw == old(isDraw)
      && unchanged(board, board.grid)
      && currentPlayerIndex ==
           if old(state) == Playing && 0 <= old(currentPlayerIndex) < |players|
           then SkipIndex(players, old(currentPlayerIndex)) else old(currentPlayerIndex)
    }

    /**
     * `make_move`: refuses, in this order, outside PLAYING, out of turn, and on an
     * invalid cell, each time leaving the board as it was; an accepted move ends
     * in exactly one of win, draw or passing the turn on.
     */
    method MakeMove(p: Player, row: int, col: int) returns (ok: bool, err: Option<string>)
      requires Valid()
      modifies this, board, board.grid
      ensures Valid()
      ensures players == old(players)
      ensures Advances(old(state), state)
      ensures ok <==> err.None?
      ensures err == old(MoveRefusal(p.playerId, row, col))
      ensures ok ==> Played(p, row, col)
      ensures !ok ==> Refused()
    {
      if state != Playing {
        return false, Some("Game is not in progress");
      }
      ghost var ps := players;
      ghost var idx := currentPlayerIndex;
      var current := GetCurrentPlayer();
      if current.None? || current.value.playerId != p.playerId {
        return false, Some("Not your turn");
      }
      CurrentIsFirstActive(ps, idx);
      assert players[currentPlayerIndex].playerId == p.playerId;
      ok := PlayTurn(p, row, col);
      err := if ok then None else Some("Invalid move");
    }

    /**
     * The second half of `make_move`, once the turn has been checked: place the
     * symbol, then settle win, draw or the next turn.
     */
    method PlayTurn(p: Player, row: int, col: int) returns (ok: bool)
      requires Valid() && state == Playing && 0 <= currentPlayerIndex < |players|
      requires players[currentPlayerIndex].playerId == p.playerId
      modifies this, board, board.grid
      ensures Valid()
      ensures players == old(players)
      ensures ok == old(board.IsValidMove(row, col))
      ensures !ok ==> unchanged(this, board, board.grid)
      ensures ok ==> board.grid[row, col] == Some(p.symbol) && board.moveCount == old(board.moveCount) + 1
      ensures ok ==> forall r, c | board.InBounds(r, c) && (r, c) != (row, col) ::
                board.grid[r, c] == old(board.grid[r, c])
      ensures ok && board.WinsAt(row, col, p.symbol) && Truthy(p.symbol) ==>
                winner == Some(p) && state == Finished && !isDraw && currentPlayerIndex == old(currentPlayerIndex)
      ensures ok && !(board.WinsAt(row, col, p.symbol) && Truthy(p.symbol)) && board.IsFull() ==>
                winner.None? && isDraw && state == Finished && currentPlayerIndex == old(currentPlayerIndex)
      ensures ok && !(board.WinsAt(row, col, p.symbol) && Truthy(p.symbol)) && !board.IsFull() ==>
                winner.None? && !isDraw && state == Playing &&
                currentPlayerIndex == Wrap(old(currentPlayerIndex) + 1, |players|)
    {
      ok := board.MakeMove(row, col, p.symbol);
      if !ok {
        return;
      }
      var winnerSymbol := board.CheckWinner(row, col);
      if winnerSymbol.Some? && Truthy(winnerSymbol.value) {
        winner := Some(p);
        state := Finished;
        return;
      }
      if board.IsFull() {
        isDraw := true;
        state := Finished;
        return;
      }
      ModIsWrap(currentPlayerIndex + 1, |players|);
      currentPlayerIndex := (currentPlayerIndex + 1) % |players|;
    }

    /** `get_active_player_count`. */
    function ActivePlayerCount(): nat
      reads this
    {
      ActiveCount(players)
    }

    /** `is_ready`: the roster is full, which is exactly when the room has left WAITING. */
    function IsReady(): (r: bool)
      reads this, board, board.grid
      ensures Valid() ==> (r <==> state != Waiting)
    {
      |players| == numPlayers
    }

    /** `to_dict(include_board=False)`. */
    function Summary(): GameSummary
      reads this
    {
      GameSummary(gameId, numPlayers, |players|, state, isDraw)
    }

    /**
     * `to_dict(include_board=True)`. The index is recorded before the source calls
     * `get_current_player`, which may then move it past inactive players.
     */
    method Snapshot() returns (s: GameSnapshot)
      requires Valid()
      modifies this`currentPlayerIndex
      ensures Valid()
      ensures s.summary == Summary() && s.board == board.Snapshot() && s.players == players
      ensures s.currentPlayerIndex == old(currentPlayerIndex) && s.winner == winner
      ensures old(state) != Playing ==> s.currentPlayerId.None? && currentPlayerIndex == old(currentPlayerIndex)
      ensures old(state) == Playing ==>
                currentPlayerIndex == SkipIndex(players, old(currentPlayerIndex)) &&
                s.currentPlayerId == (match CurrentOf(players, old(currentPlayerIndex))
                                      case Some(cp) => Some(cp.playerId)
                                      case None => None)
    {
      var index := currentPlayerIndex;
      var current := GetCurrentPlayer();
      var currentId := if current.Some? then Some(current.value.playerId) else None;
      s := GameSnapshot(Summary(), board.Snapshot(), players, index, currentId, winner);
    }
  }
}
