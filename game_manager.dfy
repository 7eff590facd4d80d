/**
 * The server's registry of rooms (tictactoe_online/server/game_manager.py): a
 * map from game id to game and a map from player id to the game id the player
 * is in, with the join, leave, move and clean-up transactions over them.
 */
module Manager {
  import opened Wrappers
  import opened Players
  import opened Boards
  import opened Games

  /** The figures `get_stats` reports. */
  datatype Stats = Stats(
    totalGames: nat, waitingGames: nat, activeGames: nat, finishedGames: nat, totalPlayers: nat)

  /**
   * The mappings left after a finished or emptied room `gid` frees its roster:
   * a roster member's mapping goes only when it still points at `gid`.
   */
  function ReleaseRoster(ptg: map<PlayerId, GameId>, roster: seq<Player>, gid: GameId): map<PlayerId, GameId>
  {
    map k | k in ptg && !(HasPlayerId(roster, k) && ptg[k] == gid) :: ptg[k]
  }

  /**
   * The release as the source writes it: every roster member's mapping goes,
   * wherever it points.
   */
  function ReleaseRosterAsWritten(ptg: map<PlayerId, GameId>, roster: seq<Player>): map<PlayerId, GameId>
  {
    map k | k in ptg && !HasPlayerId(roster, k) :: ptg[k]
  }

  /**
   * The release frees exactly the roster's mappings into `gid`: mappings into
   * other rooms, and mappings of players outside the roster, survive unchanged.
   */
  lemma ReleaseRosterFrees(ptg: map<PlayerId, GameId>, roster: seq<Player>, gid: GameId)
    ensures forall k | k in ReleaseRoster(ptg, roster, gid) :: k in ptg && ReleaseRoster(ptg, roster, gid)[k] == ptg[k]
    ensures forall k | k in ptg && ptg[k] != gid :: k in ReleaseRoster(ptg, roster, gid)
    ensures forall k | k in ptg && !HasPlayerId(roster, k) :: k in ReleaseRoster(ptg, roster, gid)
    ensures forall k | k in ReleaseRoster(ptg, roster, gid) :: !(HasPlayerId(roster, k) && ptg[k] == gid)
  {
  }

  /**
   * When every mapping into `gid` belongs to a roster member, the release leaves
   * no mapping into `gid` at all.
   */
  lemma ReleaseRosterEmptiesRoom(ptg: map<PlayerId, GameId>, roster: seq<Player>, gid: GameId)
    requires forall k | k in ptg && ptg[k] == gid :: HasPlayerId(roster, k)
    ensures forall k | k in ReleaseRoster(ptg, roster, gid) :: ReleaseRoster(ptg, roster, gid)[k] != gid
  {
  }

  /**
   * The as-written release loses a live mapping: a player who left room "G"
   * while it was waiting stays on its roster, joins room "H", and then loses the
   * mapping to "H" when "G" is freed. The corrected release keeps it.
   */
  lemma AsWrittenReleaseDropsLiveMapping()
    ensures var ptg := map["A" := "H"];
            var roster := [Player("A", "Alice", "X", false), Player("B", "Bob", "O", true)];
            "A" !in ReleaseRosterAsWritten(ptg, roster) &&
            ReleaseRoster(ptg, roster, "G") == ptg
  {
    var ptg := map["A" := "H"];
    var roster := [Player("A", "Alice", "X", false), Player("B", "Bob", "O", true)];
    assert roster[0].playerId == "A";
    assert "H" != "G";
  }

  /** One roster entry more: its mapping goes when it points at `gid`. */
  lemma ReleaseRosterStep(ptg: map<PlayerId, GameId>, roster: seq<Player>, i: nat, gid: GameId)
    requires i < |roster|
    ensures var prev := ReleaseRoster(ptg, roster[..i], gid);
            var id := roster[i].playerId;
            ReleaseRoster(ptg, roster[..i + 1], gid) ==
              if id in prev && prev[id] == gid then prev - {id} else prev
  {
    var prev := ReleaseRoster(ptg, roster[..i], gid);
    var id := roster[i].playerId;
    var next := ReleaseRoster(ptg, roster[..i + 1], gid);
    assert roster[..i + 1] == roster[..i] + [roster[i]];
    forall k
      ensures HasPlayerId(roster[..i + 1], k) <==> HasPlayerId(roster[..i], k) || k == id
    {
      if HasPlayerId(roster[..i + 1], k) {
        var j :| 0 <= j < i + 1 && roster[..i + 1][j].playerId == k;
        if j < i {
          assert roster[..i][j].playerId == k;
        }
      }
      if HasPlayerId(roster[..i], k) {
        var j :| 0 <= j < i && roster[..i][j].playerId == k;
        assert roster[..i + 1][j].playerId == k;
      }
      if k == id {
        assert roster[..i + 1][i].playerId == k;
      }
    }
  }

  /** The full roster is the last prefix. */
  lemma ReleaseRosterWhole(ptg: map<PlayerId, GameId>, roster: seq<Player>, gid: GameId)
    ensures ReleaseRoster(ptg, roster[..|roster|], gid) == ReleaseRoster(ptg, roster, gid)
  {
    assert roster[..|roster|] == roster;
  }

  /** Appending keeps every id and adds the newcomer's. */
  lemma HasPlayerIdAppend(ps: seq<Player>, p: Player, id: PlayerId)
    ensures HasPlayerId(ps + [p], id) <==> HasPlayerId(ps, id) || p.playerId == id
  {
    if HasPlayerId(ps, id) {
      var j :| 0 <= j < |ps| && ps[j].playerId == id;
      assert (ps + [p])[j] == ps[j];
    }
    if p.playerId == id {
      assert (ps + [p])[|ps|] == p;
    }
  }

  /** Every active entry of roster `ps` is mapped to room `gid`. */
  ghost predicate MappedIn(ps: seq<Player>, ptg: map<PlayerId, GameId>, gid: GameId)
  {
    forall i | 0 <= i < |ps| && ps[i].isActive :: ps[i].playerId in ptg && ptg[ps[i].playerId] == gid
  }

  /** A new mapping for a player without one disturbs no existing membership. */
  lemma MappedInAddKey(ps: seq<Player>, ptg: map<PlayerId, GameId>, gid: GameId, k: PlayerId, v: GameId)
    requires MappedIn(ps, ptg, gid) && k !in ptg
    ensures MappedIn(ps, ptg[k := v], gid)
  {
  }

  /** Appending a member mapped to the room keeps the room's members mapped. */
  lemma MappedInAppend(ps: seq<Player>, p: Player, ptg: map<PlayerId, GameId>, gid: GameId)
    requires MappedIn(ps, ptg, gid) && p.playerId in ptg && ptg[p.playerId] == gid
    ensures MappedIn(ps + [p], ptg, gid)
  {
    forall i | 0 <= i < |ps + [p]| && (ps + [p])[i].isActive
      ensures (ps + [p])[i].playerId in ptg && ptg[(ps + [p])[i].playerId] == gid
    {
      if i < |ps| {
        assert (ps + [p])[i] == ps[i];
      }
    }
  }

  /** Dropping a mapping that points elsewhere, or an inactive member's, keeps the room's members mapped. */
  lemma MappedInRemoveKey(ps: seq<Player>, ptg: map<PlayerId, GameId>, gid: GameId, k: PlayerId)
    requires MappedIn(ps, ptg, gid)
    requires k in ptg ==> ptg[k] != gid
    ensures MappedIn(ps, ptg - {k}, gid)
  {
  }

  /** The ids of a roster survive marking one of them inactive. */
  lemma HasPlayerIdMarkInactive(ps: seq<Player>, id: PlayerId, k: PlayerId)
    ensures HasPlayerId(MarkInactive(ps, id), k) <==> HasPlayerId(ps, k)
  {
    var r := MarkInactive(ps, id);
    if HasPlayerId(ps, k) {
      var j :| 0 <= j < |ps| && ps[j].playerId == k;
      assert r[j].playerId == k;
    }
  }

  /** A member who leaves is marked inactive and unmapped; the rest stay mapped. */
  lemma MappedInLeave(ps: seq<Player>, ptg: map<PlayerId, GameId>, gid: GameId, pid: PlayerId)
    requires MappedIn(ps, ptg, gid)
    ensures MappedIn(MarkInactive(ps, pid), ptg - {pid}, gid)
  {
  }

  /** Freeing room `gid` keeps the members of any other room `g` mapped. */
  lemma MappedInRelease(ps: seq<Player>, ptg: map<PlayerId, GameId>, roster: seq<Player>, gid: GameId, g: GameId)
    requires MappedIn(ps, ptg, g) && g != gid
    ensures MappedIn(ps, ReleaseRoster(ptg, roster, gid), g)
  {
    ReleaseRosterFrees(ptg, roster, gid);
  }

  /**
   * The release loop of `make_move` and `_cleanup_game`, corrected to free a
   * roster member's mapping only while it points at the room.
   */
  method Release(ptg: map<PlayerId, GameId>, roster: seq<Player>, gid: GameId) returns (r: map<PlayerId, GameId>)
    ensures r == ReleaseRoster(ptg, roster, gid)
  {
    r := ptg;
    assert r == ReleaseRoster(ptg, roster[..0], gid);
    for i := 0 to |roster|
      invariant r == ReleaseRoster(ptg, roster[..i], gid)
    {
      ReleaseRosterStep(ptg, roster, i, gid);
      var id := roster[i].playerId;
      if id in r && r[id] == gid {
        r := r - {id};
      }
    }
    ReleaseRosterWhole(ptg, roster, gid);
  }

  /** The keys of `states` whose room is in state `st`. */
  function WithState(states: map<GameId, GameState>, st: GameState): set<GameId>
  {
    set g | g in states && states[g] == st
  }

  /** Every room is in exactly one state, so the three counts add up to the whole. */
  lemma StatesPartition(states: map<GameId, GameState>)
    ensures |WithState(states, Waiting)| + |WithState(states, Playing)| + |WithState(states, Finished)| == |states|
  {
    var w, a, f := WithState(states, Waiting), WithState(states, Playing), WithState(states, Finished);
    assert w !! a && (w + a) !! f;
    assert states.Keys == w + a + f;
  }

  /** The three `sum(1 for g in games.values() if g.state == ...)` loops of `get_stats`, as one walk. */
  method CountStates(states: map<GameId, GameState>) returns (waiting: nat, active: nat, finished: nat)
    ensures waiting == |WithState(states, Waiting)|
    ensures active == |WithState(states, Playing)|
    ensures finished == |WithState(states, Finished)|
  {
    waiting, active, finished := 0, 0, 0;
    var rest := states.Keys;
    while rest != {}
      invariant rest <= states.Keys
      invariant waiting == |WithState(states, Waiting) - rest|
      invariant active == |WithState(states, Playing) - rest|
      invariant finished == |WithState(states, Finished) - rest|
      decreases rest
    {
      var g :| g in rest;
      var st := states[g];
      CountStep(states, rest, g, Waiting);
      CountStep(states, rest, g, Playing);
      CountStep(states, rest, g, Finished);
      match st {
        case Waiting => waiting := waiting + 1;
        case Playing => active := active + 1;
        case Finished => finished := finished + 1;
      }
      rest := rest - {g};
    }
  }

  /** Taking key `g` out of the unvisited keys adds it to the visited rooms of its own state only. */
  lemma CountStep(states: map<GameId, GameState>, rest: set<GameId>, g: GameId, st: GameState)
    requires g in rest && rest <= states.Keys
    ensures |WithState(states, st) - (rest - {g})| ==
              |WithState(states, st) - rest| + (if states[g] == st then 1 else 0)
  {
    var before := WithState(states, st) - rest;
    var after := WithState(states, st) - (rest - {g});
    if states[g] == st {
      assert after == before + {g};
    } else {
      assert after == before;
    }
  }

  /** Removing a key the map lacks leaves the map as it was. */
  lemma RemoveAbsentKey<K, V>(m: map<K, V>, k: K)
    requires k !in m
    ensures m - {k} == m
  {
  }

  /** Setting a key after removing it is setting it. */
  lemma UpdateAfterRemove<K, V>(m: map<K, V>, k: K, v: V)
    ensures (m - {k})[k := v] == m[k := v]
  {
  }

  class GameManager {
    var games: map<GameId, Game>
    var playerToGame: map<PlayerId, GameId>
    /** The objects of the registered rooms. */
    ghost var Repr: set<object>

    /**
     * Class invariant: the rooms own disjoint objects and are each valid under
     * their own id; every mapping points at a registered room whose roster holds
     * the player; every active member of an unfinished room is mapped to it.
     */
    ghost predicate Valid()
      reads this, Repr
    {
      && Owned()
      && Keyed()
      && RoomsValid()
      && MappingsLive()
      && MembersMapped()
    }

    /** The rooms' objects lie in the footprint and no two rooms share one. */
    ghost predicate Owned()
      reads this
    {
      && this !in Repr
      && (forall g | g in games :: games[g] in Repr && games[g].board in Repr && games[g].board.grid in Repr)
      && (forall g, h | g in games && h in games && g != h ::
            games[g] != games[h] && games[g].board != games[h].board && games[g].board.grid != games[h].board.grid)
    }

    /** Each room is registered under its own (non-empty) id. */
    ghost predicate Keyed()
      reads this
    {
      forall g | g in games :: games[g].gameId == g && g != ""
    }

    /** Each room is valid. */
    ghost predicate RoomsValid()
      reads this, Repr
      requires Owned()
    {
      forall g | g in games :: games[g].Valid()
    }

    /** Every mapping points at a registered room whose roster holds the player. */
    ghost predicate MappingsLive()
      reads this, Repr
      requires Owned()
    {
      forall pid | pid in playerToGame ::
        playerToGame[pid] in games && HasPlayerId(games[playerToGame[pid]].players, pid)
    }

    /** Every active member of an unfinished room is mapped to that room. */
    ghost predicate MembersMapped()
      reads this, Repr
      requires Owned()
    {
      forall g | g in games && games[g].state != Finished :: MappedIn(games[g].players, playerToGame, g)
    }

    /** The room registered under `gid`, as a frame. */
    ghost function Room(gid: GameId): set<object>
      reads this
    {
      if gid in games then {games[gid]} else {}
    }

    constructor ()
      ensures Valid() && Repr == {}
      ensures games == map[] && playerToGame == map[]
    {
      games := map[];
      playerToGame := map[];
      Repr := {};
    }

    /** `get_game`: the registry is keyed by each room's own id. */
    function GetGame(gid: GameId): (r: Option<Game>)
      reads this, Repr
      requires Valid()
      ensures r.Some? <==> gid in games
      ensures r.Some? ==> r.value.gameId == gid && r.value.Valid()
    {
      if gid in games then Some(games[gid]) else None
    }

    /**
     * `get_player_game`: a player with a (non-empty) mapping is found in a
     * registered room whose roster holds them.
     */
    function GetPlayerGame(pid: PlayerId): (r: Option<Game>)
      reads this, Repr
      requires Valid()
      ensures r.Some? <==> pid in playerToGame && playerToGame[pid] != ""
      ensures r.Some? ==> r.value.gameId == playerToGame[pid] && HasPlayerId(r.value.players, pid) && r.value.Valid()
    {
      if pid in playerToGame && playerToGame[pid] != "" then GetGame(playerToGame[pid]) else None
    }

    /**
     * `create_game`: registers a fresh WAITING room under the new id `gid` (a
     * uuid in the source), or passes on the board's error.
     */
    method CreateGame(numPlayers: int, gid: GameId) returns (r: Result<Game>)
      requires Valid() && gid != "" && gid !in games
      modifies this
      ensures Valid() && fresh(Repr - old(Repr))
      ensures r.Err? <==> !(MinPlayers <= numPlayers <= MaxPlayers)
      ensures r.Err? ==> r.error == "Number of players must be between 2 and 10" && games == old(games)
      ensures r.Ok? ==> games == old(games)[gid := r.value] && fresh(r.value.Repr()) && r.value.IsNew(gid, numPlayers)
      ensures playerToGame == old(playerToGame)
    {
      r := Game.Create(gid, numPlayers);
      if r.Ok? {
        Register(gid, r.value);
      }
    }

    /** Adds a room with an empty roster, built outside the footprint, under its own id. */
    method Register(gid: GameId, g: Game)
      requires Valid() && gid != "" && gid !in games
      requires g.Valid() && g.gameId == gid && g.players == []
      requires g !in Repr && g.board !in Repr && g.board.grid !in Repr
      modifies this
      ensures Valid() && Repr == old(Repr) + g.Repr()
      ensures games == old(games)[gid := g] && playerToGame == old(playerToGame)
    {
      games := games[gid := g];
      Repr := Repr + g.Repr();
      RegisterKeepsRooms(gid, g);
      RegisterKeepsMappings(gid, g);
    }

    twostate lemma RegisterKeepsRooms(gid: GameId, new g: Game)
      requires old(Valid()) && gid != "" && gid !in old(games)
      requires g.Valid() && g.gameId == gid
      requires g !in old(Repr) && g.board !in old(Repr) && g.board.grid !in old(Repr)
      requires games == old(games)[gid := g] && Repr == old(Repr) + g.Repr() && unchanged(old(Repr))
      ensures Owned() && Keyed() && RoomsValid()
    {
      forall h | h in games && h != gid ensures games[h].Valid() {
        assert old(games[h].Valid());
      }
    }

    twostate lemma RegisterKeepsMappings(gid: GameId, new g: Game)
      requires old(Valid()) && gid !in old(games) && g.players == []
      requires Owned()
      requires games == old(games)[gid := g] && playerToGame == old(playerToGame) && unchanged(old(Repr))
      ensures MappingsLive() && MembersMapped()
    {
    }

    /** A mapping to a registered room that has not finished: the player is busy. */
    predicate Busy(pid: PlayerId)
      reads this, Repr
      requires Valid()
    {
      pid in playerToGame && playerToGame[pid] in games && games[playerToGame[pid]].state != Finished
    }

    /**
     * `join_game`: refuses an unknown room, a room that has started and a busy
     * player, changing nothing; drops a stale mapping, which stays dropped even
     * if the room then turns out to be full; otherwise appends and maps the player.
     */
    method JoinGame(gid: GameId, p: Player) returns (ok: bool, err: Option<string>)
      requires Valid()
      modifies this, Room(gid)
      ensures Valid() && games == old(games) && Repr == old(Repr)
      ensures ok <==> err.None?
      ensures !ok ==> unchanged(Room(gid))
      ensures gid !in games ==> err == Some("Game not found") && playerToGame == old(playerToGame)
      ensures gid in games && old(games[gid].state) != Waiting ==>
                err == Some("Game already started") && playerToGame == old(playerToGame)
      ensures gid in games && old(games[gid].state) == Waiting && old(Busy(p.playerId)) ==>
                err == Some("Player already in a game") && playerToGame == old(playerToGame)
      ensures gid in games && old(games[gid].state) == Waiting && !old(Busy(p.playerId)) ==>
                (ok <==> old(|games[gid].players|) < games[gid].numPlayers &&
                         !HasPlayerId(old(games[gid].players), p.playerId)) &&
                (!ok ==> err == Some("Game is full") && playerToGame == old(playerToGame) - {p.playerId})
      ensures ok ==> playerToGame == old(playerToGame)[p.playerId := gid] &&
                     games[gid].players == old(games[gid].players) + [p] &&
                     games[gid].state == (if |games[gid].players| == games[gid].numPlayers then Playing else Waiting)
      ensures gid in games ==>
                games[gid].currentPlayerIndex == old(games[gid].currentPlayerIndex) &&
                games[gid].winner == old(games[gid].winner) && games[gid].isDraw == old(games[gid].isDraw) &&
                unchanged(games[gid].board, games[gid].board.grid)
    {
      if gid !in games {
        ok, err := false, Some("Game not found");
      } else if games[gid].state != Waiting {
        ok, err := false, Some("Game already started");
      } else if Busy(p.playerId) {
        ok, err := false, Some("Player already in a game");
      } else {
        ghost var before := playerToGame;
        if p.playerId in playerToGame {
          DropMapping(p.playerId);
        } else {
          RemoveAbsentKey(playerToGame, p.playerId);
        }
        ok := AddMember(gid, p);
        if ok {
          UpdateAfterRemove(before, p.playerId, gid);
        }
        err := if ok then None else Some("Game is full");
      }
    }

    /** Deletes the mapping of a player who is not busy. */
    method DropMapping(pid: PlayerId)
      requires Valid() && !Busy(pid)
      modifies this
      ensures Valid() && games == old(games) && Repr == old(Repr)
      ensures playerToGame == old(playerToGame) - {pid}
    {
      playerToGame := playerToGame - {pid};
      MappingsKeepRooms();
      DropKeepsMappings(pid);
    }

    /** A change to the mappings alone keeps the rooms as they were. */
    twostate lemma MappingsKeepRooms()
      requires old(Valid()) && games == old(games) && Repr == old(Repr) && unchanged(Repr)
      ensures Owned() && Keyed() && RoomsValid()
    {
      forall g | g in games ensures games[g].Valid() {
        assert old(games[g].Valid());
      }
    }

    twostate lemma DropKeepsMappings(pid: PlayerId)
      requires old(Valid()) && Owned() && games == old(games) && Repr == old(Repr) && unchanged(Repr)
      requires pid in old(playerToGame) ==>
                 old(playerToGame)[pid] !in games || games[old(playerToGame)[pid]].state == Finished
      requires playerToGame == old(playerToGame) - {pid}
      ensures MappingsLive() && MembersMapped()
    {
      forall g | g in games && games[g].state != Finished ensures MappedIn(games[g].players, playerToGame, g) {
        MappedInRemoveKey(games[g].players, old(playerToGame), g, pid);
      }
    }

    /** The `add_player` step of a join by an unmapped player, and the mapping when it succeeds. */
    method AddMember(gid: GameId, p: Player) returns (ok: bool)
      requires Valid() && gid in games && games[gid].state == Waiting && p.playerId !in playerToGame
      modifies this, games[gid]
      ensures Valid() && games == old(games) && Repr == old(Repr)
      ensures ok <==> old(|games[gid].players|) < games[gid].numPlayers &&
                      !HasPlayerId(old(games[gid].players), p.playerId)
      ensures !ok ==> unchanged(this, games[gid])
      ensures ok ==> playerToGame == old(playerToGame)[p.playerId := gid] &&
                     games[gid].players == old(games[gid].players) + [p] &&
                     games[gid].state == (if |games[gid].players| == games[gid].numPlayers then Playing else Waiting)
      ensures gid in games ==>
                games[gid].currentPlayerIndex == old(games[gid].currentPlayerIndex) &&
                games[gid].winner == old(games[gid].winner) && games[gid].isDraw == old(games[gid].isDraw) &&
                unchanged(games[gid].board, games[gid].board.grid)
    {
      var game := games[gid];
      ok := game.AddPlayer(p);
      if ok {
        playerToGame := playerToGame[p.playerId := gid];
        RoomKeepsRooms(gid);
        MemberKeepsMappings(gid, p);
      }
    }

    /** A room that changed on its own, still valid, keeps the registry's rooms valid. */
    twostate lemma RoomKeepsRooms(gid: GameId)
      requires old(Valid()) && gid in games && games == old(games) && Repr == old(Repr)
      requires unchanged(Repr - {games[gid], games[gid].board, games[gid].board.grid}) && games[gid].Valid()
      ensures Owned() && Keyed() && RoomsValid()
    {
      forall g | g in games && g != gid ensures games[g].Valid() {
        assert old(games[g].Valid());
      }
    }

    twostate lemma MemberKeepsMappings(gid: GameId, new p: Player)
      requires old(Valid()) && Owned() && gid in games && games == old(games) && Repr == old(Repr)
      requires unchanged(Repr - {games[gid], games[gid].board, games[gid].board.grid}) && old(games[gid].state) == Waiting
      requires games[gid].players == old(games[gid].players) + [p]
      requires p.playerId !in old(playerToGame) && playerToGame == old(playerToGame)[p.playerId := gid]
      ensures MappingsLive() && MembersMapped()
    {
      forall pid | pid in playerToGame
        ensures playerToGame[pid] in games && HasPlayerId(games[playerToGame[pid]].players, pid)
      {
        if playerToGame[pid] == gid {
          HasPlayerIdAppend(old(games[gid].players), p, pid);
        }
      }
      forall g | g in games && games[g].state != Finished
        ensures MappedIn(games[g].players, playerToGame, g)
      {
        MappedInAddKey(old(games[g].players), old(playerToGame), g, p.playerId, gid);
        if g == gid {
          MappedInAppend(old(games[g].players), p, playerToGame, gid);
        }
      }
    }

    /** The objects of the room a player is mapped to, as a frame. */
    ghost function PlayerRoom(pid: PlayerId): set<object>
      reads this
    {
      if pid in playerToGame && playerToGame[pid] in games then games[playerToGame[pid]].Repr() else {}
    }

    /**
     * `leave_game`: a mapped player is marked inactive in their room (which ends
     * if it was being played) and unmapped; a room left with no active player is
     * cleaned up. An unmapped player changes nothing and gets no room back.
     */
    method LeaveGame(pid: PlayerId) returns (r: Option<Game>)
      requires Valid()
      modifies this, PlayerRoom(pid)
      ensures Valid() && Repr == old(Repr)
      ensures r == old(GetPlayerGame(pid))
      ensures r.None? ==> unchanged(this)
      ensures r.Some? ==> var gid := r.value.gameId;
                old(playerToGame[pid]) == gid &&
                r.value.players == MarkInactive(old(r.value.players), pid) &&
                r.value.state == (if old(r.value.state) == Playing then Finished else old(r.value.state))
      ensures r.Some? ==>
                r.value.winner == old(r.value.winner) && r.value.isDraw == old(r.value.isDraw) &&
                r.value.currentPlayerIndex == old(r.value.currentPlayerIndex) &&
                unchanged(r.value.board, r.value.board.grid)
      ensures r.Some? && ActiveCount(r.value.players) > 0 ==>
                games == old(games) && playerToGame == old(playerToGame) - {pid}
      ensures r.Some? && ActiveCount(r.value.players) == 0 ==>
                games == old(games) - {r.value.gameId} &&
                playerToGame == ReleaseRoster(old(playerToGame) - {pid}, r.value.players, r.value.gameId)
    {
      r := None;
      if pid in playerToGame && playerToGame[pid] != "" {
        var gid := playerToGame[pid];
        r := GetGame(gid);
        if r.Some? {
          var game := r.value;
          var idx: Option<nat> := None;
          var i := 0;
          while i < |game.players|
            invariant 0 <= i <= |game.players|
            invariant idx.None? && forall j :: 0 <= j < i ==> game.players[j].playerId != pid
          {
            if game.players[i].playerId == pid {
              idx := Some(i);
              break;
            }
            i := i + 1;
          }
          if idx.Some? {
            DepartRoom(game, pid, idx.value);
          }
        }
      }
    }

    /**
     * The room's `remove_player` for the entry at `idx`, which carries `pid`, then
     * the unmapping of `pid` and the cleanup of a room left with no active player.
     * Only the roster, and the state of a game being played, change in the room.
     */
    method DepartRoom(game: Game, pid: PlayerId, idx: nat)
      requires Valid() && game.gameId in games && games[game.gameId] == game
      requires pid in playerToGame && playerToGame[pid] == game.gameId
      requires idx < |game.players| && game.players[idx].playerId == pid
      modifies this, game
      ensures Valid() && Repr == old(Repr)
      ensures game.players == MarkInactive(old(game.players), pid)
      ensures game.state == (if old(game.state) == Playing then Finished else old(game.state))
      ensures game.winner == old(game.winner) && game.isDraw == old(game.isDraw)
      ensures game.currentPlayerIndex == old(game.currentPlayerIndex)
      ensures ActiveCount(game.players) > 0 ==>
                games == old(games) && playerToGame == old(playerToGame) - {pid}
      ensures ActiveCount(game.players) == 0 ==>
                games == old(games) - {game.gameId} &&
                playerToGame == ReleaseRoster(old(playerToGame) - {pid}, game.players, game.gameId)
    {
      var _ := game.RemovePlayer(game.players[idx]);
      playerToGame := playerToGame - {pid};
      RoomKeepsRooms(game.gameId);
      LeaveKeepsMappings(pid);
      if game.ActivePlayerCount() == 0 {
        CleanupGame(game.gameId);
      }
    }

    twostate lemma LeaveKeepsMappings(pid: PlayerId)
      requires old(Valid()) && Owned() && games == old(games) && Repr == old(Repr)
      requires pid in old(playerToGame) && old(playerToGame)[pid] in games
      requires var gid := old(playerToGame)[pid]; unchanged(Repr - {games[gid], games[gid].board, games[gid].board.grid})
      requires games[old(playerToGame)[pid]].players == MarkInactive(old(games[playerToGame[pid]].players), pid)
      requires var gid := old(playerToGame)[pid];
                 games[gid].state == (if old(games[gid].state) == Playing then Finished else old(games[gid].state))
      requires playerToGame == old(playerToGame) - {pid}
      ensures MappingsLive() && MembersMapped()
    {
      var gid := old(playerToGame)[pid];
      forall k | k in playerToGame
        ensures playerToGame[k] in games && HasPlayerId(games[playerToGame[k]].players, k)
      {
        if playerToGame[k] == gid {
          HasPlayerIdMarkInactive(old(games[gid].players), pid, k);
        }
      }
      forall g | g in games && games[g].state != Finished
        ensures MappedIn(games[g].players, playerToGame, g)
      {
        if g == gid {
          MappedInLeave(old(games[g].players), old(playerToGame), g, pid);
        } else {
          MappedInRemoveKey(games[g].players, old(playerToGame), g, pid);
        }
      }
    }

    /**
     * `_cleanup_game`: frees the room's roster and deletes the room; an unknown
     * id changes nothing. Only mappings that still point at the room are freed
     * (see the findings in the README).
     */
    method CleanupGame(gid: GameId)
      requires Valid()
      modifies this
      ensures Valid() && Repr == old(Repr)
      ensures gid !in old(games) ==> unchanged(this)
      ensures gid in old(games) ==>
                games == old(games) - {gid} &&
                playerToGame == ReleaseRoster(old(playerToGame), old(games[gid].players), gid)
      ensures forall k | k in playerToGame :: playerToGame[k] != gid
    {
      if gid in games {
        var game := games[gid];
        playerToGame := Release(playerToGame, game.players, gid);
        games := games - {gid};
        CleanupKeepsRooms(gid);
        CleanupKeepsMappings(gid);
      }
    }

    twostate lemma CleanupKeepsRooms(gid: GameId)
      requires old(Valid()) && gid in old(games) && games == old(games) - {gid}
      requires Repr == old(Repr) && unchanged(Repr)
      ensures Owned() && Keyed() && RoomsValid()
    {
      forall g | g in games ensures games[g].Valid() {
        assert old(games[g].Valid());
      }
    }

    twostate lemma CleanupKeepsMappings(gid: GameId)
      requires old(Valid()) && Owned() && gid in old(games) && games == old(games) - {gid}
      requires Repr == old(Repr) && unchanged(Repr)
      requires playerToGame == ReleaseRoster(old(playerToGame), old(games[gid].players), gid)
      ensures MappingsLive() && MembersMapped()
      ensures forall k | k in playerToGame :: playerToGame[k] != gid
    {
      var ptg := old(playerToGame);
      var roster := old(games[gid].players);
      ReleaseRosterEmptiesRoom(ptg, roster, gid);
      ReleaseRosterFrees(ptg, roster, gid);
      forall g | g in games && games[g].state != Finished
        ensures MappedIn(games[g].players, playerToGame, g)
      {
        MappedInRelease(games[g].players, ptg, roster, gid, g);
      }
    }

    /**
     * `make_move`: the player's room plays the move for the player's roster
     * entry; a room that is FINISHED afterwards frees its roster's mappings into
     * it. A player without a room gets "Not in a game".
     */
    method MakeMove(pid: PlayerId, row: int, col: int) returns (ok: bool, err: Option<string>, r: Option<Game>)
      requires Valid()
      modifies this, PlayerRoom(pid)
      ensures Valid() && games == old(games) && Repr == old(Repr)
      ensures ok <==> err.None?
      ensures r == old(GetPlayerGame(pid))
      ensures r.None? ==> err == Some("Not in a game") && unchanged(this)
      ensures r.Some? ==> r.value.players == old(r.value.players) && Advances(old(r.value.state), r.value.state)
      ensures r.Some? ==> err == old(r.value.MoveRefusal(pid, row, col))
      ensures r.Some? && !ok ==> r.value.Refused()
      ensures ok ==> r.Some? && HasPlayerId(r.value.players, pid) && r.value.Played(EntryOf(r.value.players, pid), row, col)
      ensures r.Some? && r.value.state != Finished ==> playerToGame == old(playerToGame)
      ensures r.Some? && r.value.state == Finished ==>
                playerToGame == ReleaseRoster(old(playerToGame), r.value.players, r.value.gameId)
    {
      r := GetPlayerGame(pid);
      if r.None? {
        ok, err := false, Some("Not in a game");
      } else {
        var game := r.value;
        var idx: Option<nat> := None;
        var i := 0;
        while i < |game.players|
          invariant 0 <= i <= |game.players|
          invariant idx.None? && forall j :: 0 <= j < i ==> game.players[j].playerId != pid
        {
          if game.players[i].playerId == pid {
            idx := Some(i);
            break;
          }
          i := i + 1;
        }
        if idx.None? {
          ok, err, r := false, Some("Player not found in game"), None;
        } else {
          ok, err := PlayAndRelease(game, pid, idx.value, row, col);
        }
      }
    }

    /**
     * The room's move for the roster entry at `idx`, which carries `pid`, then the
     * release of a FINISHED room's roster.
     */
    method PlayAndRelease(game: Game, pid: PlayerId, idx: nat, row: int, col: int) returns (ok: bool, err: Option<string>)
      requires Valid() && game.gameId in games && games[game.gameId] == game
      requires idx < |game.players| && game.players[idx].playerId == pid
      modifies this, game, game.board, game.board.grid
      ensures Valid() && games == old(games) && Repr == old(Repr)
      ensures ok <==> err.None?
      ensures game.players == old(game.players) && Advances(old(game.state), game.state)
      ensures err == old(game.MoveRefusal(pid, row, col))
      ensures ok ==> HasPlayerId(game.players, pid) && game.Played(EntryOf(game.players, pid), row, col)
      ensures !ok ==> game.Refused()
      ensures game.state != Finished ==> playerToGame == old(playerToGame)
      ensures game.state == Finished ==> playerToGame == ReleaseRoster(old(playerToGame), game.players, game.gameId)
    {
      EntryOfAt(game.players, pid, idx);
      ok, err := game.MakeMove(game.players[idx], row, col);
      label moved:
      RoomKeepsRooms(game.gameId);
      MoveKeepsMappings(game.gameId);
      if game.state == Finished {
        FreeRoster(game.gameId);
      }
      assert unchanged@moved(game, game.board, game.board.grid);
    }

    /** Frees the roster's mappings into a FINISHED room, which stays registered. */
    method FreeRoster(gid: GameId)
      requires Valid() && gid in games && games[gid].state == Finished
      modifies this
      ensures Valid() && games == old(games) && Repr == old(Repr)
      ensures playerToGame == ReleaseRoster(old(playerToGame), games[gid].players, gid)
    {
      playerToGame := Release(playerToGame, games[gid].players, gid);
      MappingsKeepRooms();
      FinishKeepsMappings(gid);
    }

    twostate lemma MoveKeepsMappings(gid: GameId)
      requires old(Valid()) && Owned() && gid in games && games == old(games) && Repr == old(Repr)
      requires unchanged(Repr - {games[gid], games[gid].board, games[gid].board.grid}) && games[gid].players == old(games[gid].players)
      requires playerToGame == old(playerToGame)
      requires Advances(old(games[gid].state), games[gid].state)
      ensures MappingsLive() && MembersMapped()
    {
      forall g | g in games && games[g].state != Finished
        ensures MappedIn(games[g].players, playerToGame, g)
      {
        if g == gid && old(games[g].state) == Finished {
          FinishedIsTerminal(games[g].state);
        }
      }
    }

    twostate lemma FinishKeepsMappings(gid: GameId)
      requires old(Valid()) && Owned() && gid in games && games == old(games) && Repr == old(Repr) && unchanged(Repr)
      requires games[gid].state == Finished
      requires playerToGame == ReleaseRoster(old(playerToGame), games[gid].players, gid)
      ensures MappingsLive() && MembersMapped()
    {
      var ptg := old(playerToGame);
      var roster := games[gid].players;
      ReleaseRosterFrees(ptg, roster, gid);
      forall g | g in games && games[g].state != Finished
        ensures MappedIn(games[g].players, playerToGame, g)
      {
        MappedInRelease(games[g].players, ptg, roster, gid, g);
      }
    }

    /**
     * `to_dict(include_board=True)` on a registered room: only its turn index may
     * move (past inactive players), so the registry stays valid.
     */
    method SnapshotRoom(gid: GameId) returns (s: GameSnapshot)
      requires Valid() && gid in games
      modifies games[gid]
      ensures Valid()
      ensures var g := games[gid];
                g.players == old(g.players) && g.state == old(g.state) && g.winner == old(g.winner) &&
                g.isDraw == old(g.isDraw) &&
                g.currentPlayerIndex == (if g.state == Playing then SkipIndex(g.players, old(g.currentPlayerIndex))
                                         else old(g.currentPlayerIndex))
      ensures s.summary == games[gid].Summary() && s.board == games[gid].board.Snapshot()
      ensures s.players == games[gid].players && s.winner == games[gid].winner
      ensures s.currentPlayerIndex == old(games[gid].currentPlayerIndex)
    {
      var game := games[gid];
      s := game.Snapshot();
      RoomKeepsRooms(gid);
      MoveKeepsMappings(gid);
    }

    /** The ids of the registered rooms in state `st`. */
    ghost function InState(st: GameState): set<GameId>
      reads this, games.Values
    {
      set g | g in games && games[g].state == st
    }

    /**
     * `list_available_games`: the summary of every WAITING room, each once. The
     * registry is walked in an unspecified order.
     */
    method ListAvailableGames() returns (rs: seq<GameSummary>)
      requires Keyed()
      ensures forall i | 0 <= i < |rs| ::
                rs[i].gameId in games && games[rs[i].gameId].state == Waiting && rs[i] == games[rs[i].gameId].Summary()
      ensures forall g | g in games && games[g].state == Waiting :: exists i :: 0 <= i < |rs| && rs[i].gameId == g
      ensures forall i, j | 0 <= i < j < |rs| :: rs[i].gameId != rs[j].gameId
    {
      rs := [];
      var rest := games.Keys;
      while rest != {}
        invariant rest <= games.Keys
        invariant forall i | 0 <= i < |rs| ::
                    rs[i].gameId in games && rs[i].gameId !in rest &&
                    games[rs[i].gameId].state == Waiting && rs[i] == games[rs[i].gameId].Summary()
        invariant forall g | g in games && g !in rest && games[g].state == Waiting ::
                    exists i :: 0 <= i < |rs| && rs[i].gameId == g
        invariant forall i, j | 0 <= i < j < |rs| :: rs[i].gameId != rs[j].gameId
        decreases rest
      {
        var g :| g in rest;
        var game := games[g];
        ghost var prev := rs;
        if game.state == Waiting {
          rs := rs + [game.Summary()];
        }
        forall h | h in games && h !in rest - {g} && games[h].state == Waiting
          ensures exists i :: 0 <= i < |rs| && rs[i].gameId == h
        {
          if h == g {
            assert rs[|rs| - 1].gameId == h;
          } else {
            var i :| 0 <= i < |prev| && prev[i].gameId == h;
            assert rs[i] == prev[i];
          }
        }
        rest := rest - {g};
      }
    }

    /**
     * `get_stats`: the registry's size, how many rooms are in each state, and how
     * many players are mapped; the three state counts add up to the registry's size.
     */
    method GetStats() returns (s: Stats)
      ensures s.totalGames == |games| && s.totalPlayers == |playerToGame|
      ensures s.waitingGames == |InState(Waiting)| && s.activeGames == |InState(Playing)| &&
              s.finishedGames == |InState(Finished)|
      ensures s.waitingGames + s.activeGames + s.finishedGames == s.totalGames
    {
      var states := map g | g in games :: games[g].state;
      var waiting, active, finished := CountStates(states);
      assert WithState(states, Waiting) == InState(Waiting);
      assert WithState(states, Playing) == InState(Playing);
      assert WithState(states, Finished) == InState(Finished);
      assert states.Keys == games.Keys;
      StatesPartition(states);
      s := Stats(|games|, waiting, active, finished, |playerToGame|);
    }
  }
}
