/**
 * A player of one room: identity, display name, board symbol and activity flag
 * (tictactoe_online/common/player.py).
 */
module Players {
  import opened Wrappers

  type PlayerId = string
  type Symbol = string

  /** The fixed, ordered symbol alphabet; a room's i-th joiner plays Symbols[i]. */
  const Symbols: seq<Symbol> := ["X", "O", "Δ", "□", "◇", "★", "♠", "♣", "♥", "♦"]

  /** Identity is `playerId`; the other fields are carried along. */
  datatype Player = Player(playerId: PlayerId, name: string, symbol: Symbol, isActive: bool)

  /** The constructor: every new player starts active. */
  function NewPlayer(playerId: PlayerId, name: string, symbol: Symbol): (p: Player)
    ensures p.isActive
    ensures p.playerId == playerId && p.name == name && p.symbol == symbol
  {
    Player(playerId, name, symbol, true)
  }

  /** `Player.__eq__`: two players are the same player when their ids agree. */
  predicate SamePlayer(a: Player, b: Player)
  {
    a.playerId == b.playerId
  }

  /** `player in players`: Python's list membership compares with `Player.__eq__`. */
  predicate Contains(ps: seq<Player>, p: Player)
  {
    exists q | q in ps :: SamePlayer(q, p)
  }

  /** There is one symbol per allowed roster slot, and no two slots share a symbol. */
  lemma SymbolsDistinct()
    ensures |Symbols| == 10
    ensures forall i, j :: 0 <= i < j < |Symbols| ==> Symbols[i] != Symbols[j]
  {
    forall i, j | 0 <= i < j < |Symbols|
      ensures Symbols[i] != Symbols[j]
    {
      assert Symbols[i][0] != Symbols[j][0];
    }
  }

  /** A JSON value of a player dictionary. */
  datatype Field = Text(text: string) | Flag(flag: bool)

  type PlayerDict = map<string, Field>

  /** `Player.to_dict`. */
  function ToDict(p: Player): (d: PlayerDict)
    ensures d.Keys == {"player_id", "name", "symbol", "is_active"}
  {
    map["player_id" := Text(p.playerId), "name" := Text(p.name),
        "symbol" := Text(p.symbol), "is_active" := Flag(p.isActive)]
  }

  /** A text entry of `d` under `key`, or None when it is missing (Python: KeyError). */
  function TextAt(d: PlayerDict, key: string): Option<string>
  {
    if key in d && d[key].Text? then Some(d[key].text) else None
  }

  /**
   * `Player.from_dict`: the three identity fields are required; `is_active`
   * defaults to true when absent.
   */
  function FromDict(d: PlayerDict): Option<Player>
  {
    match (TextAt(d, "player_id"), TextAt(d, "name"), TextAt(d, "symbol"))
    case (Some(id), Some(name), Some(symbol)) =>
      if "is_active" !in d then Some(NewPlayer(id, name, symbol))
      else if d["is_active"].Flag? then Some(NewPlayer(id, name, symbol).(isActive := d["is_active"].flag))
      else None
    case _ => None
  }

  /** Serialising and reading back reproduces the player, activity included. */
  lemma FromDictToDict(p: Player)
    ensures FromDict(ToDict(p)) == Some(p)
  {
  }

  /** A dictionary without `is_active` yields an active player. */
  lemma FromDictDefaultsActive(d: PlayerDict)
    requires "is_active" !in d
    requires TextAt(d, "player_id").Some? && TextAt(d, "name").Some? && TextAt(d, "symbol").Some?
    ensures FromDict(d).Some? && FromDict(d).value.isActive
    ensures FromDict(d).value.playerId == d["player_id"].text
  {
  }

  /** A dictionary missing a required key is refused. */
  lemma FromDictNeedsId(d: PlayerDict)
    requires "player_id" !in d
    ensures FromDict(d) == None
  {
  }
}
