/**
 * The square board of one room (tictactoe_online/common/board.py): a grid of
 * optional symbols of side `numPlayers + 1`, a move counter, and the anchored
 * four-direction winner scan.
 */
module Boards {
  import opened Wrappers
  import opened Players

  const MinPlayers: int := 2
  const MaxPlayers: int := 10

  /** A line direction as a (row step, column step) pair. */
  datatype Direction = Direction(dr: int, dc: int)

  /** Horizontal, vertical, diagonal, anti-diagonal, in the order the scan tries them. */
  const Directions: seq<Direction> := [Direction(0, 1), Direction(1, 0), Direction(1, 1), Direction(1, -1)]

  /** A step to one of the eight neighbouring cells. */
  predicate IsStep(dr: int, dc: int)
  {
    -1 <= dr <= 1 && -1 <= dc <= 1 && (dr != 0 || dc != 0)
  }

  /** The cells of an h-by-w rectangle anchored at (0, 0). */
  ghost function Rect(h: int, w: int): set<(int, int)>
  {
    set r, c | 0 <= r < h && 0 <= c < w :: (r, c)
  }

  ghost function RowCells(r: int, w: int): set<(int, int)>
  {
    set c | 0 <= c < w :: (r, c)
  }

  lemma {:induction false} RowCellsCount(r: int, w: nat)
    ensures |RowCells(r, w)| == w
  {
    if w > 0 {
      RowCellsCount(r, w - 1);
      assert RowCells(r, w) == RowCells(r, w - 1) + {(r, w - 1)};
    } else {
      assert RowCells(r, w) == {};
    }
  }

  /** An h-by-w board has h * w cells. */
  lemma {:induction false} RectCount(h: nat, w: nat)
    ensures |Rect(h, w)| == h * w
  {
    if h > 0 {
      RectCount(h - 1, w);
      RowCellsCount(h - 1, w);
      var top, last := Rect(h - 1, w), RowCells(h - 1, w);
      assert Rect(h, w) == top + last;
      assert top * last == {};
      assert |top + last| == |top| + |last|;
      assert (h - 1) * w + w == h * w;
    } else {
      assert Rect(h, w) == {};
    }
  }

  /** A subset is no larger than its superset, and strictly smaller when proper. */
  lemma SubsetCard<T>(a: set<T>, b: set<T>)
    requires a <= b
    ensures |a| <= |b|
    ensures a != b ==> |a| < |b|
  {
    var rest := b - a;
    assert b == a + rest;
    assert a * rest == {};
    assert |b| == |a| + |rest|;
    if a != b {
      var x :| x in b && x !in a;
      assert x in rest;
    }
  }

  /** The board part of a room's GAME_STATE snapshot (`Board.to_dict`). */
  datatype BoardSnapshot = BoardSnapshot(
    numPlayers: int, size: int, winLength: int,
    grid: seq<seq<Option<Symbol>>>, moveCount: int)

  class Board {
    const numPlayers: int
    const size: int
    const winLength: int
    const grid: array2<Option<Symbol>>
    var moveCount: int

    predicate InBounds(r: int, c: int)
    {
      0 <= r < size && 0 <= c < size
    }

    ghost predicate Shaped()
      reads this
    {
      grid.Length0 == size && grid.Length1 == size
    }

    /** The occupied cells. */
    ghost function Occupied(): set<(int, int)>
      reads this, grid
      requires Shaped()
    {
      set r, c | 0 <= r < size && 0 <= c < size && grid[r, c].Some? :: (r, c)
    }

    /** Class invariant: the shape fixed by the constructor, and `moveCount` counts the occupied cells. */
    ghost predicate Valid()
      reads this, grid
    {
      && MinPlayers <= numPlayers <= MaxPlayers
      && size == numPlayers + 1
      && winLength == size
      && Shaped()
      && moveCount == |Occupied()|
    }

    /** `Board.__init__` for an admissible player count. */
    constructor (numPlayers: int)
      requires MinPlayers <= numPlayers <= MaxPlayers
      ensures Valid() && fresh(grid)
      ensures this.numPlayers == numPlayers && size == numPlayers + 1 && winLength == numPlayers + 1
      ensures moveCount == 0
      ensures forall r, c | 0 <= r < size && 0 <= c < size :: grid[r, c].None?
    {
      this.numPlayers := numPlayers;
      size := numPlayers + 1;
      winLength := numPlayers + 1;
      grid := new Option<Symbol>[numPlayers + 1, numPlayers + 1]((r, c) => None);
      moveCount := 0;
      new;
      assert Occupied() == {};
    }

    /** `Board(num_players)`, including the ValueError for a count outside [2, 10]. */
    static method Create(numPlayers: int) returns (r: Result<Board>)
      ensures r.Err? <==> !(MinPlayers <= numPlayers <= MaxPlayers)
      ensures r.Err? ==> r.error == "Number of players must be between 2 and 10"
      ensures r.Ok? ==> fresh(r.value) && fresh(r.value.grid) && r.value.Valid()
      ensures r.Ok? ==> r.value.numPlayers == numPlayers && r.value.size == numPlayers + 1
      ensures r.Ok? ==> r.value.winLength == numPlayers + 1 && r.value.moveCount == 0
      ensures r.Ok? ==> forall i, j | 0 <= i < r.value.size && 0 <= j < r.value.size :: r.value.grid[i, j].None?
    {
      if numPlayers < MinPlayers || numPlayers > MaxPlayers {
        return Err("Number of players must be between 2 and 10");
      }
      var b := new Board(numPlayers);
      return Ok(b);
    }

    /** `is_valid_move`: inside the board and on an empty cell. */
    predicate IsValidMove(row: int, col: int)
      reads this, grid
      requires Shaped()
    {
      InBounds(row, col) && grid[row, col].None?
    }

    /** `is_full`: the counter has reached the number of cells. */
    predicate IsFull()
      reads this
    {
      moveCount >= size * size
    }

    /**
     * What writing `symbol` at (row, col) leaves behind: the symbol in that cell,
     * every other cell as it was, and one more move counted.
     */
    twostate predicate Placed(symbol: Symbol, row: int, col: int)
      reads this, grid
    {
      && Shaped()
      && InBounds(row, col)
      && grid[row, col] == Some(symbol)
      && moveCount == old(moveCount) + 1
      && (forall r, c | InBounds(r, c) && (r, c) != (row, col) :: grid[r, c] == old(grid[r, c]))
    }

    /** `make_move`: writes one empty cell, or refuses and changes nothing. */
    method MakeMove(row: int, col: int, symbol: Symbol) returns (ok: bool)
      requires Valid()
      modifies this, grid
      ensures Valid()
      ensures ok == old(IsValidMove(row, col))
      ensures ok ==> Placed(symbol, row, col)
      ensures !ok ==> unchanged(this, grid)
    {
      if !IsValidMove(row, col) {
        return false;
      }
      ghost var before := Occupied();
      grid[row, col] := Some(symbol);
      moveCount := moveCount + 1;
      assert Occupied() == before + {(row, col)};
      return true;
    }

    /** The board can never hold more moves than it has cells. */
    lemma MoveCountBounded()
      requires Valid()
      ensures 0 <= moveCount <= size * size
    {
      assert Occupied() <= Rect(size, size);
      SubsetCard(Occupied(), Rect(size, size));
      RectCount(size, size);
    }

    /** `is_full` holds exactly when no cell is left empty, i.e. when no move is valid. */
    lemma FullIffNoValidMove()
      requires Valid()
      ensures IsFull() <==> forall r, c :: !IsValidMove(r, c)
    {
      RectCount(size, size);
      assert Occupied() <= Rect(size, size);
      SubsetCard(Occupied(), Rect(size, size));
      if IsFull() {
        forall r, c | InBounds(r, c) ensures grid[r, c].Some? {
          assert (r, c) in Rect(size, size);
        }
      }
      if forall r, c :: !IsValidMove(r, c) {
        assert Rect(size, size) <= Occupied() by {
          forall cell | cell in Rect(size, size) ensures cell in Occupied() {
            assert !IsValidMove(cell.0, cell.1);
          }
        }
        SubsetCard(Rect(size, size), Occupied());
      }
    }

    /** The cell (r, c) is on the board and holds s. */
    ghost predicate CellIs(r: int, c: int, s: Symbol)
      reads this, grid
      requires Shaped()
    {
      InBounds(r, c) && grid[r, c] == Some(s)
    }

    /** Steps left from (r, c) by (dr, dc) before leaving the board (a termination measure). */
    function Steps(r: int, c: int, dr: int, dc: int): int
    {
      if dr == 1 then size - r
      else if dr == -1 then r + 1
      else if dc == 1 then size - c
      else c + 1
    }

    /** Number of consecutive cells holding s from (r, c) onwards, stepping by (dr, dc). */
    ghost function Reach(r: int, c: int, dr: int, dc: int, s: Symbol): nat
      reads this, grid
      requires Shaped() && IsStep(dr, dc)
      decreases Steps(r, c, dr, dc)
    {
      if CellIs(r, c, s) then 1 + Reach(r + dr, c + dc, dr, dc, s) else 0
    }

    /**
     * Length of the same-symbol run through (row, col) along d, the anchor
     * included: what one direction of `check_winner` counts.
     */
    ghost function RunLength(row: int, col: int, d: Direction, s: Symbol): nat
      reads this, grid
      requires Shaped() && IsStep(d.dr, d.dc)
    {
      1 + Reach(row + d.dr, col + d.dc, d.dr, d.dc, s) + Reach(row - d.dr, col - d.dc, -d.dr, -d.dc, s)
    }

    /** Some direction's run through (row, col) is at least `winLength` long. */
    ghost predicate WinsAt(row: int, col: int, s: Symbol)
      reads this, grid
      requires Shaped()
    {
      exists j :: 0 <= j < |Directions| && RunLength(row, col, Directions[j], s) >= winLength
    }

    /**
     * One counting loop of `check_winner`: walks from (r0, c0) by (dr, dc) while
     * the cell holds `symbol`. The source's second loop is this one stepping by
     * (-dr, -dc).
     */
    method CountRay(r0: int, c0: int, dr: int, dc: int, symbol: Symbol) returns (n: nat)
      requires Shaped() && IsStep(dr, dc)
      ensures n == Reach(r0, c0, dr, dc, symbol)
    {
      n := 0;
      var r, c := r0, c0;
      while InBounds(r, c) && grid[r, c] == Some(symbol)
        invariant n + Reach(r, c, dr, dc, symbol) == Reach(r0, c0, dr, dc, symbol)
        decreases Steps(r, c, dr, dc)
      {
        n := n + 1;
        r, c := r + dr, c + dc;
      }
    }

    /** `check_winner`: the anchored bidirectional scan in the four directions. */
    method CheckWinner(row: int, col: int) returns (w: Option<Symbol>)
      requires Shaped() && InBounds(row, col)
      ensures grid[row, col].None? ==> w.None?
      ensures grid[row, col].Some? ==> (w.Some? <==> WinsAt(row, col, grid[row, col].value))
      ensures w.Some? ==> w == grid[row, col]
    {
      var symbol := grid[row, col];
      if symbol.None? {
        return None;
      }
      var s := symbol.value;
      DirectionsAreUnit();
      var i := 0;
      while i < |Directions|
        invariant 0 <= i <= |Directions|
        invariant forall j :: 0 <= j < i ==> RunLength(row, col, Directions[j], s) < winLength
      {
        var count := CountLine(row, col, Directions[i], s);
        if count >= winLength {
          return symbol;
        }
        i := i + 1;
      }
      return None;
    }

    /** One direction of `check_winner`: the anchor plus both counting loops. */
    method CountLine(row: int, col: int, d: Direction, s: Symbol) returns (count: nat)
      requires Shaped() && IsStep(d.dr, d.dc)
      ensures count == RunLength(row, col, d, s)
    {
      count := 1;
      var forward := CountRay(row + d.dr, col + d.dc, d.dr, d.dc, s);
      var backward := CountRay(row - d.dr, col - d.dc, -d.dr, -d.dc, s);
      count := count + forward + backward;
    }

    /** The m cells from (r, c) onwards, stepping by (dr, dc), all hold s. */
    ghost predicate RunFrom(r: int, c: int, dr: int, dc: int, s: Symbol, m: nat)
      reads this, grid
      requires Shaped()
      decreases m
    {
      m == 0 || (CellIs(r, c, s) && RunFrom(r + dr, c + dc, dr, dc, s, m - 1))
    }

    /** The cells counted by `Reach` do form a run. */
    lemma {:induction false} ReachIsRun(r: int, c: int, dr: int, dc: int, s: Symbol)
      requires Shaped() && IsStep(dr, dc)
      ensures RunFrom(r, c, dr, dc, s, Reach(r, c, dr, dc, s))
      decreases Steps(r, c, dr, dc)
    {
      if CellIs(r, c, s) {
        ReachIsRun(r + dr, c + dc, dr, dc, s);
      }
    }

    /** `Reach` is at least the length of any run starting at (r, c): it is the longest one. */
    lemma {:induction false} ReachIsLongest(r: int, c: int, dr: int, dc: int, s: Symbol, m: nat)
      requires Shaped() && IsStep(dr, dc) && RunFrom(r, c, dr, dc, s, m)
      ensures Reach(r, c, dr, dc, s) >= m
      decreases m
    {
      if m > 0 {
        ReachIsLongest(r + dr, c + dc, dr, dc, s, m - 1);
      }
    }

    /**
     * A winning line through (row, col) along d: `b + 1` cells forward from the
     * anchor and `a + 1` cells backward (the anchor counted in both) hold s, and
     * together they number at least `winLength`.
     */
    ghost predicate LineThrough(row: int, col: int, d: Direction, s: Symbol, a: nat, b: nat)
      reads this, grid
      requires Shaped()
    {
      && a + b + 1 >= winLength
      && RunFrom(row, col, d.dr, d.dc, s, b + 1)
      && RunFrom(row, col, -d.dr, -d.dc, s, a + 1)
    }

    /** Some winning line through (row, col) exists, in one of the four directions. */
    ghost predicate HasLineThrough(row: int, col: int, s: Symbol)
      reads this, grid
      requires Shaped()
    {
      exists j, a: nat, b: nat :: 0 <= j < |Directions| && LineThrough(row, col, Directions[j], s, a, b)
    }

    lemma DirectionsAreUnit()
      ensures forall j :: 0 <= j < |Directions| ==> IsStep(Directions[j].dr, Directions[j].dc)
    {
    }

    /** A long enough run found by the scan is a winning line. */
    lemma RunGivesLine(row: int, col: int, d: Direction, s: Symbol)
      requires Shaped() && IsStep(d.dr, d.dc) && CellIs(row, col, s)
      requires RunLength(row, col, d, s) >= winLength
      ensures LineThrough(row, col, d, s,
                          Reach(row - d.dr, col - d.dc, -d.dr, -d.dc, s),
                          Reach(row + d.dr, col + d.dc, d.dr, d.dc, s))
    {
      ReachIsRun(row, col, d.dr, d.dc, s);
      ReachIsRun(row, col, -d.dr, -d.dc, s);
    }

    /** Any winning line through (row, col) along d is covered by the scan's run along d. */
    lemma LineGivesRun(row: int, col: int, d: Direction, s: Symbol, a: nat, b: nat)
      requires Shaped() && IsStep(d.dr, d.dc) && LineThrough(row, col, d, s, a, b)
      ensures RunLength(row, col, d, s) >= winLength
    {
      ReachIsLongest(row + d.dr, col + d.dc, d.dr, d.dc, s, b);
      ReachIsLongest(row - d.dr, col - d.dc, -d.dr, -d.dc, s, a);
    }

    /** The scan's verdict agrees with the plain definition of a winning line through the anchor. */
    lemma WinsAtIffLine(row: int, col: int, s: Symbol)
      requires Valid() && CellIs(row, col, s)
      ensures WinsAt(row, col, s) <==> HasLineThrough(row, col, s)
    {
      DirectionsAreUnit();
      if WinsAt(row, col, s) {
        var j :| 0 <= j < |Directions| && RunLength(row, col, Directions[j], s) >= winLength;
        RunGivesLine(row, col, Directions[j], s);
      }
      if HasLineThrough(row, col, s) {
        var j, a: nat, b: nat :| 0 <= j < |Directions| && LineThrough(row, col, Directions[j], s, a, b);
        LineGivesRun(row, col, Directions[j], s, a, b);
      }
    }

    /** `get_state`: a copy of the grid, row by row. */
    function Cells(): (g: seq<seq<Option<Symbol>>>)
      reads this, grid
      requires Valid()
      ensures |g| == size
      ensures forall r | 0 <= r < size :: |g[r]| == size
      ensures forall r, c | 0 <= r < size && 0 <= c < size :: g[r][c] == grid[r, c]
    {
      seq(size, r requires 0 <= r < size reads this, grid =>
        seq(size, c requires 0 <= c < size reads this, grid => grid[r, c]))
    }

    /**
     * `to_dict`: the player count, a side and win length one larger, a copy of
     * the grid, and a move count equal to the number of occupied cells, at most
     * the number of cells.
     */
    function Snapshot(): (b: BoardSnapshot)
      reads this, grid
      requires Valid()
      ensures b.numPlayers == numPlayers && b.size == b.winLength == numPlayers + 1
      ensures |b.grid| == size && forall r | 0 <= r < size :: |b.grid[r]| == size
      ensures forall r, c | 0 <= r < size && 0 <= c < size :: b.grid[r][c] == grid[r, c]
      ensures b.moveCount == |Occupied()| && 0 <= b.moveCount <= size * size
    {
      MoveCountBounded();
      BoardSnapshot(numPlayers, size, winLength, Cells(), moveCount)
    }
  }
}
