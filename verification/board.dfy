/** The game board: an 8x8 grid of cell statuses, the tracked player
    position, mine placement at construction and single-step moves. */
module Boards {
  import opened Positions

  /** Contents of one cell. The grid stores the enum's integer value. */
  datatype CellStatus = Empty | HiddenMine | Mine | Player

  /** The integer a cell holds for a status; a fresh integer grid is all
      zeroes, which reads back as `Empty`. */
  function CellCode(s: CellStatus): (code: int)
    ensures 0 <= code <= 3
    ensures code == 0 <==> s == Empty
  {
    match s
    case Empty => 0
    case HiddenMine => 1
    case Mine => 2
    case Player => 3
  }

  function CellOfCode(code: int): (s: CellStatus)
    requires 0 <= code <= 3
    ensures CellCode(s) == code
  {
    if code == 0 then Empty
    else if code == 1 then HiddenMine
    else if code == 2 then Mine
    else Player
  }

  /** Width and height of the grid. */
  const Size: int := 8
  /** The player's fixed start cell: bottom row, first column. */
  const StartRow: int := 7
  const StartCol: int := 0
  /** Mine coordinates are drawn from [0, MineBound) on both axes. */
  const MineBound: int := 7

  /** Rows of cells, indexed `cells[x][y]`. */
  type Grid = seq<seq<CellStatus>>

  datatype Board = Board(cells: Grid, playerPosition: Position)

  predicate InGrid(x: int, y: int) {
    0 <= x < Size && 0 <= y < Size
  }

  predicate WellShaped(g: Grid) {
    |g| == Size && forall x :: 0 <= x < |g| ==> |g[x]| == Size
  }

  function At(g: Grid, x: int, y: int): CellStatus
    requires WellShaped(g) && InGrid(x, y)
  {
    g[x][y]
  }

  /** Invariant of every board the game can reach: 8x8 cells and a tracked
      position on the board. */
  predicate Valid(b: Board) {
    WellShaped(b.cells) && InGrid(b.playerPosition.x, b.playerPosition.y)
  }

  /** Exactly one cell holds the player, and it is the tracked position. */
  ghost predicate PlayerUnique(b: Board) {
    && Valid(b)
    && forall x, y :: InGrid(x, y) ==>
         (At(b.cells, x, y) == Player <==> x == b.playerPosition.x && y == b.playerPosition.y)
  }

  /** The coordinates of all cells holding `s`. */
  function CellsWith(g: Grid, s: CellStatus): set<(int, int)>
    requires WellShaped(g)
  {
    set x, y | 0 <= x < Size && 0 <= y < Size && At(g, x, y) == s :: (x, y)
  }

  /** Two well-shaped grids that agree on every cell are equal. */
  lemma GridExtensionality(g: Grid, h: Grid)
    requires WellShaped(g) && WellShaped(h)
    requires forall x, y :: InGrid(x, y) ==> At(g, x, y) == At(h, x, y)
    ensures g == h
  {
    forall x | 0 <= x < Size
      ensures g[x] == h[x]
    {
      assert |g[x]| == Size == |h[x]|;
      forall y | 0 <= y < Size ensures g[x][y] == h[x][y] {
        assert At(g, x, y) == At(h, x, y);
      }
    }
  }

  /** The freshly allocated integer grid: every cell is zero. */
  function EmptyGrid(): (g: Grid)
    ensures WellShaped(g)
    ensures forall x, y :: InGrid(x, y) ==> CellCode(At(g, x, y)) == 0
  {
    seq(Size, _ => seq(Size, _ => Empty))
  }

  /** Writes one cell. Out-of-grid coordinates throw in the source; every
      caller here passes in-grid ones. */
  function SetCell(b: Board, x: int, y: int, value: CellStatus): (r: Board)
    requires WellShaped(b.cells) && InGrid(x, y)
    ensures WellShaped(r.cells)
    ensures At(r.cells, x, y) == value
    ensures forall i, j :: InGrid(i, j) && (i != x || j != y) ==> At(r.cells, i, j) == At(b.cells, i, j)
    ensures r.playerPosition == b.playerPosition
  {
    b.(cells := b.cells[x := b.cells[x][y := value]])
  }

  /** Records a new tracked player position; the cells are untouched. */
  function SetCurrentPlayerPosition(b: Board, x: int, y: int): (r: Board)
    ensures r.cells == b.cells
    ensures r.playerPosition.x == x && r.playerPosition.y == y
  {
    b.(playerPosition := NewPosition(x, y))
  }

  /** Puts the player on the start cell and tracks it there. */
  function PlacePlayerStartPosition(b: Board): (r: Board)
    requires WellShaped(b.cells)
    ensures Valid(r)
    ensures At(r.cells, StartRow, StartCol) == Player
    ensures r.playerPosition == Position(StartRow, StartCol)
    ensures forall i, j :: InGrid(i, j) && (i != StartRow || j != StartCol) ==> At(r.cells, i, j) == At(b.cells, i, j)
  {
    SetCurrentPlayerPosition(SetCell(b, StartRow, StartCol, Player), StartRow, StartCol)
  }

  /** The mine count: the draw `Random.Next(1, 5)` returned, which excludes
      its upper bound. */
  function GenerateMines(draw: int): (mines: int)
    requires 1 <= draw < 5
    ensures 1 <= mines <= 4
  {
    draw
  }

  /** A pair of draws `Random.Next(0, 7)` for a mine's row and column. */
  predicate IsMineDraw(c: (int, int)) {
    0 <= c.0 < MineBound && 0 <= c.1 < MineBound
  }

  /** Writes a hidden mine at each drawn coordinate in turn, with no
      collision check: a repeated draw overwrites the same cell. */
  function PlaceMines(b: Board, draws: seq<(int, int)>): (r: Board)
    requires WellShaped(b.cells)
    requires forall i :: 0 <= i < |draws| ==> IsMineDraw(draws[i])
    ensures WellShaped(r.cells)
    ensures r.playerPosition == b.playerPosition
    ensures forall x, y :: InGrid(x, y) ==>
              At(r.cells, x, y) == (if (x, y) in draws then HiddenMine else At(b.cells, x, y))
    decreases |draws|
  {
    if |draws| == 0 then b
    else
      assert IsMineDraw(draws[0]);
      var rest := PlaceMines(SetCell(b, draws[0].0, draws[0].1, HiddenMine), draws[1..]);
      assert forall c :: c in draws <==> c == draws[0] || c in draws[1..];
      rest
  }

  /** The constructor: an all-empty grid, `GenerateMines(mineDraw)` hidden
      mines at the coordinate draws, then the player on the start cell.
      The tracked position is unset until the player is placed; the model
      seeds it with the start cell, which nothing reads before then. */
  function NewBoard(mineDraw: int, draws: seq<(int, int)>): (b: Board)
    requires 1 <= mineDraw < 5
    requires |draws| == GenerateMines(mineDraw)
    requires forall i :: 0 <= i < |draws| ==> IsMineDraw(draws[i])
    ensures PlayerUnique(b)
    ensures b.playerPosition == Position(StartRow, StartCol)
    ensures forall x, y :: InGrid(x, y) ==>
              At(b.cells, x, y) == (if x == StartRow && y == StartCol then Player
                                    else if (x, y) in draws then HiddenMine
                                    else Empty)
  {
    var blank := Board(EmptyGrid(), Position(StartRow, StartCol));
    assert forall x, y :: InGrid(x, y) ==> At(blank.cells, x, y) == Empty by {
      forall x, y | InGrid(x, y) ensures At(blank.cells, x, y) == Empty {
        assert CellCode(At(blank.cells, x, y)) == 0;
      }
    }
    var mined := PlaceMines(blank, draws);
    assert forall i :: 0 <= i < |draws| ==> draws[i] != (StartRow, StartCol);
    PlacePlayerStartPosition(mined)
  }

  /** The distinct coordinates among `draws` are no more than the draws. */
  lemma {:induction false} DistinctDrawsAtMost(draws: seq<(int, int)>)
    ensures |(set c | c in draws)| <= |draws|
  {
    if |draws| > 0 {
      DistinctDrawsAtMost(draws[1..]);
      assert (set c | c in draws) == (set c | c in draws[1..]) + {draws[0]};
    }
  }

  /** A new board holds between one and the drawn number of hidden mines
      (fewer when draws collide), none in the last row or column; so the
      top-right cell, for one, is always empty. */
  lemma NewBoardMines(mineDraw: int, draws: seq<(int, int)>)
    requires 1 <= mineDraw < 5
    requires |draws| == GenerateMines(mineDraw)
    requires forall i :: 0 <= i < |draws| ==> IsMineDraw(draws[i])
    ensures CellsWith(NewBoard(mineDraw, draws).cells, HiddenMine) == (set c | c in draws)
    ensures 1 <= |CellsWith(NewBoard(mineDraw, draws).cells, HiddenMine)| <= GenerateMines(mineDraw)
    ensures forall x, y :: InGrid(x, y) && At(NewBoard(mineDraw, draws).cells, x, y) == HiddenMine ==>
              x < Size - 1 && y < Size - 1
    ensures At(NewBoard(mineDraw, draws).cells, 0, Size - 1) == Empty
  {
    var b := NewBoard(mineDraw, draws);
    var mines := CellsWith(b.cells, HiddenMine);
    forall c | c in draws ensures c in mines {
      assert IsMineDraw(c);
      assert At(b.cells, c.0, c.1) == HiddenMine;
    }
    assert draws[0] in mines;
    DistinctDrawsAtMost(draws);
  }

  /** What a move leaves behind: the new board, or, when the step leaves
      the grid, the board as it was when the write of the target cell threw
      an index-out-of-range exception. */
  datatype MoveOutcome = Done(board: Board) | IndexOutOfRange(board: Board)

  /** One player step. The old cell is emptied first; then the neighbour
      is written and tracked, with no bounds check and no mine handling.
      An `Invalid` direction matches no case and changes nothing. */
  function MovePlayer(b: Board, d: Direction): (r: MoveOutcome)
    requires Valid(b)
    ensures WellShaped(r.board.cells)
    ensures d == Invalid ==> r == Done(b)
    ensures d != Invalid ==>
              var p, t := b.playerPosition, Neighbour(b.playerPosition, d);
              && At(r.board.cells, p.x, p.y) == Empty
              && (r.Done? <==> InGrid(t.x, t.y))
              && (r.Done? ==> At(r.board.cells, t.x, t.y) == Player && r.board.playerPosition == t)
              && (r.IndexOutOfRange? ==> r.board.playerPosition == p)
              && forall x, y :: InGrid(x, y) && (x, y) != (p.x, p.y) && (x, y) != (t.x, t.y) ==>
                   At(r.board.cells, x, y) == At(b.cells, x, y)
  {
    if d == Invalid then Done(b)
    else
      var p := b.playerPosition;
      var vacated := SetCell(b, p.x, p.y, Empty);
      var t := Neighbour(p, d);
      if !InGrid(t.x, t.y) then IndexOutOfRange(vacated)
      else Done(SetCurrentPlayerPosition(SetCell(vacated, t.x, t.y, Player), t.x, t.y))
  }

  /** A completed move keeps exactly one player cell, at the tracked
      position. */
  lemma MovePreservesPlayerUnique(b: Board, d: Direction)
    requires PlayerUnique(b)
    requires MovePlayer(b, d).Done?
    ensures PlayerUnique(MovePlayer(b, d).board)
  {
  }

  /** A step off the edge throws after the old cell was emptied, so the
      board it leaves behind has no player cell at all. */
  lemma MoveOffEdgeLosesPlayer(b: Board, d: Direction)
    requires PlayerUnique(b)
    requires MovePlayer(b, d).IndexOutOfRange?
    ensures forall x, y :: InGrid(x, y) ==> At(MovePlayer(b, d).board.cells, x, y) != Player
  {
  }

  /** From the start cell, Down and Left leave the grid. */
  lemma StartCellEdges(mineDraw: int, draws: seq<(int, int)>)
    requires 1 <= mineDraw < 5
    requires |draws| == GenerateMines(mineDraw)
    requires forall i :: 0 <= i < |draws| ==> IsMineDraw(draws[i])
    ensures MovePlayer(NewBoard(mineDraw, draws), Down).IndexOutOfRange?
    ensures MovePlayer(NewBoard(mineDraw, draws), Left).IndexOutOfRange?
    ensures MovePlayer(NewBoard(mineDraw, draws), Up).Done?
    ensures MovePlayer(NewBoard(mineDraw, draws), Right).Done?
  {
  }

  /** A move never adds a hidden mine: it only erases the one it steps
      onto (and the vacated cell, which holds no mine on a board with a
      unique player). */
  lemma MoveRemovesOnlyTargetMine(b: Board, d: Direction)
    requires Valid(b)
    requires d != Invalid
    ensures var r, p, t := MovePlayer(b, d), b.playerPosition, Neighbour(b.playerPosition, d);
            CellsWith(r.board.cells, HiddenMine) ==
              CellsWith(b.cells, HiddenMine) - {(p.x, p.y)} - (if r.Done? then {(t.x, t.y)} else {})
    ensures |CellsWith(MovePlayer(b, d).board.cells, HiddenMine)| <= |CellsWith(b.cells, HiddenMine)|
  {
  }

  /** Stepping onto a hidden mine silently removes it: one fewer remains. */
  lemma StepOntoMineRemovesIt(b: Board, d: Direction)
    requires PlayerUnique(b)
    requires MovePlayer(b, d).Done? && d != Invalid
    requires var t := Neighbour(b.playerPosition, d); At(b.cells, t.x, t.y) == HiddenMine
    ensures |CellsWith(MovePlayer(b, d).board.cells, HiddenMine)| == |CellsWith(b.cells, HiddenMine)| - 1
  {
    var p, t := b.playerPosition, Neighbour(b.playerPosition, d);
    MoveRemovesOnlyTargetMine(b, d);
    assert (p.x, p.y) !in CellsWith(b.cells, HiddenMine);
    assert (t.x, t.y) in CellsWith(b.cells, HiddenMine);
    assert CellsWith(b.cells, HiddenMine) - {(p.x, p.y)} == CellsWith(b.cells, HiddenMine);
  }

  /** Onto an empty cell and back again restores the board exactly. */
  lemma MoveThereAndBack(b: Board, d: Direction)
    requires PlayerUnique(b)
    requires d != Invalid
    requires var t := Neighbour(b.playerPosition, d); InGrid(t.x, t.y) && At(b.cells, t.x, t.y) == Empty
    ensures MovePlayer(b, d).Done?
    ensures MovePlayer(MovePlayer(b, d).board, Opposite(d)) == Done(b)
  {
    var p, t := b.playerPosition, Neighbour(b.playerPosition, d);
    NeighbourOpposite(p, d);
    var there := MovePlayer(b, d).board;
    var back := MovePlayer(there, Opposite(d));
    assert back.Done?;
    forall x, y | InGrid(x, y) ensures At(back.board.cells, x, y) == At(b.cells, x, y) {
    }
    GridExtensionality(back.board.cells, b.cells);
  }
}
