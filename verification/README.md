# Shuffle board engine in Dafny

Shuffle is a single-player console game on an 8x8 board. The player starts
in the bottom-left cell. Hidden mines are scattered over the board, and the
player moves one cell at a time. This project models the game-state engine
as immutable values and pure functions:

- `Positions` (`positions.dfy`): the `Direction` enum with its integer
  codes, the `Position(row, col)` record and one-step neighbours.
- `Boards` (`board.dfy`): the `CellStatus` enum, and the board as an 8x8
  grid plus the tracked player position. It covers construction (mine count,
  mine placement, start cell), `SetCell`, `SetCurrentPlayerPosition` and
  `MovePlayer`.
- `Players` (`player.dfy`): the lives counter (32-bit, default 2) and the
  name (nullable, defaulting to "Player One"), with `SetLives`,
  `SetPlayerName`, `IsPlayerAlive` and `LoseLife`.
- `UserInterface` (`user_interface.dfy`): `ValidateMove`, which maps a move
  token to a direction code.

The model follows `Board.cs` as written, not the later revision its tests
exercise:

- There are four cell statuses, not five.
- There is no bounds check, and moves do not handle mines.
- Mines are placed without a collision check.
- Mine coordinates are drawn in 0..6.

`Board.cs` has no bounds check (the TODO at `Shuffle3/Model/Board.cs:175`). A move off the
edge first empties the player's cell. Then the write of the target cell
throws an index-out-of-range exception. `MovePlayer` models this with the
outcome `IndexOutOfRange(board)`, which carries the partly updated board.
`MoveOffEdgeLosesPlayer` proves that this board has no player cell.

`System.Random` is replaced by explicit inputs:

- The mine-count draw, in [1, 5).
- One (row, column) pair of draws per mine, each value in [0, 7).

Both ranges are what `Random.Next` guarantees for the bounds the source
passes.

## Model

| member | source | states |
|---|---|---|
| Positions.Ordinal | Shuffle3/Model/Position.cs:3-10 | Direction codes lie in 0..4, and code 4 belongs exactly to Invalid |
| Positions.DirectionOf | Shuffle3/Model/Position.cs:3-10 | Each code 0..4 names a direction whose code it is, so the codes the turn loop switches on are all taken |
| Positions.DirectionOfOrdinal | Shuffle3/Model/Position.cs:3-10 | Decoding a direction's code gives the direction back, so the five codes are distinct |
| Positions.NewPosition | Shuffle3/Model/Position.cs:17-21 | The constructor stores the row in X and the column in Y |
| Positions.NewPositionAcceptsAnyCoordinates | Shuffle3/Model/Position.cs:12-22 | Every integer pair, on the board or not, is a constructible position: there is no range check |
| Boards.CellCode | Shuffle3/Model/Board.cs:9-15 | Cell codes lie in 0..3, and 0 (the value of a fresh integer array) is exactly Empty |
| Boards.CellOfCode | Shuffle3/Model/Board.cs:9-15 | Every stored code 0..3 decodes to the status that encodes it |
| Boards.EmptyGrid | Shuffle3/Model/Board.cs:53-55 | The allocated grid has 8 rows of 8 cells, all holding code 0 |
| Boards.SetCell | Shuffle3/Model/Board.cs:139-142 | Cell (x, y) becomes the given status; the grid stays 8x8; every other cell and the player position are unchanged |
| Boards.SetCurrentPlayerPosition | Shuffle3/Model/Board.cs:166-170 | The tracked position becomes (x, y) and no cell changes |
| Boards.PlacePlayerStartPosition | Shuffle3/Model/Board.cs:144-148 | Cell (7,0) holds Player and is tracked; every other cell is unchanged |
| Boards.GenerateMines | Shuffle3/Model/Board.cs:150-154 | The mine count drawn by `Next(1, 5)` lies in 1..4 |
| Boards.PlaceMines | Shuffle3/Model/Board.cs:156-164 | After placement a cell is HiddenMine if its coordinates were drawn, and keeps its old status otherwise; repeated draws hit the same cell |
| Boards.NewBoard | Shuffle3/Model/Board.cs:51-60 | A new board is 8x8 with exactly one Player cell, at (7,0), which is also the tracked position; drawn cells are HiddenMine, all others Empty |
| Boards.NewBoardMines | Shuffle3/Model/Board.cs:150-164 | The hidden mines are exactly the distinct drawn coordinates, between 1 and the drawn count of them, none in row 7 or column 7; so cell (0,7) is always Empty |
| Boards.MovePlayer | Shuffle3/Model/Board.cs:172-198 | Invalid changes nothing. Any other direction empties the old cell. An in-grid neighbour (X-1,Y), (X+1,Y), (X,Y-1) or (X,Y+1) becomes Player and is tracked. An off-grid one ends in IndexOutOfRange with the position unchanged. No other cell changes |
| Boards.MovePreservesPlayerUnique | Shuffle3/Model/Board.cs:178-195 | A completed move keeps exactly one Player cell, at the tracked position |
| Boards.MoveOffEdgeLosesPlayer | Shuffle3/Model/Board.cs:175-195 | A move off the edge leaves a board with no Player cell, because the old cell is emptied before the failing write |
| Boards.StartCellEdges | Shuffle3/Model/Board.cs:172-198 | From the start cell (7,0), Down and Left leave the grid, while Up and Right complete |
| Boards.MoveRemovesOnlyTargetMine | Shuffle3/Model/Board.cs:178-195 | The HiddenMine cells after a move are those before it minus the vacated cell and the entered cell, so their number never grows |
| Boards.StepOntoMineRemovesIt | Shuffle3/Model/Board.cs:178-195 | Stepping onto a hidden mine silently erases it: one fewer HiddenMine cell remains |
| Boards.MoveThereAndBack | Shuffle3/Model/Board.cs:172-198 | A move onto an Empty cell, followed by the opposite move, restores the original board |
| Players.NewPlayer | Shuffle3/Model/Player.cs:9-10 | A new player has 2 lives and a null name |
| Players.SetLives | Shuffle3/Model/Player.cs:20-23 | Lives become exactly the argument (2 when it is omitted); the name is unchanged |
| Players.AllWhiteSpace | Shuffle3/Model/Player.cs:27 | The scan is true exactly when every character is a .NET white-space character (an empty string included) |
| Players.SetPlayerName | Shuffle3/Model/Player.cs:25-28 | A null, empty or white-space-only name is replaced by "Player One", and any other name is kept verbatim. The stored name is never blank, and lives are unchanged |
| Players.SetPlayerNameIdempotent | Shuffle3/Model/Player.cs:25-28 | Naming the player again with its current name changes nothing |
| Players.IsPlayerAlive | Shuffle3/Model/Player.cs:34-37 | The player is alive exactly when lives > 0 |
| Players.LoseLife | Shuffle3/Model/Player.cs:42-45 | Lives drop by exactly one with no floor, wrapping to the 32-bit maximum only from the minimum; the name is unchanged |
| Players.LoseLivesSubtracts | Shuffle3/Model/Player.cs:42-45 | Short of wrap-around, k successive losses take exactly k lives and keep the name |
| Players.AliveAfterLosses | Shuffle3/Model/Player.cs:20-45 | Short of wrap-around (n - k >= -2^31), after `SetLives(n)` and k losses the player is alive if and only if n > k |
| Players.DefaultLivesLastTwoHits | Shuffle3/Model/Player.cs:20-45 | With the default lives the player is alive after one loss and dead after two |
| Players.LoseLifeWrapsAtMinimum | Shuffle3/Model/Player.cs:42-45 | Unchecked decrement of the 32-bit minimum turns a dead player alive |
| UserInterface.ToUpper | Shuffle3/Model/UserInterface.cs:49 | Upper-casing keeps the length and maps each character on its own |
| UserInterface.ToUpperIdempotent | Shuffle3/Model/UserInterface.cs:49 | Upper-casing an upper-cased string changes nothing |
| UserInterface.ValidateMove | Shuffle3/Model/UserInterface.cs:47-63 | "U"/"u" gives 0, "D"/"d" gives 1, "L"/"l" gives 2 and "R"/"r" gives 3. The result is always in 0..4, and it is Invalid (4) exactly when the token is not one of those eight one-character strings |
| UserInterface.ValidateMoveIgnoresCase | Shuffle3/Model/UserInterface.cs:49 | Validating the upper-cased token gives the same code as validating the token itself |
| UserInterface.ValidateMoveExamples | Shuffle3/Model/UserInterface.cs:47-63 | Sample tokens: "U", "d", "L" and "r" decode to their directions; the tests' "A", and "", "UP" and " U", are Invalid |

## Left out

- Console rendering (`DrawBoard`, `FormatCell`, `GetLetterFromX`, the cell format table): output only.
- NLog logging in every class: side effects only.
- `System.Random`: replaced by explicit draws, constrained to the ranges `Random.Next` guarantees.
- The turn loop, game factory and program start-up (`GameProcessor`, `GameFactory`, `Program`): interactive console loops. In `Shuffle3/Logic/GameProcessor.cs` (lines 115-116), mine detection and life loss are TODOs.
- The console I/O members of `UserInterface` (`GetUserInput`, `RenderMessage`, `NewLine`, `ClearScreen`, `AskForMove`): console I/O.
- The board and player factories and the `I*` interfaces: they hold no logic.
- The board API used by `Shuffle3.Tests/BoardTest.cs:268-408`: `Explode`, `ClearCell`, `MoveToCell`, `IsCellMined`, `IsCellInTopRow`, `GetCellStatus`, the `PlayerIsHit` status and move messages. None of it exists in the `Board.cs` modelled here. `Utility` is not part of this model.
- The `Mine` status: it is declared, but the modelled code never writes it.
- Boards.SetCell: requires in-grid coordinates, where the source would throw. Its only caller that can go off the grid is `MovePlayer`, which checks first and returns `IndexOutOfRange`.
- UserInterface.ToUpper: maps ASCII letters only, where the source's mapping depends on the culture. No other character upper-cases to U, D, L or R, so `ValidateMove`'s result is the same.
- UserInterface.ValidateMove: the source throws on a null token. A Dafny string is never null, so that error path does not arise.
- Position coordinates are unbounded integers rather than 32-bit. The board only ever stores coordinates in 0..7, where the two agree.
- Board construction: the tracked position is null until the player is placed. The model starts it at the start cell, which nothing reads before then.
