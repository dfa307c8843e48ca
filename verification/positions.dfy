/** Grid coordinates and the move directions of the game. */
module Positions {

  /** The five move requests. Declaration order fixes the integer codes
      0..4 that move validation hands back to the turn loop. */
  datatype Direction = Up | Down | Left | Right | Invalid

  /** The enum's underlying integer value. */
  function Ordinal(d: Direction): (code: int)
    ensures 0 <= code <= 4
    ensures code == 4 <==> d == Invalid
  {
    match d
    case Up => 0
    case Down => 1
    case Left => 2
    case Right => 3
    case Invalid => 4
  }

  /** The direction whose code is `code`: the cast the turn loop applies
      when it switches on a validated move. */
  function DirectionOf(code: int): (d: Direction)
    requires 0 <= code <= 4
    ensures Ordinal(d) == code
  {
    if code == 0 then Up
    else if code == 1 then Down
    else if code == 2 then Left
    else if code == 3 then Right
    else Invalid
  }

  /** Decoding a code recovers the direction: the five codes are distinct. */
  lemma DirectionOfOrdinal(d: Direction)
    ensures DirectionOf(Ordinal(d)) == d
  {
  }

  /** A board coordinate: `x` is the row, `y` the column. Any pair of
      integers is a position; staying on the board is the caller's job. */
  datatype Position = Position(x: int, y: int)

  /** The constructor: the row goes to `x`, the column to `y`, unchecked. */
  function NewPosition(row: int, col: int): (p: Position)
    ensures p.x == row
    ensures p.y == col
  {
    Position(row, col)
  }

  /** Every position, on or off the board, is the result of the
      constructor: it performs no range check. */
  lemma NewPositionAcceptsAnyCoordinates(p: Position)
    ensures NewPosition(p.x, p.y) == p
  {
  }

  /** The cell one step from `p` in direction `d`: rows grow downwards,
      columns to the right. */
  function Neighbour(p: Position, d: Direction): (q: Position)
    requires d != Invalid
    ensures d == Up ==> q == Position(p.x - 1, p.y)
    ensures d == Down ==> q == Position(p.x + 1, p.y)
    ensures d == Left ==> q == Position(p.x, p.y - 1)
    ensures d == Right ==> q == Position(p.x, p.y + 1)
  {
    match d
    case Up => NewPosition(p.x - 1, p.y)
    case Down => NewPosition(p.x + 1, p.y)
    case Left => NewPosition(p.x, p.y - 1)
    case Right => NewPosition(p.x, p.y + 1)
  }

  /** The direction that undoes `d`. */
  function Opposite(d: Direction): (e: Direction)
    ensures (e == Invalid) == (d == Invalid)
  {
    match d
    case Up => Down
    case Down => Up
    case Left => Right
    case Right => Left
    case Invalid => Invalid
  }

  /** A step followed by the opposite step returns to the start, and a
      step never stays in place. */
  lemma NeighbourOpposite(p: Position, d: Direction)
    requires d != Invalid
    ensures Neighbour(Neighbour(p, d), Opposite(d)) == p
    ensures Neighbour(p, d) != p
  {
  }
}
