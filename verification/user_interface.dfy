/** Move validation: the only non-I/O member of the console interface. */
module UserInterface {
  import opened Positions

  /** Upper-cases one character, ASCII letters only. */
  function UpperChar(c: char): (u: char)
    ensures 'a' <= c <= 'z' ==> u as int == c as int - 32
    ensures !('a' <= c <= 'z') ==> u == c
  {
    if 'a' <= c <= 'z' then (c as int - 32) as char else c
  }

  /** `string.ToUpper`, character by character; the length is kept. */
  function ToUpper(s: string): (u: string)
    ensures |u| == |s|
    ensures forall i :: 0 <= i < |s| ==> u[i] == UpperChar(s[i])
  {
    if |s| == 0 then "" else [UpperChar(s[0])] + ToUpper(s[1..])
  }

  /** Upper-casing twice is upper-casing once. */
  lemma ToUpperIdempotent(s: string)
    ensures ToUpper(ToUpper(s)) == ToUpper(s)
  {
  }

  /** Maps a move token to its direction code: "U", "D", "L" and "R" in
      either case give Up, Down, Left and Right; anything else, including
      the empty string and longer tokens, gives Invalid. */
  function ValidateMove(requestedMove: string): (code: int)
    ensures 0 <= code <= 4
    ensures code == Ordinal(Up) <==> requestedMove == "U" || requestedMove == "u"
    ensures code == Ordinal(Down) <==> requestedMove == "D" || requestedMove == "d"
    ensures code == Ordinal(Left) <==> requestedMove == "L" || requestedMove == "l"
    ensures code == Ordinal(Right) <==> requestedMove == "R" || requestedMove == "r"
    ensures code == Ordinal(Invalid) <==>
              !(|requestedMove| == 1 && requestedMove[0] in "UuDdLlRr")
  {
    var move := ToUpper(requestedMove);
    if move == "U" then Ordinal(Up)
    else if move == "D" then Ordinal(Down)
    else if move == "L" then Ordinal(Left)
    else if move == "R" then Ordinal(Right)
    else Ordinal(Invalid)
  }

  /** Upper-casing the token first does not change the verdict. */
  lemma ValidateMoveIgnoresCase(requestedMove: string)
    ensures ValidateMove(ToUpper(requestedMove)) == ValidateMove(requestedMove)
  {
  }

  /** Sample tokens: the four moves in both cases, "A", and the empty,
      two-letter and padded tokens. */
  lemma ValidateMoveExamples()
    ensures DirectionOf(ValidateMove("U")) == Up
    ensures DirectionOf(ValidateMove("d")) == Down
    ensures DirectionOf(ValidateMove("L")) == Left
    ensures DirectionOf(ValidateMove("r")) == Right
    ensures ValidateMove("A") == Ordinal(Invalid)
    ensures ValidateMove("") == Ordinal(Invalid)
    ensures ValidateMove("UP") == Ordinal(Invalid)
    ensures ValidateMove(" U") == Ordinal(Invalid)
  {
  }
}
