/** The player record: a lives counter and a display name. */
module Players {

  /** The source's `int`: 32-bit two's complement, unchecked arithmetic. */
  newtype int32 = x: int | -0x8000_0000 <= x < 0x8000_0000

  const MinInt32: int := -0x8000_0000
  const MaxInt32: int := 0x7FFF_FFFF

  /** Reduces an integer to 32 bits, as unchecked arithmetic does. */
  function Wrap32(v: int): (w: int32)
    ensures MinInt32 <= v <= MaxInt32 ==> w as int == v
    ensures (w as int - v) % 0x1_0000_0000 == 0
  {
    ((v - MinInt32) % 0x1_0000_0000 + MinInt32) as int32
  }

  /** A reference that may be null. */
  datatype Nullable<T> = Null | NonNull(value: T)

  const DefaultLives: int32 := 2
  const DefaultName: string := "Player One"

  datatype Player = Player(lives: int32, name: Nullable<string>)

  /** A new player: two lives and no name yet. */
  function NewPlayer(): (p: Player)
    ensures p.lives == DefaultLives
    ensures p.name == Null
  {
    Player(DefaultLives, Null)
  }

  /** Sets the lives counter; omitting the argument means two lives. */
  function SetLives(p: Player, lives: int32 := DefaultLives): (r: Player)
    ensures r.lives == lives
    ensures r.name == p.name
  {
    p.(lives := lives)
  }

  /** The characters `char.IsWhiteSpace` accepts: the Unicode space,
      line and paragraph separators, U+0009..U+000D and U+0085. */
  predicate IsWhiteSpace(c: char) {
    || c == ' '
    || ('\t' <= c <= '\r')
    || c == '\U{0085}'
    || c == '\U{00A0}'
    || c == '\U{1680}'
    || ('\U{2000}' <= c <= '\U{200A}')
    || c == '\U{2028}'
    || c == '\U{2029}'
    || c == '\U{202F}'
    || c == '\U{205F}'
    || c == '\U{3000}'
  }

  /** Scans the string and stops at the first non-space character. */
  function AllWhiteSpace(s: string): (r: bool)
    ensures r <==> forall i :: 0 <= i < |s| ==> IsWhiteSpace(s[i])
  {
    if |s| == 0 then true
    else if !IsWhiteSpace(s[0]) then false
    else
      var rest := AllWhiteSpace(s[1..]);
      assert forall i :: 1 <= i < |s| ==> s[i] == s[1..][i - 1];
      rest
  }

  /** `string.IsNullOrWhiteSpace`: null, empty, or spaces only. */
  predicate IsNullOrWhiteSpace(s: Nullable<string>) {
    match s
    case Null => true
    case NonNull(v) => AllWhiteSpace(v)
  }

  /** Stores the name, replacing a blank one by "Player One"; the stored
      name is never blank, and the lives are untouched. */
  function SetPlayerName(p: Player, playerName: Nullable<string>): (r: Player)
    ensures r.lives == p.lives
    ensures IsNullOrWhiteSpace(playerName) ==> r.name == NonNull(DefaultName)
    ensures !IsNullOrWhiteSpace(playerName) ==> r.name == playerName
    ensures !IsNullOrWhiteSpace(r.name)
  {
    assert !IsWhiteSpace(DefaultName[0]);
    p.(name := if IsNullOrWhiteSpace(playerName) then NonNull(DefaultName) else playerName)
  }

  /** Naming a player again with the name it already holds changes nothing. */
  lemma SetPlayerNameIdempotent(p: Player, playerName: Nullable<string>)
    ensures var r := SetPlayerName(p, playerName); SetPlayerName(r, r.name) == r
  {
  }

  /** A player is alive while at least one life is left. */
  function IsPlayerAlive(p: Player): (alive: bool)
    ensures alive <==> p.lives > 0
  {
    p.lives > 0
  }

  /** Takes one life with no floor; below the 32-bit minimum the counter
      wraps round to the maximum. */
  function LoseLife(p: Player): (r: Player)
    ensures r.name == p.name
    ensures p.lives as int > MinInt32 ==> r.lives as int == p.lives as int - 1
    ensures p.lives as int == MinInt32 ==> r.lives as int == MaxInt32
  {
    p.(lives := Wrap32(p.lives as int - 1))
  }

  /** `k` successive calls of `LoseLife`. */
  function LoseLives(p: Player, k: nat): Player
    decreases k
  {
    if k == 0 then p else LoseLives(LoseLife(p), k - 1)
  }

  /** Short of wrap-around, `k` losses take exactly `k` lives and leave the
      name alone. */
  lemma {:induction false} LoseLivesSubtracts(p: Player, k: nat)
    requires p.lives as int - k >= MinInt32
    ensures LoseLives(p, k).lives as int == p.lives as int - k
    ensures LoseLives(p, k).name == p.name
    decreases k
  {
    if k > 0 {
      LoseLivesSubtracts(LoseLife(p), k - 1);
    }
  }

  /** After `SetLives(n)` and `k` losses the player is alive exactly when
      more than `k` lives were set; a dead player stays dead. */
  lemma AliveAfterLosses(p: Player, n: int32, k: nat)
    requires n as int - k >= MinInt32
    ensures IsPlayerAlive(LoseLives(SetLives(p, n), k)) <==> n as int > k
  {
    LoseLivesSubtracts(SetLives(p, n), k);
  }

  /** With the default two lives the player survives one hit and dies on
      the second. */
  lemma DefaultLivesLastTwoHits(p: Player)
    ensures IsPlayerAlive(LoseLives(SetLives(p), 1))
    ensures !IsPlayerAlive(LoseLives(SetLives(p), 2))
  {
  }

  /** The one way back to life: unchecked decrement of the minimum. */
  lemma LoseLifeWrapsAtMinimum(p: Player)
    requires p.lives as int == MinInt32
    ensures !IsPlayerAlive(p) && IsPlayerAlive(LoseLife(p))
  {
  }
}
