/**
 * The shadows-of-the-knight bot (src/bin/shadows-of-the-knight-episode-1.rs):
 * Batman's position and the window of windows that may still hold the bombs,
 * and the jump the bot makes for each direction hint.
 */
module BombSearch {
  import opened Wrappers

  /** Batman's window (x, y) and the half-open window range [minX, maxX) x [minY, maxY). */
  datatype Search = Search(x: int, y: int, minX: int, minY: int, maxX: int, maxY: int)

  /** The state before the first turn: the whole w x h building, Batman at (x, y). */
  function Start(w: int, h: int, x: int, y: int): Search
  {
    Search(x, y, 0, 0, w, h)
  }

  /** Rust's `/ 2` on `i32`, which truncates toward zero. */
  function TruncHalf(d: int): int
  {
    if d >= 0 then d / 2 else -((-d) / 2)
  }

  /** `cmp::max(1, d / 2)`: the length of a jump over a range of length d. */
  function Leap(d: int): (r: int)
    ensures r >= 1
  {
    var half := TruncHalf(d);
    if half > 1 then half else 1
  }

  /** The rounding of the division does not matter here: below 2 the jump is 1 either way. */
  lemma LeapRounding(d: int)
    ensures Leap(d) == (if d >= 2 then d / 2 else 1)
    ensures d >= 2 ==> Leap(d) <= d - 1
  {
  }

  predicate Up(dir: string)    { dir == "U" || dir == "UR" || dir == "UL" }
  predicate Down(dir: string)  { dir == "D" || dir == "DR" || dir == "DL" }
  predicate Right(dir: string) { dir == "R" || dir == "UR" || dir == "DR" }
  predicate Left(dir: string)  { dir == "L" || dir == "DL" || dir == "UL" }

  /** The eight hints the referee sends. */
  predicate KnownDirection(dir: string)
  {
    Up(dir) || Down(dir) || Right(dir) || Left(dir)
  }

  /**
   * One turn of the loop of `main`: the window is cut at Batman's row and/or
   * column on the side the hint points away from, then Batman jumps half the
   * remaining range (at least 1) in the hinted direction. An unknown hint panics.
   */
  function Step(s: Search, dir: string): Result<Search, string>
  {
    if !KnownDirection(dir) then Err(dir)
    else
      var minY := if Down(dir) then s.y else s.minY;
      var maxY := if Up(dir) then s.y + 1 else s.maxY;
      var minX := if Right(dir) then s.x else s.minX;
      var maxX := if Left(dir) then s.x + 1 else s.maxX;
      var y := if Up(dir) then s.y - Leap(maxY - minY) else if Down(dir) then s.y + Leap(maxY - minY) else s.y;
      var x := if Right(dir) then s.x + Leap(maxX - minX) else if Left(dir) then s.x - Leap(maxX - minX) else s.x;
      Ok(Search(x, y, minX, minY, maxX, maxY))
  }

  /**
   * Every named axis moves by at least 1 the way the hint points; an axis the
   * hint does not name keeps its position and its bounds; only unknown hints fail.
   */
  lemma StepMoves(s: Search, dir: string)
    ensures Step(s, dir).Err? <==> !KnownDirection(dir)
    ensures Step(s, dir).Ok? ==> var t := Step(s, dir).value;
      && (Up(dir) ==> t.y <= s.y - 1 && t.maxY == s.y + 1 && t.minY == s.minY)
      && (Down(dir) ==> t.y >= s.y + 1 && t.minY == s.y && t.maxY == s.maxY)
      && (Right(dir) ==> t.x >= s.x + 1 && t.minX == s.x && t.maxX == s.maxX)
      && (Left(dir) ==> t.x <= s.x - 1 && t.maxX == s.x + 1 && t.minX == s.minX)
      && (!Up(dir) && !Down(dir) ==> t.y == s.y && t.minY == s.minY && t.maxY == s.maxY)
      && (!Right(dir) && !Left(dir) ==> t.x == s.x && t.minX == s.minX && t.maxX == s.maxX)
  {
  }

  /** The hint the referee gives for bombs at (bombX, bombY) seen from (x, y); y grows downwards. */
  function Hint(x: int, y: int, bombX: int, bombY: int): string
  {
    (if bombY < y then "U" else if bombY > y then "D" else "") + (if bombX > x then "R" else if bombX < x then "L" else "")
  }

  /** Away from the bombs the hint is one of the eight, and names exactly the sides the bombs lie on. */
  lemma HintNames(x: int, y: int, bombX: int, bombY: int)
    requires x != bombX || y != bombY
    ensures var dir := Hint(x, y, bombX, bombY);
      && KnownDirection(dir)
      && (Up(dir) <==> bombY < y) && (Down(dir) <==> bombY > y)
      && (Right(dir) <==> bombX > x) && (Left(dir) <==> bombX < x)
  {
    var dir := Hint(x, y, bombX, bombY);
    var vertical := if bombY < y then "U" else if bombY > y then "D" else "";
    var horizontal := if bombX > x then "R" else if bombX < x then "L" else "";
    assert dir == vertical + horizontal;
    if horizontal == "R" {
      assert dir == "UR" || dir == "DR" || dir == "R";
    } else if horizontal == "L" {
      assert dir == "UL" || dir == "DL" || dir == "L";
    } else {
      assert dir == "U" || dir == "D";
    }
  }

  /** Both Batman and the bombs lie inside the window. */
  predicate Holds(s: Search, bombX: int, bombY: int)
  {
    && s.minX <= bombX < s.maxX && s.minY <= bombY < s.maxY
    && s.minX <= s.x < s.maxX && s.minY <= s.y < s.maxY
  }

  /** The window of t lies within the window of s. */
  predicate Within(t: Search, s: Search)
  {
    s.minX <= t.minX && t.maxX <= s.maxX && s.minY <= t.minY && t.maxY <= s.maxY
  }

  /**
   * A truthful hint never loses the bombs: when Batman and the bombs are in
   * the window and Batman is not on the bombs, the next window lies within
   * the old one and still holds both.
   */
  lemma StepKeepsBombs(s: Search, bombX: int, bombY: int)
    requires Holds(s, bombX, bombY) && (s.x != bombX || s.y != bombY)
    ensures Step(s, Hint(s.x, s.y, bombX, bombY)).Ok?
    ensures Holds(Step(s, Hint(s.x, s.y, bombX, bombY)).value, bombX, bombY)
    ensures Within(Step(s, Hint(s.x, s.y, bombX, bombY)).value, s)
  {
    HintNames(s.x, s.y, bombX, bombY);
    LeapRounding(s.y + 1 - s.minY);
    LeapRounding(s.maxY - s.y);
    LeapRounding(s.x + 1 - s.minX);
    LeapRounding(s.maxX - s.x);
  }

  /** n turns of the loop against bombs at (bombX, bombY), stopping once Batman is on them. */
  function Chase(s: Search, bombX: int, bombY: int, n: nat): Result<Search, string>
    decreases n
  {
    if n == 0 || (s.x == bombX && s.y == bombY) then Ok(s)
    else
      match Step(s, Hint(s.x, s.y, bombX, bombY))
      case Err(e) => Err(e)
      case Ok(t) => Chase(t, bombX, bombY, n - 1)
  }

  /**
   * From the start in a w x h building with the bombs inside it, any number
   * of truthful turns keeps the bombs and Batman in a window inside the building.
   */
  lemma {:induction false} ChaseKeepsBombs(s: Search, bombX: int, bombY: int, n: nat)
    requires Holds(s, bombX, bombY)
    ensures Chase(s, bombX, bombY, n).Ok?
    ensures Holds(Chase(s, bombX, bombY, n).value, bombX, bombY) && Within(Chase(s, bombX, bombY, n).value, s)
    decreases n
  {
    if n > 0 && (s.x != bombX || s.y != bombY) {
      StepKeepsBombs(s, bombX, bombY);
      var t := Step(s, Hint(s.x, s.y, bombX, bombY)).value;
      ChaseKeepsBombs(t, bombX, bombY, n - 1);
    }
  }

  /** The start window is the building, so it holds bombs and Batman inside the building. */
  lemma StartHolds(w: int, h: int, x: int, y: int, bombX: int, bombY: int, n: nat)
    requires 0 <= x < w && 0 <= y < h && 0 <= bombX < w && 0 <= bombY < h
    ensures Holds(Start(w, h, x, y), bombX, bombY)
    ensures Chase(Start(w, h, x, y), bombX, bombY, n).Ok?
    ensures var t := Chase(Start(w, h, x, y), bombX, bombY, n).value;
      0 <= t.minX <= t.x < t.maxX <= w && 0 <= t.minY <= t.y < t.maxY <= h
  {
    ChaseKeepsBombs(Start(w, h, x, y), bombX, bombY, n);
  }

  /** Which sides each of the eight hints names. */
  lemma HintSides()
    ensures Up("U") && !Down("U") && !Right("U") && !Left("U")
    ensures Up("UR") && !Down("UR") && Right("UR") && !Left("UR")
    ensures !Up("R") && !Down("R") && Right("R") && !Left("R")
    ensures !Up("DR") && Down("DR") && Right("DR") && !Left("DR")
    ensures !Up("D") && Down("D") && !Right("D") && !Left("D")
    ensures !Up("DL") && Down("DL") && !Right("DL") && Left("DL")
    ensures !Up("L") && !Down("L") && !Right("L") && Left("L")
    ensures Up("UL") && !Down("UL") && !Right("UL") && Left("UL")
  {
  }

  /** The `match` of `main` on the hint, updating the six variables in place. */
  method Jump(s: Search, dir: string) returns (r: Result<Search, string>)
    ensures r == Step(s, dir)
  {
    HintSides();
    var x, y, minX, minY, maxX, maxY := s.x, s.y, s.minX, s.minY, s.maxX, s.maxY;
    if dir == "U" {
      maxY := y + 1;
      y := y - Leap(maxY - minY);
      return Ok(Search(x, y, minX, minY, maxX, maxY));
    } else if dir == "UR" {
      maxY := y + 1;
      minX := x;
      y := y - Leap(maxY - minY);
      x := x + Leap(maxX - minX);
      return Ok(Search(x, y, minX, minY, maxX, maxY));
    } else if dir == "R" {
      minX := x;
      x := x + Leap(maxX - minX);
      return Ok(Search(x, y, minX, minY, maxX, maxY));
    } else if dir == "DR" {
      minY := y;
      minX := x;
      y := y + Leap(maxY - minY);
      x := x + Leap(maxX - minX);
      return Ok(Search(x, y, minX, minY, maxX, maxY));
    } else if dir == "D" {
      minY := y;
      y := y + Leap(maxY - minY);
      return Ok(Search(x, y, minX, minY, maxX, maxY));
    } else if dir == "DL" {
      minY := y;
      maxX := x + 1;
      y := y + Leap(maxY - minY);
      x := x - Leap(maxX - minX);
      return Ok(Search(x, y, minX, minY, maxX, maxY));
    } else if dir == "L" {
      maxX := x + 1;
      x := x - Leap(maxX - minX);
      return Ok(Search(x, y, minX, minY, maxX, maxY));
    } else if dir == "UL" {
      maxY := y + 1;
      maxX := x + 1;
      y := y - Leap(maxY - minY);
      x := x - Leap(maxX - minX);
      return Ok(Search(x, y, minX, minY, maxX, maxY));
    } else {
      return Err(dir);
    }
  }
}
