/**
 * The-labyrinth bot (src/bin/the-labyrinth.rs): Rick explores an unknown
 * maze cell by cell towards `?` cells, reaches the command room `C`, then
 * heads back to the start `T` with every still-unknown cell treated as a wall.
 */
module Labyrinth {
  import opened Wrappers
  import opened VecOps
  import opened AStar
  import opened FlatGrid
  import opened AStarCost

  datatype CellType = Empty | Wall | Start | CommandRoom | Unknown

  /** `CellType::from_char`: any character but `.#TC` is Unknown. */
  function FromChar(c: char): (t: CellType)
    ensures t == Unknown <==> c !in {'.', '#', 'T', 'C'}
  {
    match c
    case '.' => Empty
    case '#' => Wall
    case 'T' => Start
    case 'C' => CommandRoom
    case _ => Unknown
  }

  /** `CellType::as_char`, which `from_char` inverts. */
  function AsChar(t: CellType): (c: char)
    ensures FromChar(c) == t
  {
    match t
    case Empty => '.'
    case Wall => '#'
    case Start => 'T'
    case CommandRoom => 'C'
    case Unknown => '?'
  }

  /** `Cell::is_visitable`: everything but a wall. */
  function Visitable(t: CellType): bool
  {
    t != Wall
  }

  /** `Grid::get_cell_cost`. */
  function CellCost(width: int, cells: seq<Cell<CellType>>, p: Point): (r: int)
    ensures r >= 1
    ensures r == 10 <==> CellAt(width, cells, p).Some? && CellAt(width, cells, p).value.cellType == CommandRoom
    ensures r == I32Max <==> CellAt(width, cells, p).None? || CellAt(width, cells, p).value.cellType == Wall
    ensures r == 1 <==> CellAt(width, cells, p).Some? && CellAt(width, cells, p).value.cellType !in {CommandRoom, Wall}
  {
    match CellAt(width, cells, p)
    case Some(c) =>
      (match c.cellType
       case CommandRoom => 10
       case Wall => I32Max
       case _ => 1)
    case None => I32Max
  }

  /** The four positions `get_neighbors_points` looks at, in its order: left, right, up, down. */
  function Around(p: Point): seq<Point>
  {
    [Point(p.x - 1, p.y), Point(p.x + 1, p.y), Point(p.x, p.y - 1), Point(p.x, p.y + 1)]
  }

  /** `Grid::get_neighbors_points`. */
  function Neighbors(width: int, cells: seq<Cell<CellType>>, p: Point): seq<Point>
  {
    Keep(width, cells, Around(p), Visitable)
  }

  /** Each neighbour is the position of an existing non-wall cell, so stepping to it never costs `i32::MAX`. */
  lemma NeighborIsOpenCell(width: int, height: int, cells: seq<Cell<CellType>>, p: Point, n: Point)
    requires WellPlaced(width, height, cells) && n in Neighbors(width, cells, p)
    ensures CellAt(width, cells, n).Some? && CellAt(width, cells, n).value.pos == n
    ensures CellAt(width, cells, n).value.cellType != Wall && CellCost(width, cells, n) in {1, 10}
  {
    var q :| q in Around(p) && Yields(width, cells, Visitable, q, n);
    LookupOwnPos(width, height, cells, Index(width, q));
  }

  /** At most four neighbours; a non-wall cell next to `p` inside the rectangle is always one of them. */
  lemma NeighborsComplete(width: int, height: int, cells: seq<Cell<CellType>>, p: Point, q: Point)
    requires WellPlaced(width, height, cells)
    requires q in Around(p) && 0 <= q.x < width && 0 <= q.y < height
    requires CellAt(width, cells, q).Some? && Visitable(CellAt(width, cells, q).value.cellType)
    ensures |Neighbors(width, cells, p)| <= 4
    ensures q in Neighbors(width, cells, p)
  {
    LookupInside(width, height, cells, q);
    assert Yields(width, cells, Visitable, q, q);
  }

  /** The search problem `Grid::astar` solves on the given cells. */
  function PathProblem(width: int, cells: seq<Cell<CellType>>, start: Point, target: Point): (pr: Problem)
    ensures pr.Valid()
  {
    Problem(start, target, p => Neighbors(width, cells, p), p => CellCost(width, cells, p))
  }

  /** A wall, or a point outside the vector, is never reached: the search returns no path for it. */
  lemma WallIsUnreachable(width: int, height: int, cells: seq<Cell<CellType>>, start: Point, target: Point, fuel: nat)
    requires WellPlaced(width, height, cells)
    requires CellAt(width, cells, target).None? || CellAt(width, cells, target).value.cellType == Wall
    ensures Search(PathProblem(width, cells, start, target), fuel).Ok? ==> Search(PathProblem(width, cells, start, target), fuel).value == []
  {
    var pr := PathProblem(width, cells, start, target);
    var r := Search(pr, fuel);
    if r.Ok? && r.value != [] {
      var path := r.value;
      var prev := if |path| == 1 then start else path[|path| - 2];
      PathEnd(pr, path);
      assert pr.nbrs(prev) == Neighbors(width, cells, prev);
      NeighborIsOpenCell(width, height, cells, prev, target);
    }
  }

  /** The cells after `set_unknown_as_wall`. */
  function Freeze(cells: seq<Cell<CellType>>): (r: seq<Cell<CellType>>)
  {
    seq(|cells|, i requires 0 <= i < |cells| =>
      if cells[i].cellType == Unknown then cells[i].(cellType := Wall) else cells[i])
  }

  /**
   * Freezing keeps the layout, leaves no Unknown cell, changes nothing but
   * Unknown cells, and doing it twice is doing it once.
   */
  lemma FreezeFacts(width: int, height: int, cells: seq<Cell<CellType>>)
    requires WellPlaced(width, height, cells)
    ensures WellPlaced(width, height, Freeze(cells))
    ensures forall i :: 0 <= i < |cells| ==> Freeze(cells)[i].cellType != Unknown
    ensures forall i :: 0 <= i < |cells| && cells[i].cellType != Unknown ==> Freeze(cells)[i] == cells[i]
    ensures Freeze(Freeze(cells)) == Freeze(cells)
  {
  }

  /** The maze as `Grid` holds it. */
  /** What a flat-index lookup finds in a well-placed grid. */
  lemma CellLookup(width: int, height: int, cells: seq<Cell<CellType>>, p: Point)
    ensures WellPlaced(width, height, cells) && 0 <= p.x < width && 0 <= p.y < height
      ==> CellAt(width, cells, p).Some? && CellAt(width, cells, p).value.pos == p
    ensures WellPlaced(width, height, cells) && CellAt(width, cells, p).Some?
      ==> Index(width, CellAt(width, cells, p).value.pos) == Index(width, p)
  {
    if WellPlaced(width, height, cells) {
      if 0 <= p.x < width && 0 <= p.y < height {
        LookupInside(width, height, cells, p);
      }
      var i := Index(width, p);
      if 0 <= i < |cells| {
        assert cells[i].pos == Point(i % width, i / width);
      }
    }
  }

  class Grid {
    var height: int
    var width: int
    var cells: seq<Cell<CellType>>

    ghost predicate Valid()
      reads this
    {
      WellPlaced(width, height, cells)
    }

    /** `Grid::new(w, h)`: `w * h` Empty cells, row by row. */
    constructor (w: int, h: int)
      requires w >= 0 && h >= 0
      ensures Valid() && width == w && height == h && cells == Blank(w, h, Empty)
    {
      var cs: seq<Cell<CellType>> := [];
      for y := 0 to h
        invariant |cs| == w * y
        invariant forall i :: 0 <= i < |cs| ==> cs[i] == Cell(Point(i % w, i / w), Empty)
      {
        for x := 0 to w
          invariant |cs| == w * y + x
          invariant forall i :: 0 <= i < |cs| ==> cs[i] == Cell(Point(i % w, i / w), Empty)
        {
          DivUnique(w, y, x);
          cs := cs + [Cell(Point(x, y), Empty)];
        }
      }
      height := h;
      width := w;
      cells := cs;
    }

    /** `Grid::get_cell`: inside the rectangle it finds the cell placed at `p`; any cell it finds shares `p`'s flat index. */
    function GetCell(p: Point): (r: Option<Cell<CellType>>)
      reads this
      ensures Valid() && 0 <= p.x < width && 0 <= p.y < height ==> r.Some? && r.value.pos == p
      ensures Valid() && r.Some? ==> Index(width, r.value.pos) == Index(width, p)
    {
      CellLookup(width, height, cells, p);
      CellAt(width, cells, p)
    }

    /** `Grid::set_cell_type`: a no-op when the flat index is outside the vector. */
    method SetCellType(p: Point, t: CellType)
      requires Valid()
      modifies this
      ensures Valid() && width == old(width) && height == old(height)
      ensures cells == SetType(old(width), old(cells), p, t)
    {
      SetTypeWellPlaced(width, height, cells, p, t);
      cells := SetType(width, cells, p, t);
    }

    /** `Grid::get_neighbors_points`. */
    method GetNeighborsPoints(p: Point) returns (r: seq<Point>)
      ensures r == Neighbors(width, cells, p)
    {
      r := CollectNeighbours(width, cells, Around(p), Visitable);
    }

    /** `Grid::astar` on the current cells. */
    method Astar(start: Point, target: Point, fuel: nat) returns (r: Result<seq<Point>, Failure>)
      ensures r == Search(PathProblem(width, cells, start, target), fuel)
    {
      r := FindPath(PathProblem(width, cells, start, target), fuel);
    }

    /** `Grid::set_unknown_as_wall`. */
    method SetUnknownAsWall()
      requires Valid()
      modifies this
      ensures Valid() && width == old(width) && height == old(height)
      ensures cells == Freeze(old(cells))
    {
      FreezeFacts(width, height, cells);
      for i := 0 to |cells|
        invariant width == old(width) && height == old(height) && |cells| == |old(cells)|
        invariant cells[..i] == Freeze(old(cells))[..i] && cells[i..] == old(cells)[i..]
      {
        if cells[i].cellType == Unknown {
          cells := cells[i := cells[i].(cellType := Wall)];
        }
        assert cells[i] == Freeze(old(cells))[i];
      }
      assert cells == cells[..|cells|];
    }
  }

  /** The first point of the path `Grid::astar` returns, None for the empty path. */
  function FirstStep(width: int, cells: seq<Cell<CellType>>, from: Point, to: Point, fuel: nat): (r: Result<Option<Point>, Failure>)
    ensures r.Ok? && r.value.Some? ==> r.value.value in Neighbors(width, cells, from)
    ensures r == Ok(None) ==> Unreachable(PathProblem(width, cells, from, to))
  {
    match Search(PathProblem(width, cells, from, to), fuel)
    case Err(e) => Err(e)
    case Ok(path) => Ok(if path == [] then None else Some(path[0]))
  }

  /** The Unknown cells, in vector (row-major) order. */
  function Unknowns(cells: seq<Cell<CellType>>): (r: seq<Cell<CellType>>)
    ensures forall c :: c in r <==> c in cells && c.cellType == Unknown
  {
    if cells == [] then []
    else
      var init := cells[..|cells| - 1];
      assert forall c :: c in cells <==> c in init || c == cells[|cells| - 1];
      Unknowns(init) + (if cells[|cells| - 1].cellType == Unknown then [cells[|cells| - 1]] else [])
  }

  /** The frontier in the order it is tried: sorted by descending distance to the player, so popping yields the nearest. */
  function Candidates(cells: seq<Cell<CellType>>, player: Point): seq<Cell<CellType>>
  {
    SortDesc(Unknowns(cells), (c: Cell<CellType>) => Manhattan(c.pos, player))
  }

  /**
   * The `while let Some(cell) = unknown_cells.pop()` loop: at most four
   * candidates, taken from the back, until one has a path. The result pairs
   * the index of the chosen candidate with the first step towards it.
   */
  function TryCandidates(width: int, cells: seq<Cell<CellType>>, player: Point, cands: seq<Cell<CellType>>, tries: nat, fuel: nat)
    : (r: Result<Option<(nat, Point)>, Failure>)
    ensures r.Ok? && r.value.Some? ==> Tried(width, cells, player, cands, tries, fuel, r.value.value.0)
    ensures r.Ok? && r.value.Some? ==> r.value.value.1 in Neighbors(width, cells, player)
    decreases |cands|
  {
    if cands == [] then Ok(None)
    else if tries + 1 > 4 then Ok(None)
    else
      var c := cands[|cands| - 1];
      var step := FirstStep(width, cells, player, c.pos, fuel);
      if step.Err? then Err(step.error)
      else if step.value.Some? then Ok(Some((|cands| - 1, step.value.value)))
      else
        var r := TryCandidates(width, cells, player, cands[..|cands| - 1], tries + 1, fuel);
        if r.Ok? && r.value.Some? then
          TriedStep(width, cells, player, cands, tries, fuel, r.value.value.0);
          r
        else
          r
  }

  lemma TriedStep(width: int, cells: seq<Cell<CellType>>, player: Point, cands: seq<Cell<CellType>>, tries: nat, fuel: nat, i: int)
    requires cands != [] && FirstStep(width, cells, player, cands[|cands| - 1].pos, fuel) == Ok(None)
    requires Tried(width, cells, player, cands[..|cands| - 1], tries + 1, fuel, i)
    ensures Tried(width, cells, player, cands, tries, fuel, i)
  {
  }

  /**
   * Candidate `i` is one the loop reaches within its four tries, and every
   * candidate popped before it had no path.
   */
  ghost predicate Tried(width: int, cells: seq<Cell<CellType>>, player: Point, cands: seq<Cell<CellType>>, tries: nat, fuel: nat, i: int)
  {
    && 0 <= i < |cands| && |cands| - i + tries <= 4
    && NoneAfter(width, cells, player, cands, i, fuel)
  }

  /** No candidate after index `i` has a path from the player. */
  ghost predicate NoneAfter(width: int, cells: seq<Cell<CellType>>, player: Point, cands: seq<Cell<CellType>>, i: int, fuel: nat)
    decreases |cands|
  {
    0 <= i < |cands| - 1 ==>
      && FirstStep(width, cells, player, cands[|cands| - 1].pos, fuel) == Ok(None)
      && NoneAfter(width, cells, player, cands[..|cands| - 1], i, fuel)
  }

  /** A candidate the roaming loop settles on: reached within four tries after every nearer one had no path. */
  ghost predicate Roamed(width: int, cells: seq<Cell<CellType>>, player: Point, fuel: nat, t: Point)
  {
    exists i :: Tried(width, cells, player, Candidates(cells, player), 0, fuel, i) && Candidates(cells, player)[i].pos == t
  }

  /** What `get_next_target_point` returns and the grid and roaming target it leaves behind. */
  datatype Decision = Decision(out: Result<Option<Point>, Failure>, cells: seq<Cell<CellType>>, roamTo: Option<Point>)

  /**
   * Return mode: every unknown cell becomes a wall, then the first step of
   * the path to the start, or the start itself when there is no path.
   */
  function ReturnHome(width: int, cells: seq<Cell<CellType>>, player: Point, startPos: Point, roamTo: Option<Point>, fuel: nat): (d: Decision)
    ensures d.cells == Freeze(cells) && d.roamTo == roamTo
    ensures d.out.Ok? ==> d.out.value.Some?
    ensures d.out.Ok? ==> d.out.value.value in Neighbors(width, d.cells, player) || d.out.value.value == startPos
    ensures d.out.Ok? && d.out.value.value == startPos && startPos !in Neighbors(width, d.cells, player)
      ==> Unreachable(PathProblem(width, Freeze(cells), player, startPos))
  {
    var frozen := Freeze(cells);
    match FirstStep(width, frozen, player, startPos, fuel)
    case Err(e) => Decision(Err(e), frozen, roamTo)
    case Ok(step) => Decision(Ok(if step.Some? then step else Some(startPos)), frozen, roamTo)
  }

  /** Roaming mode without a kept target: the frontier loop, then the command room, then nothing. */
  function Explore(width: int, cells: seq<Cell<CellType>>, player: Point, commandPos: Option<Point>, roamTo: Option<Point>, fuel: nat): (d: Decision)
    ensures d.cells == cells
    ensures d.out.Ok? && d.out.value.Some? ==> d.out.value.value in Neighbors(width, cells, player)
    ensures d.out == Ok(None) ==> commandPos.Some? ==> Unreachable(PathProblem(width, cells, player, commandPos.value))
    ensures d.roamTo != roamTo ==> d.roamTo.Some? && Roamed(width, cells, player, fuel, d.roamTo.value)
  {
    var cands := Candidates(cells, player);
    match TryCandidates(width, cells, player, cands, 0, fuel)
    case Err(e) => Decision(Err(e), cells, roamTo)
    case Ok(Some(chosen)) =>
      var t := cands[chosen.0].pos;
      assert Roamed(width, cells, player, fuel, t);
      Decision(Ok(Some(chosen.1)), cells, Some(t))
    case Ok(None) =>
      if commandPos.Some? then Decision(FirstStep(width, cells, player, commandPos.value, fuel), cells, roamTo)
      else Decision(Ok(None), cells, roamTo)
  }

  /** How `Decide` follows from its branches: return mode, the kept target, or roaming. */
  lemma DecideCases(width: int, cells: seq<Cell<CellType>>, player: Point, commandPos: Option<Point>, startPos: Point,
                    hit: bool, roamTo: Option<Point>, fuel: nat)
    requires roamTo.Some? ==> CellAt(width, cells, roamTo.value).Some?
    ensures var d := Decide(width, cells, player, commandPos, startPos, hit, roamTo, fuel);
      && (!hit && roamTo.None? ==> d == Explore(width, cells, player, commandPos, roamTo, fuel))
      && (!hit && roamTo.Some? ==>
            var s := FirstStep(width, cells, player, roamTo.value, fuel);
            if s.Err? then d == Decision(Err(s.error), cells, roamTo)
            else if s.value.Some? && s.value.value != player && CellAt(width, cells, roamTo.value).value.cellType == Unknown then
              d == Decision(Ok(s.value), cells, roamTo)
            else d == Explore(width, cells, player, commandPos, roamTo, fuel))
  {
  }

  /** How `Explore` follows from the outcome of the frontier loop. */
  lemma ExploreCases(width: int, cells: seq<Cell<CellType>>, player: Point, commandPos: Option<Point>, roamTo: Option<Point>, fuel: nat)
    ensures var found := TryCandidates(width, cells, player, Candidates(cells, player), 0, fuel);
      var d := Explore(width, cells, player, commandPos, roamTo, fuel);
      && (found.Err? ==> d.out == Err(found.error) && d.roamTo == roamTo)
      && (found.Ok? && found.value.Some? ==>
            d.out == Ok(Some(found.value.value.1)) && d.roamTo == Some(Candidates(cells, player)[found.value.value.0].pos))
      && (found == Ok(None) ==> d.roamTo == roamTo && d.out == if commandPos.Some? then FirstStep(width, cells, player, commandPos.value, fuel) else Ok(None))
  {
  }

  /**
   * `Game::get_next_target_point` on the game's values. The `unwrap` on the
   * roaming target's cell is the caller's obligation.
   */
  function Decide(width: int, cells: seq<Cell<CellType>>, player: Point, commandPos: Option<Point>, startPos: Point,
                  hit: bool, roamTo: Option<Point>, fuel: nat): (d: Decision)
    requires roamTo.Some? ==> CellAt(width, cells, roamTo.value).Some?
    ensures hit ==> d == ReturnHome(width, cells, player, startPos, roamTo, fuel)
    ensures !hit ==> d.cells == cells
    ensures !hit && d.out.Ok? && d.out.value.Some? ==> d.out.value.value in Neighbors(width, cells, player)
    ensures d.out == Ok(None) ==> !hit && (commandPos.Some? ==> Unreachable(PathProblem(width, cells, player, commandPos.value)))
    ensures d.roamTo != roamTo ==> !hit && d.roamTo.Some? && Roamed(width, cells, player, fuel, d.roamTo.value)
  {
    if hit then ReturnHome(width, cells, player, startPos, roamTo, fuel)
    else if roamTo.None? then Explore(width, cells, player, commandPos, roamTo, fuel)
    else
      match FirstStep(width, cells, player, roamTo.value, fuel)
      case Err(e) => Decision(Err(e), cells, roamTo)
      case Ok(step) =>
        if step.Some? && step.value != player && CellAt(width, cells, roamTo.value).value.cellType == Unknown then
          Decision(Ok(step), cells, roamTo)
        else
          Explore(width, cells, player, commandPos, roamTo, fuel)
  }

  /** A neighbour is never the point itself, so the `point != player_pos` guard of the roaming branch always holds. */
  lemma StepNeverStays(width: int, height: int, cells: seq<Cell<CellType>>, p: Point, n: Point)
    requires WellPlaced(width, height, cells) && n in Neighbors(width, cells, p)
    ensures n != p
  {
    var q :| q in Around(p) && Yields(width, cells, Visitable, q, n);
    var i := Index(width, q);
    assert width > 0 && n == Point(i % width, i / width);
    PlacedIndex(width, i);
    var d := Index(width, q) - Index(width, p);
    if q == Point(p.x, p.y - 1) {
      assert d == -width by { DistributeRow(width, p.y, -1); }
    } else if q == Point(p.x, p.y + 1) {
      assert d == width by { DistributeRow(width, p.y, 1); }
    }
    assert d != 0;
  }

  lemma DistributeRow(w: int, y: int, k: int)
    ensures w * (y + k) == w * y + w * k
  {
  }

  /** The roaming target always names a cell of the grid, and a new one names an Unknown cell. */
  lemma DecideKeepsTarget(width: int, height: int, cells: seq<Cell<CellType>>, player: Point, commandPos: Option<Point>, startPos: Point,
                          hit: bool, roamTo: Option<Point>, fuel: nat)
    requires WellPlaced(width, height, cells) && (roamTo.Some? ==> CellAt(width, cells, roamTo.value).Some?)
    ensures var d := Decide(width, cells, player, commandPos, startPos, hit, roamTo, fuel);
      && WellPlaced(width, height, d.cells)
      && (d.roamTo.Some? ==> CellAt(width, d.cells, d.roamTo.value).Some?)
      && (d.roamTo != roamTo ==> CellAt(width, cells, d.roamTo.value).value.cellType == Unknown)
  {
    var d := Decide(width, cells, player, commandPos, startPos, hit, roamTo, fuel);
    FreezeFacts(width, height, cells);
    if d.roamTo != roamTo {
      var cands := Candidates(cells, player);
      var i :| Tried(width, cells, player, cands, 0, fuel, i) && cands[i].pos == d.roamTo.value;
      assert cands[i] in Unknowns(cells);
      var k :| 0 <= k < |cells| && cells[k] == cands[i];
      LookupOwnPos(width, height, cells, k);
    }
  }

  /** The position recorded for the last `c` of row `y`, or `prev` when the row holds none. */
  function Located(row: string, y: int, c: char, prev: Option<Point>): Option<Point>
  {
    match LastIndexOf(row, c)
    case Some(x) => Some(Point(x, y))
    case None => prev
  }

  /** Recording one more character of the row. */
  lemma LocatedStep(row: string, y: int, x: nat, c: char, prev: Option<Point>)
    requires x < |row|
    ensures Located(row[..x + 1], y, c, prev) == if row[x] == c then Some(Point(x, y)) else Located(row[..x], y, c, prev)
  {
    LastIndexOfStep(row, x, c);
  }

  /** A command sent to Rick. */
  datatype Move = Up | Down | Left | Right

  /** The point one move away. */
  function Shift(p: Point, m: Move): Point
  {
    match m
    case Up => Point(p.x, p.y - 1)
    case Down => Point(p.x, p.y + 1)
    case Left => Point(p.x - 1, p.y)
    case Right => Point(p.x + 1, p.y)
  }

  /** The move printed for the next point, RIGHT when there is none. Any other next point is stepped one unit closer to. */
  function Direction(player: Point, next: Option<Point>): (m: Move)
    ensures next.None? ==> m == Right
    ensures next.Some? && next.value != player ==> Manhattan(Shift(player, m), next.value) + 1 == Manhattan(player, next.value)
  {
    match next
    case None => Right
    case Some(n) =>
      if n.x == player.x then (if n.y <= player.y then Up else Down)
      else if n.x <= player.x then Left else Right
  }

  /** The printed move leads exactly to the next point whenever that point is one move away, and to no other. */
  lemma DirectionInvertsShift(p: Point, m: Move, n: Point)
    ensures Direction(p, Some(Shift(p, m))) == m
    ensures n in Around(p) ==> Shift(p, Direction(p, Some(n))) == n
  {
  }

  /** Away from the first and last columns, every neighbour is one move away. */
  lemma NeighborIsAdjacent(width: int, height: int, cells: seq<Cell<CellType>>, p: Point, n: Point)
    requires WellPlaced(width, height, cells) && n in Neighbors(width, cells, p) && 1 <= p.x < width - 1
    ensures n in Around(p)
  {
    var q :| q in Around(p) && Yields(width, cells, Visitable, q, n);
    LookupFound(width, height, cells, q);
  }

  /** A cell index below `width * height` lies in one of the `height` rows. */
  lemma RowInside(w: int, h: int, i: int)
    requires w > 0 && 0 <= i < w * h
    ensures 0 <= i / w < h
  {
  }

  /** Every wall-free column is strictly between the first and the last one. */
  ghost predicate EdgeColumnsWalled(width: int, cells: seq<Cell<CellType>>)
  {
    forall i :: 0 <= i < |cells| && (cells[i].pos.x == 0 || cells[i].pos.x == width - 1) ==> cells[i].cellType == Wall
  }

  /**
   * With both edge columns walled, a neighbour of an inner point is an inner
   * point one move away: the flat-index wrap never fires.
   */
  lemma InnerStep(width: int, height: int, cells: seq<Cell<CellType>>, u: Point, v: Point)
    requires WellPlaced(width, height, cells) && EdgeColumnsWalled(width, cells)
    requires 1 <= u.x < width - 1 && v in Neighbors(width, cells, u)
    ensures 1 <= v.x < width - 1 && 0 <= v.y < height && Manhattan(u, v) == 1
  {
    NeighborIsAdjacent(width, height, cells, u, v);
    NeighborIsOpenCell(width, height, cells, u, v);
    var i := Index(width, v);
    assert cells[i].pos == v;
    RowInside(width, height, i);
  }

  /**
   * `Grid::astar` returns a cheapest path when the first and last columns are
   * walls and the start lies between them: no path to the target in the
   * neighbour graph costs less.
   */
  lemma WalledAstarIsCheapest(width: int, height: int, cells: seq<Cell<CellType>>, start: Point, target: Point, fuel: nat)
    requires WellPlaced(width, height, cells) && EdgeColumnsWalled(width, cells)
    requires 1 <= start.x < width - 1 && 0 <= start.y < height
    ensures var pr := PathProblem(width, cells, start, target);
      Search(pr, fuel).Ok? ==> Cheapest(pr, Search(pr, fuel).value)
  {
    var pr := PathProblem(width, cells, start, target);
    var inside := (p: Point) => 1 <= p.x < width - 1 && 0 <= p.y < height;
    forall u, v | inside(u) && v in pr.nbrs(u) ensures inside(v) && Manhattan(u, v) == 1 {
      InnerStep(width, height, cells, u, v);
    }
    SearchCheapest(pr, inside, fuel);
  }

  /**
   * Without walled edge columns the wrap breaks the Manhattan heuristic: on a
   * 10 x 3 floor, (1, 1) reaches (9, 0) in two steps through (0, 1), whose left
   * neighbour is (9, 0), although the two points are 9 apart.
   */
  lemma WrapShortcut()
    ensures var pr := PathProblem(10, Blank(10, 3, Empty), Point(1, 1), Point(9, 0));
      && IsPath(pr, [Point(0, 1), Point(9, 0)])
      && PathCost(pr, [Point(0, 1), Point(9, 0)]) == 2
      && Manhattan(pr.start, pr.target) == 9
  {
    var cells := Blank(10, 3, Empty);
    LeftOfFirstColumnWraps(10, 3, cells, 1);
    LookupInside(10, 3, cells, Point(0, 1));
    assert Yields(10, cells, Visitable, Point(-1, 1), Point(9, 0));
    assert Yields(10, cells, Visitable, Point(0, 1), Point(0, 1));
    assert Point(0, 1) in Around(Point(1, 1));
    assert Point(-1, 1) in Around(Point(0, 1));
  }

  /** The bot's memory between rounds. */
  class Game {
    const grid: Grid
    var alarm: int
    var round: int
    var playerPos: Point
    var commandPos: Option<Point>
    var startPos: Point
    var hitCommand: bool
    var roamTo: Option<Point>

    ghost predicate Valid()
      reads this, grid
    {
      && grid.Valid()
      && (roamTo.Some? ==> CellAt(grid.width, grid.cells, roamTo.value).Some?)
    }

    /** `Game::new(w, h, alarm)`. */
    constructor (w: int, h: int, alarm: int)
      requires w >= 0 && h >= 0
      ensures Valid() && fresh(grid)
      ensures grid.width == w && grid.height == h && grid.cells == Blank(w, h, Empty)
      ensures this.alarm == alarm && round == 0 && playerPos == Point(0, 0) && commandPos == None
      ensures startPos == Point(0, 0) && !hitCommand && roamTo == None
    {
      this.alarm := alarm;
      grid := new Grid(w, h);
      round := 0;
      playerPos := Point(0, 0);
      commandPos := None;
      startPos := Point(0, 0);
      hitCommand := false;
      roamTo := None;
    }

    /** `Game::set_player_pos`: a new round; reaching the known command room latches `hit_command`. */
    method SetPlayerPos(p: Point)
      modifies this
      ensures round == old(round) + 1 && playerPos == p
      ensures hitCommand == (old(hitCommand) || commandPos == Some(p))
      ensures alarm == old(alarm) && commandPos == old(commandPos) && startPos == old(startPos) && roamTo == old(roamTo)
    {
      round := round + 1;
      playerPos := p;
      if commandPos.Some? {
        if playerPos == commandPos.value {
          hitCommand := true;
        }
      }
    }

    /** `Game::decode_row`: paints row `y` and records the last command room and start seen in it. */
    method DecodeRow(y: int, row: string)
      requires Valid()
      modifies grid, this
      ensures Valid() && grid.width == old(grid.width) && grid.height == old(grid.height)
      ensures grid.cells == PaintRow(old(grid.width), old(grid.cells), y, row, FromChar)
      ensures commandPos == Located(row, y, 'C', old(commandPos))
      ensures startPos == Located(row, y, 'T', Some(old(startPos))).value
      ensures alarm == old(alarm) && round == old(round) && playerPos == old(playerPos)
      ensures hitCommand == old(hitCommand) && roamTo == old(roamTo)
    {
      for x := 0 to |row|
        invariant Valid() && grid.width == old(grid.width) && grid.height == old(grid.height)
        invariant grid.cells == PaintRow(old(grid.width), old(grid.cells), y, row[..x], FromChar)
        invariant commandPos == Located(row[..x], y, 'C', old(commandPos))
        invariant Some(startPos) == Located(row[..x], y, 'T', Some(old(startPos)))
        invariant alarm == old(alarm) && round == old(round) && playerPos == old(playerPos)
        invariant hitCommand == old(hitCommand) && roamTo == old(roamTo)
      {
        PaintRowStep(grid.width, old(grid.cells), y, row, FromChar, x);
        LocatedStep(row, y, x, 'C', old(commandPos));
        LocatedStep(row, y, x, 'T', Some(old(startPos)));
        DecodeCell(Point(x, y), row[x]);
      }
      assert row[..|row|] == row;
    }

    /** The body of the `decode_row` loop for the character `c` at `pos`. */
    method DecodeCell(pos: Point, c: char)
      requires Valid()
      modifies grid, this
      ensures Valid() && grid.width == old(grid.width) && grid.height == old(grid.height)
      ensures grid.cells == SetType(old(grid.width), old(grid.cells), pos, FromChar(c))
      ensures commandPos == if c == 'C' then Some(pos) else old(commandPos)
      ensures startPos == if c == 'T' then pos else old(startPos)
      ensures alarm == old(alarm) && round == old(round) && playerPos == old(playerPos)
      ensures hitCommand == old(hitCommand) && roamTo == old(roamTo)
    {
      var cellType := FromChar(c);
      grid.SetCellType(pos, cellType);
      match cellType
      case CommandRoom => commandPos := Some(pos);
      case Start => startPos := pos;
      case _ =>
    }

    /** `Game::get_next_target_point`, with `fuel` bounding each search. */
    method GetNextTargetPoint(fuel: nat) returns (r: Result<Option<Point>, Failure>)
      requires Valid()
      modifies grid, this`roamTo
      ensures Valid() && grid.width == old(grid.width) && grid.height == old(grid.height)
      ensures var d := Decide(old(grid.width), old(grid.cells), playerPos, commandPos, startPos, hitCommand, old(roamTo), fuel);
        r == d.out && grid.cells == d.cells && roamTo == d.roamTo
    {
      DecideKeepsTarget(grid.width, grid.height, grid.cells, playerPos, commandPos, startPos, hitCommand, roamTo, fuel);
      DecideCases(grid.width, grid.cells, playerPos, commandPos, startPos, hitCommand, roamTo, fuel);
      if hitCommand {
        r := ReturnToStart(fuel);
      } else {
        var kept := false;
        if roamTo.Some? {
          r, kept := KeepTarget(fuel);
        }
        if !kept {
          r, roamTo := Roam(fuel);
        }
      }
    }

    /**
     * The kept roaming target of `get_next_target_point`: the first step
     * towards it while it is reachable, still Unknown, and the step moves.
     */
    method KeepTarget(fuel: nat) returns (r: Result<Option<Point>, Failure>, kept: bool)
      requires grid.Valid() && roamTo.Some? && CellAt(grid.width, grid.cells, roamTo.value).Some?
      ensures var s := FirstStep(grid.width, grid.cells, playerPos, roamTo.value, fuel);
        && (kept <==> s.Err? || (s.value.Some? && s.value.value != playerPos && CellAt(grid.width, grid.cells, roamTo.value).value.cellType == Unknown))
        && (kept ==> r == (if s.Err? then Err(s.error) else Ok(s.value)))
    {
      var path := grid.Astar(playerPos, roamTo.value, fuel);
      if path.Err? {
        return Err(path.error), true;
      }
      kept := false;
      r := Ok(None);
      if path.value != [] {
        var point := path.value[0];
        if point != playerPos && grid.GetCell(roamTo.value).value.cellType == Unknown {
          r, kept := Ok(Some(point)), true;
        }
      }
    }

    /** The return-mode branch of `get_next_target_point`. */
    method ReturnToStart(fuel: nat) returns (r: Result<Option<Point>, Failure>)
      requires grid.Valid()
      modifies grid
      ensures grid.Valid() && grid.width == old(grid.width) && grid.height == old(grid.height)
      ensures var d := ReturnHome(old(grid.width), old(grid.cells), playerPos, startPos, roamTo, fuel);
        r == d.out && grid.cells == d.cells
    {
      grid.SetUnknownAsWall();
      var path := grid.Astar(playerPos, startPos, fuel);
      if path.Err? {
        return Err(path.error);
      }
      r := Ok(if path.value != [] then Some(path.value[0]) else Some(startPos));
    }

    /** The frontier loop of `get_next_target_point` and the fall-back to the command room. */
    method Roam(fuel: nat) returns (r: Result<Option<Point>, Failure>, newRoamTo: Option<Point>)
      ensures var d := Explore(grid.width, grid.cells, playerPos, commandPos, roamTo, fuel);
        r == d.out && newRoamTo == d.roamTo
    {
      var unknownCells := Candidates(grid.cells, playerPos);
      var found := PopCandidates(unknownCells, fuel);
      ExploreCases(grid.width, grid.cells, playerPos, commandPos, roamTo, fuel);
      newRoamTo := roamTo;
      if found.Err? {
        r := Err(found.error);
      } else if found.value.Some? {
        newRoamTo := Some(unknownCells[found.value.value.0].pos);
        r := Ok(Some(found.value.value.1));
      } else {
        r := TowardsCommand(fuel);
      }
    }

    /** The fall-back once no frontier cell is reachable: the first step towards the command room, if known. */
    method TowardsCommand(fuel: nat) returns (r: Result<Option<Point>, Failure>)
      ensures commandPos.Some? ==> r == FirstStep(grid.width, grid.cells, playerPos, commandPos.value, fuel)
      ensures commandPos.None? ==> r == Ok(None)
    {
      if commandPos.Some? {
        var path := grid.Astar(playerPos, commandPos.value, fuel);
        if path.Err? {
          return Err(path.error);
        }
        return Ok(if path.value == [] then None else Some(path.value[0]));
      }
      return Ok(None);
    }

    /**
     * The `while let Some(cell) = unknown_cells.pop()` loop; the index of the
     * chosen cell is the length of what is left once it is popped.
     */
    method PopCandidates(cands: seq<Cell<CellType>>, fuel: nat) returns (r: Result<Option<(nat, Point)>, Failure>)
      ensures r == TryCandidates(grid.width, grid.cells, playerPos, cands, 0, fuel)
    {
      var unknownCells := cands;
      var tries: nat := 0;
      while unknownCells != []
        invariant TryCandidates(grid.width, grid.cells, playerPos, cands, 0, fuel)
          == TryCandidates(grid.width, grid.cells, playerPos, unknownCells, tries, fuel)
        decreases |unknownCells|
      {
        ghost var before := unknownCells;
        var cell := unknownCells[|unknownCells| - 1];
        unknownCells := unknownCells[..|unknownCells| - 1];
        tries := tries + 1;
        if tries > 4 {
          assert TryCandidates(grid.width, grid.cells, playerPos, before, tries - 1, fuel) == Ok(None);
          break;
        }
        var path := grid.Astar(playerPos, cell.pos, fuel);
        if path.Err? {
          return Err(path.error);
        }
        if path.value != [] {
          return Ok(Some((|unknownCells|, path.value[0])));
        }
      }
      return Ok(None);
    }
  }
}
