/**
 * The don't-panic bot (src/bin/dont-panic-episode-1.rs): a row-major grid of
 * floors holding elevators, the search for a floor's first elevator, and the
 * rule that blocks the leading clone when it walks away from its target.
 */
module Elevators {
  import opened Wrappers
  import opened AStar
  import opened FlatGrid

  datatype CellType = Empty | Elevator | Clone

  /** What the bot prints for the leading clone. */
  datatype Action = Wait | Block

  /** Where the Rust code panics: an index or position assert failing, or a direction it does not know. */
  datatype Panic = OutOfGrid(p: Point) | UnknownDirection(direction: string)

  /**
   * `Game::get_cell`: the cell at flat index `y * width + x`, which must exist
   * and must be placed at the point asked for (the two asserts).
   */
  function Checked(width: int, cells: seq<Cell<CellType>>, p: Point): (r: Result<Cell<CellType>, Panic>)
    ensures r.Ok? ==> r.value.pos == p && CellAt(width, cells, p) == Some(r.value)
    ensures r.Err? ==> r.error == OutOfGrid(p)
  {
    match CellAt(width, cells, p)
    case Some(c) => if c.pos == p then Ok(c) else Err(OutOfGrid(p))
    case None => Err(OutOfGrid(p))
  }

  /** In a well-placed grid the lookup succeeds exactly on the rectangle; the wrap of the flat index is caught by the asserts. */
  lemma CheckedInside(width: int, height: int, cells: seq<Cell<CellType>>, p: Point)
    requires WellPlaced(width, height, cells)
    ensures Checked(width, cells, p).Ok? <==> 0 <= p.x < width && 0 <= p.y < height
  {
    if 0 <= p.x < width && 0 <= p.y < height {
      LookupInside(width, height, cells, p);
    } else if Checked(width, cells, p).Ok? {
      var i := Index(width, p);
      assert cells[i].pos == p;
      MulSmall(width, 0, 0);
      assert i < width * height;
      if p.y >= height {
        DivUnique(width, p.y, p.x);
        assert false;
      }
    }
  }

  /** The loop of `get_next_elevator_position` from column x on: the first elevator of floor y. */
  function ElevatorFrom(width: int, cells: seq<Cell<CellType>>, y: int, x: int): Result<Option<Point>, Panic>
    decreases width - x
  {
    if x >= width then Ok(None)
    else
      match Checked(width, cells, Point(x, y))
      case Err(e) => Err(e)
      case Ok(c) => if c.cellType == Elevator then Ok(Some(c.pos)) else ElevatorFrom(width, cells, y, x + 1)
  }

  /** Whether cell (x, y) of a well-placed grid holds an elevator. */
  ghost predicate ElevatorAt(width: int, cells: seq<Cell<CellType>>, x: int, y: int)
  {
    CellAt(width, cells, Point(x, y)).Some? && CellAt(width, cells, Point(x, y)).value.cellType == Elevator
  }

  /**
   * On a floor of the grid the search finds the elevator with the least x at
   * or after column x0, or None when there is none; off the floors, on a grid
   * with columns, it panics.
   */
  lemma {:induction false} ElevatorFromFinds(width: int, height: int, cells: seq<Cell<CellType>>, y: int, x0: int)
    requires WellPlaced(width, height, cells) && 0 <= x0
    ensures 0 <= y < height ==> ElevatorFrom(width, cells, y, x0).Ok?
    ensures x0 < width && !(0 <= y < height) ==> ElevatorFrom(width, cells, y, x0).Err?
    ensures ElevatorFrom(width, cells, y, x0) == Ok(None) ==> forall x :: x0 <= x < width ==> !ElevatorAt(width, cells, x, y)
    ensures ElevatorFrom(width, cells, y, x0).Ok? && ElevatorFrom(width, cells, y, x0).value.Some? ==>
      var p := ElevatorFrom(width, cells, y, x0).value.value;
      p.y == y && x0 <= p.x < width && ElevatorAt(width, cells, p.x, y) &&
      forall x :: x0 <= x < p.x ==> !ElevatorAt(width, cells, x, y)
    decreases width - x0
  {
    if x0 < width {
      CheckedInside(width, height, cells, Point(x0, y));
      ElevatorFromFinds(width, height, cells, y, x0 + 1);
    }
  }

  /** The direction rule against a target column: walking away from it is blocked. */
  function Toward(direction: string, pos: int, target: int): Result<Action, Panic>
  {
    if direction == "LEFT" then Ok(if pos < target then Block else Wait)
    else if direction == "RIGHT" then Ok(if pos > target then Block else Wait)
    else Err(UnknownDirection(direction))
  }

  /**
   * One turn of `main`: WAIT for a clone without direction; on the exit floor
   * the target is the exit, elsewhere the floor's first elevator, and with
   * no elevator the clone is left to walk.
   */
  function NextAction(width: int, cells: seq<Cell<CellType>>, floor: int, pos: int, direction: string, exitFloor: int, exitPos: int): Result<Action, Panic>
  {
    if direction == "NONE" then Ok(Wait)
    else if floor == exitFloor then Toward(direction, pos, exitPos)
    else
      match ElevatorFrom(width, cells, floor, 0)
      case Err(e) => Err(e)
      case Ok(None) => Ok(Wait)
      case Ok(Some(p)) => Toward(direction, pos, p.x)
  }

  /** The column the clone must reach on its floor: the exit on the exit floor, else the first elevator. */
  function Target(width: int, cells: seq<Cell<CellType>>, floor: int, exitFloor: int, exitPos: int): Option<int>
    requires floor == exitFloor || ElevatorFrom(width, cells, floor, 0).Ok?
  {
    if floor == exitFloor then Some(exitPos)
    else
      match ElevatorFrom(width, cells, floor, 0).value
      case Some(p) => Some(p.x)
      case None => None
  }

  /**
   * BLOCK exactly when the clone has a target and walks away from it; a
   * panic exactly when it has a target and its direction is none of LEFT,
   * RIGHT and NONE; WAIT in every other case.
   */
  lemma BlockRule(width: int, cells: seq<Cell<CellType>>, floor: int, pos: int, direction: string, exitFloor: int, exitPos: int)
    requires floor == exitFloor || ElevatorFrom(width, cells, floor, 0).Ok?
    ensures var target := Target(width, cells, floor, exitFloor, exitPos);
      var r := NextAction(width, cells, floor, pos, direction, exitFloor, exitPos);
      && (r == Ok(Block) <==> target.Some? && ((direction == "LEFT" && pos < target.value) || (direction == "RIGHT" && pos > target.value)))
      && (r.Err? <==> target.Some? && direction != "LEFT" && direction != "RIGHT" && direction != "NONE")
      && (r.Err? || r == Ok(Block) || r == Ok(Wait))
  {
  }

  /** `struct Game`: the area's size and its cells. */
  class Game {
    var width: int
    var height: int
    var grid: seq<Cell<CellType>>

    ghost predicate Valid()
      reads this
    {
      WellPlaced(width, height, grid)
    }

    /** `Game::new(w, h)`: `w * h` Empty cells, row by row. */
    constructor (w: int, h: int)
      requires w >= 0 && h >= 0
      ensures Valid() && width == w && height == h && grid == Blank(w, h, Empty)
    {
      var cs: seq<Cell<CellType>> := [];
      for y := 0 to h
        invariant |cs| == w * y
        invariant forall i :: 0 <= i < |cs| ==> cs[i] == Cell(Point(i % w, i / w), Empty)
      {
        for x := 0 to w
          invariant |cs| == w * y + x
          invariant forall i :: 0 <= i < |cs| ==> cs[i] == Cell(Point(i % w, i / w), Empty)
        {
          DivUnique(w, y, x);
          cs := cs + [Cell(Point(x, y), Empty)];
        }
      }
      width := w;
      height := h;
      grid := cs;
    }

    /** `Game::get_cell`. */
    function GetCell(p: Point): (r: Result<Cell<CellType>, Panic>)
      reads this
      ensures Valid() ==> (r.Ok? <==> 0 <= p.x < width && 0 <= p.y < height)
      ensures r.Ok? ==> r.value.pos == p
    {
      assert Valid() ==> (Checked(width, grid, p).Ok? <==> 0 <= p.x < width && 0 <= p.y < height) by {
        if Valid() {
          CheckedInside(width, height, grid, p);
        }
      }
      Checked(width, grid, p)
    }

    /** `Game::get_mut_cell`: the index of the cell the caller may then update. */
    function GetMutCell(p: Point): (r: Result<nat, Panic>)
      reads this
      ensures r.Ok? <==> GetCell(p).Ok?
      ensures r.Ok? ==> r.value < |grid| && grid[r.value] == GetCell(p).value
    {
      match GetCell(p)
      case Ok(_) => Ok(Index(width, p))
      case Err(e) => Err(e)
    }

    /** `Game::set_cell_type`: only the addressed cell's type changes; a point off the grid panics. */
    method SetCellType(p: Point, t: CellType) returns (r: Result<(), Panic>)
      requires Valid()
      modifies this
      ensures Valid() && width == old(width) && height == old(height)
      ensures r.Ok? <==> 0 <= p.x < width && 0 <= p.y < height
      ensures r.Ok? ==> grid == SetType(width, old(grid), p, t)
      ensures r.Err? ==> grid == old(grid)
    {
      var i := GetMutCell(p);
      if i.Err? {
        return Err(i.error);
      }
      SetTypeWellPlaced(width, height, grid, p, t);
      grid := grid[i.value := grid[i.value].(cellType := t)];
      return Ok(());
    }

    /** `Game::get_next_elevator_position`: the scan of floor y from column 0. */
    method GetNextElevatorPosition(y: int) returns (r: Result<Option<Point>, Panic>)
      ensures r == ElevatorFrom(width, grid, y, 0)
    {
      var x := 0;
      while x < width
        invariant ElevatorFrom(width, grid, y, 0) == ElevatorFrom(width, grid, y, x)
        decreases width - x
      {
        var cell := GetCell(Point(x, y));
        if cell.Err? {
          return Err(cell.error);
        }
        if cell.value.cellType == Elevator {
          return Ok(Some(cell.value.pos));
        }
        x := x + 1;
      }
      return Ok(None);
    }

    /** The decision of one turn of `main` for the leading clone. */
    method NextCloneAction(floor: int, pos: int, direction: string, exitFloor: int, exitPos: int) returns (r: Result<Action, Panic>)
      ensures r == NextAction(width, grid, floor, pos, direction, exitFloor, exitPos)
    {
      if direction == "NONE" {
        return Ok(Wait);
      }
      var target := exitPos;
      if floor != exitFloor {
        var elevator := GetNextElevatorPosition(floor);
        if elevator.Err? {
          return Err(elevator.error);
        }
        if elevator.value.None? {
          return Ok(Wait);
        }
        target := elevator.value.value.x;
      }
      if direction == "LEFT" {
        r := Ok(if pos < target then Block else Wait);
      } else if direction == "RIGHT" {
        r := Ok(if pos > target then Block else Wait);
      } else {
        r := Err(UnknownDirection(direction));
      }
    }
  }
}
