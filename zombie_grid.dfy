/**
 * The code-vs-zombies bot (src/bin/code-vs-zombies.rs): a grid whose cells
 * are created on first use in a hash map and count the zombies placed on
 * them, and the per-turn bookkeeping of humans and zombies by id.
 */
module ZombieGrid {
  import opened AStar

  datatype CellType = Empty | Human | Zombie

  /** A cell: its position, what was last placed on it and how many zombies were placed on it. */
  datatype Cell = Cell(pos: Point, cellType: CellType, zombiesCount: nat)

  /** `Cell::new`. */
  function NewCell(pos: Point): Cell
  {
    Cell(pos, Empty, 0)
  }

  /** A human by id and position; the floating-point turn estimates are not modelled. */
  datatype HumanInfo = HumanInfo(id: int, pos: Point)

  /** A zombie by id, position and the position it moves to next. */
  datatype ZombieInfo = ZombieInfo(id: int, pos: Point, nextPos: Point)

  /** The map after `get_mut_cell(pos)`: a new Empty cell is inserted when the key is missing. */
  function Touched(cells: map<Point, Cell>, pos: Point): (r: map<Point, Cell>)
    ensures r.Keys == cells.Keys + {pos}
    ensures forall q :: q in cells ==> r[q] == cells[q]
    ensures pos !in cells ==> r[pos] == NewCell(pos)
  {
    if pos in cells then cells else cells[pos := NewCell(pos)]
  }

  /**
   * The map after `set_cell_type(pos, t)`: the cell at `pos`, created if
   * missing, takes type `t` and counts one more zombie when `t` is Zombie;
   * every other cell is unchanged.
   */
  function Marked(cells: map<Point, Cell>, pos: Point, t: CellType): (r: map<Point, Cell>)
    ensures r.Keys == cells.Keys + {pos}
    ensures forall q :: q in cells && q != pos ==> r[q] == cells[q]
    ensures r[pos].cellType == t
    ensures r[pos].zombiesCount == (if pos in cells then cells[pos].zombiesCount else 0) + (if t == Zombie then 1 else 0)
    ensures r[pos].pos == if pos in cells then cells[pos].pos else pos
  {
    var c := Touched(cells, pos)[pos];
    Touched(cells, pos)[pos := c.(cellType := t, zombiesCount := if t == Zombie then c.zombiesCount + 1 else c.zombiesCount)]
  }

  /** The cells after marking the given positions in order. */
  function MarkAll(cells: map<Point, Cell>, marks: seq<(Point, CellType)>): map<Point, Cell>
  {
    if marks == [] then cells
    else
      var last := marks[|marks| - 1];
      Marked(MarkAll(cells, marks[..|marks| - 1]), last.0, last.1)
  }

  /** How many of the marks put a zombie at p. */
  function ZombiesAt(marks: seq<(Point, CellType)>, p: Point): nat
  {
    if marks == [] then 0
    else ZombiesAt(marks[..|marks| - 1], p) + (if marks[|marks| - 1] == (p, Zombie) then 1 else 0)
  }

  /** From an empty grid (as after `reset`), the cells are exactly at the marked positions. */
  lemma {:induction false} MarkAllKeys(marks: seq<(Point, CellType)>)
    ensures forall p :: p in MarkAll(map[], marks) <==> exists i :: 0 <= i < |marks| && marks[i].0 == p
  {
    if marks != [] {
      var init := marks[..|marks| - 1];
      MarkAllKeys(init);
      assert MarkAll(map[], marks) == Marked(MarkAll(map[], init), marks[|marks| - 1].0, marks[|marks| - 1].1);
      PositionsSnoc(marks, init, MarkAll(map[], init).Keys);
    }
  }

  /** The positions of the marks are those of all but the last, plus the last one's. */
  lemma PositionsSnoc(marks: seq<(Point, CellType)>, init: seq<(Point, CellType)>, keys: set<Point>)
    requires marks != [] && init == marks[..|marks| - 1]
    requires forall p :: p in keys <==> exists i :: 0 <= i < |init| && init[i].0 == p
    ensures forall p :: (p in keys || p == marks[|marks| - 1].0) <==> exists i :: 0 <= i < |marks| && marks[i].0 == p
  {
    forall p | p in keys || p == marks[|marks| - 1].0
      ensures exists i :: 0 <= i < |marks| && marks[i].0 == p
    {
      if p != marks[|marks| - 1].0 {
        var i :| 0 <= i < |init| && init[i].0 == p;
        assert marks[i].0 == p;
      } else {
        assert marks[|marks| - 1].0 == p;
      }
    }
    forall p, i | 0 <= i < |marks| && marks[i].0 == p
      ensures p in keys || p == marks[|marks| - 1].0
    {
      if i < |init| {
        assert init[i].0 == p;
      }
    }
  }

  /**
   * From an empty grid, each cell sits at its own key and counts exactly the
   * zombies marked at that position; where no cell exists no zombie was marked.
   */
  lemma {:induction false} MarkAllCounts(marks: seq<(Point, CellType)>)
    ensures forall p :: p in MarkAll(map[], marks) ==>
      MarkAll(map[], marks)[p].pos == p && MarkAll(map[], marks)[p].zombiesCount == ZombiesAt(marks, p)
    ensures forall p :: p !in MarkAll(map[], marks) ==> ZombiesAt(marks, p) == 0
  {
    if marks != [] {
      var init := marks[..|marks| - 1];
      MarkAllCounts(init);
      assert MarkAll(map[], marks) == Marked(MarkAll(map[], init), marks[|marks| - 1].0, marks[|marks| - 1].1);
      forall p: Point
        ensures p in MarkAll(map[], marks) ==> MarkAll(map[], marks)[p].zombiesCount == ZombiesAt(marks, p)
        ensures p !in MarkAll(map[], marks) ==> ZombiesAt(marks, p) == 0
      {
        assert ZombiesAt(marks, p) == ZombiesAt(init, p) + (if marks[|marks| - 1] == (p, Zombie) then 1 else 0);
      }
    }
  }

  /** The type of a cell is the type of the last mark at its position. */
  lemma {:induction false} MarkAllLast(marks: seq<(Point, CellType)>, i: nat)
    requires i < |marks|
    requires forall j :: i < j < |marks| ==> marks[j].0 != marks[i].0
    ensures marks[i].0 in MarkAll(map[], marks)
    ensures MarkAll(map[], marks)[marks[i].0].cellType == marks[i].1
  {
    if i < |marks| - 1 {
      var init := marks[..|marks| - 1];
      MarkAllLast(init, i);
    }
  }

  /** `struct Grid`: the size and the cells created so far. */
  class Grid {
    var height: int
    var width: int
    var cells: map<Point, Cell>

    /** `Grid::new(w, h)`: no cell yet. */
    constructor (w: int, h: int)
      ensures height == h && width == w && cells == map[]
    {
      height := h;
      width := w;
      cells := map[];
    }

    /** `Grid::get_mut_cell`: the cell at `pos`, inserted as a new Empty cell when missing. */
    method GetMutCell(pos: Point) returns (c: Cell)
      modifies this
      ensures cells == Touched(old(cells), pos) && c == cells[pos]
      ensures height == old(height) && width == old(width)
    {
      if pos in cells {
        return cells[pos];
      }
      cells := cells[pos := NewCell(pos)];
      return cells[pos];
    }

    /** `Grid::set_cell_type`. */
    method SetCellType(pos: Point, t: CellType)
      modifies this
      ensures cells == Marked(old(cells), pos, t)
      ensures height == old(height) && width == old(width)
    {
      var cell := GetMutCell(pos);
      cell := cell.(cellType := t);
      if cell.cellType == Zombie {
        cell := cell.(zombiesCount := cell.zombiesCount + 1);
      }
      cells := cells[pos := cell];
    }

    /** `Grid::reset`: all cells dropped. */
    method Reset()
      modifies this
      ensures cells == map[]
      ensures height == old(height) && width == old(width)
    {
      cells := map[];
    }
  }

  /** `struct Game`, without the floating-point estimates. */
  class Game {
    var playerPos: Point
    const playerShootDistance: int
    const playerVelocity: int
    const zombieVelocity: int
    var prevHumans: map<int, HumanInfo>
    var prevZombies: map<int, ZombieInfo>
    var humans: map<int, HumanInfo>
    var zombies: map<int, ZombieInfo>
    const grid: Grid

    /** `Game::new(w, h)`: the game constants, no player position yet (-1, -1), nobody seen. */
    constructor (w: int, h: int)
      ensures fresh(grid) && grid.width == w && grid.height == h && grid.cells == map[]
      ensures playerShootDistance == 2000 && playerVelocity == 1000 && zombieVelocity == 400
      ensures playerPos == Point(-1, -1)
      ensures humans == map[] && zombies == map[] && prevHumans == map[] && prevZombies == map[]
    {
      playerShootDistance := 2000;
      playerVelocity := 1000;
      zombieVelocity := 400;
      playerPos := Point(-1, -1);
      humans := map[];
      zombies := map[];
      prevHumans := map[];
      prevZombies := map[];
      grid := new Grid(w, h);
    }

    /** `Game::new_loop`: the grid is emptied and this turn's humans and zombies become the previous ones. */
    method NewLoop()
      modifies this, grid
      ensures grid.cells == map[]
      ensures prevHumans == old(humans) && prevZombies == old(zombies)
      ensures humans == map[] && zombies == map[]
      ensures playerPos == old(playerPos) && grid.width == old(grid.width) && grid.height == old(grid.height)
    {
      grid.Reset();
      prevHumans := humans;
      prevZombies := zombies;
      humans := map[];
      zombies := map[];
    }

    /** `Game::add_human`: the human's cell is marked and the human stored under its id, replacing any older entry. */
    method AddHuman(human: HumanInfo)
      modifies this, grid
      ensures grid.cells == Marked(old(grid.cells), human.pos, Human)
      ensures humans == old(humans)[human.id := human]
      ensures zombies == old(zombies) && prevHumans == old(prevHumans) && prevZombies == old(prevZombies)
      ensures playerPos == old(playerPos) && grid.width == old(grid.width) && grid.height == old(grid.height)
    {
      grid.SetCellType(human.pos, Human);
      humans := humans[human.id := human];
    }

    /** `Game::add_zombie`: the zombie's cell is marked (one more zombie there) and the zombie stored under its id. */
    method AddZombie(zombie: ZombieInfo)
      modifies this, grid
      ensures grid.cells == Marked(old(grid.cells), zombie.pos, Zombie)
      ensures zombies == old(zombies)[zombie.id := zombie]
      ensures humans == old(humans) && prevHumans == old(prevHumans) && prevZombies == old(prevZombies)
      ensures playerPos == old(playerPos) && grid.width == old(grid.width) && grid.height == old(grid.height)
    {
      grid.SetCellType(zombie.pos, Zombie);
      zombies := zombies[zombie.id := zombie];
    }
  }
}
