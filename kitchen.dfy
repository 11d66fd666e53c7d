/**
 * The code-a-la-mode bot (src/bin/code-a-la-mode.rs): the same A* engine on
 * a kitchen grid where the cooks may move in eight directions over floor
 * cells only, plus the kitchen bookkeeping: item lists, crates, tables,
 * windows, choppers and the oven.
 */
module Kitchen {
  import opened Wrappers
  import opened VecOps
  import opened AStar
  import opened FlatGrid
  import Items

  datatype CellType =
    | Empty | Wall | Partner | DishWasher | Window | Blueberries | IceCream
    | Strawberries | Dough | Chopper | Oven | Unknown

  /** `CellType::from_char`: the cooks' start digits are floor, anything unlisted is Unknown. */
  function FromChar(c: char): (t: CellType)
    ensures t == Empty <==> c in {'.', '0', '1'}
    ensures t == Unknown <==> c !in {'.', '0', '1', '#', 'P', 'D', 'W', 'B', 'I', 'S', 'H', 'C', 'O'}
  {
    match c
    case '.' => Empty
    case '0' => Empty
    case '1' => Empty
    case '#' => Wall
    case 'P' => Partner
    case 'D' => DishWasher
    case 'W' => Window
    case 'B' => Blueberries
    case 'I' => IceCream
    case 'S' => Strawberries
    case 'H' => Dough
    case 'C' => Chopper
    case 'O' => Oven
    case _ => Unknown
  }

  /** `CellType::as_char`, which `from_char` inverts. */
  function AsChar(t: CellType): (c: char)
    ensures FromChar(c) == t
  {
    match t
    case Empty => '.'
    case Wall => '#'
    case Partner => 'P'
    case DishWasher => 'D'
    case Window => 'W'
    case Blueberries => 'B'
    case IceCream => 'I'
    case Strawberries => 'S'
    case Dough => 'H'
    case Chopper => 'C'
    case Oven => 'O'
    case Unknown => '?'
  }

  /** `Cell::is_visitable`: only floor. */
  function Visitable(t: CellType): bool
  {
    t == Empty
  }

  /** `Grid::get_cell_cost`. */
  function CellCost(width: int, cells: seq<Cell<CellType>>, p: Point): (r: int)
    ensures r in {1, I32Max}
    ensures r == 1 <==> CellAt(width, cells, p).Some? && CellAt(width, cells, p).value.cellType == Empty
  {
    match CellAt(width, cells, p)
    case Some(c) => if Visitable(c.cellType) then 1 else I32Max
    case None => I32Max
  }

  /**
   * The eight positions `get_neighbors_points` looks at, in its order: the
   * left column top to bottom as left, up-left, down-left, then the same on
   * the right, then up and down.
   */
  function Around(p: Point): seq<Point>
  {
    [ Point(p.x - 1, p.y), Point(p.x - 1, p.y - 1), Point(p.x - 1, p.y + 1),
      Point(p.x + 1, p.y), Point(p.x + 1, p.y - 1), Point(p.x + 1, p.y + 1),
      Point(p.x, p.y - 1), Point(p.x, p.y + 1) ]
  }

  /** `Grid::get_neighbors_points`. */
  function Neighbors(width: int, cells: seq<Cell<CellType>>, p: Point): seq<Point>
  {
    Keep(width, cells, Around(p), Visitable)
  }

  /** Each neighbour is the position of an existing floor cell, which costs 1 to enter. */
  lemma NeighborIsFloor(width: int, height: int, cells: seq<Cell<CellType>>, p: Point, n: Point)
    requires WellPlaced(width, height, cells) && n in Neighbors(width, cells, p)
    ensures CellAt(width, cells, n).Some? && CellAt(width, cells, n).value.pos == n
    ensures CellAt(width, cells, n).value.cellType == Empty && CellCost(width, cells, n) == 1
  {
    var q :| q in Around(p) && Yields(width, cells, Visitable, q, n);
    LookupOwnPos(width, height, cells, Index(width, q));
  }

  /** At most eight neighbours; a floor cell among the eight around `p` inside the rectangle is always one of them. */
  lemma NeighborsComplete(width: int, height: int, cells: seq<Cell<CellType>>, p: Point, q: Point)
    requires WellPlaced(width, height, cells)
    requires q in Around(p) && 0 <= q.x < width && 0 <= q.y < height
    requires CellAt(width, cells, q).Some? && CellAt(width, cells, q).value.cellType == Empty
    ensures |Neighbors(width, cells, p)| <= 8
    ensures q in Neighbors(width, cells, p)
  {
    LookupInside(width, height, cells, q);
    assert Yields(width, cells, Visitable, q, q);
  }

  /** The search problem `Grid::astar` solves on the given cells. */
  function PathProblem(width: int, cells: seq<Cell<CellType>>, start: Point, target: Point): (pr: Problem)
    ensures pr.Valid()
  {
    Problem(start, target, p => Neighbors(width, cells, p), p => CellCost(width, cells, p))
  }

  /** Every point of a path the search returns is a floor cell of the kitchen. */
  lemma PathCrossesFloorOnly(width: int, height: int, cells: seq<Cell<CellType>>, start: Point, target: Point, fuel: nat)
    requires WellPlaced(width, height, cells)
    ensures var r := Search(PathProblem(width, cells, start, target), fuel);
      r.Ok? ==> forall k :: 0 <= k < |r.value| ==>
        CellAt(width, cells, r.value[k]).Some? && CellAt(width, cells, r.value[k]).value.cellType == Empty
  {
    var pr := PathProblem(width, cells, start, target);
    var r := Search(pr, fuel);
    if r.Ok? {
      forall k | 0 <= k < |r.value|
        ensures CellAt(width, cells, r.value[k]).Some? && CellAt(width, cells, r.value[k]).value.cellType == Empty
      {
        var prev := if k == 0 then start else r.value[k - 1];
        assert r.value[k] in Neighbors(width, cells, prev);
        NeighborIsFloor(width, height, cells, prev, r.value[k]);
      }
    }
  }

  /** The kitchen as `Grid` holds it. */
  class Grid {
    var height: int
    var width: int
    var cells: seq<Cell<CellType>>

    ghost predicate Valid()
      reads this
    {
      WellPlaced(width, height, cells)
    }

    /** `Grid::new(w, h)`: `w * h` floor cells, row by row. */
    constructor (w: int, h: int)
      requires w >= 0 && h >= 0
      ensures Valid() && width == w && height == h && cells == Blank(w, h, Empty)
    {
      var cs: seq<Cell<CellType>> := [];
      for y := 0 to h
        invariant |cs| == w * y
        invariant forall i :: 0 <= i < |cs| ==> cs[i] == Cell(Point(i % w, i / w), Empty)
      {
        for x := 0 to w
          invariant |cs| == w * y + x
          invariant forall i :: 0 <= i < |cs| ==> cs[i] == Cell(Point(i % w, i / w), Empty)
        {
          DivUnique(w, y, x);
          cs := cs + [Cell(Point(x, y), Empty)];
        }
      }
      height := h;
      width := w;
      cells := cs;
    }

    /** `Grid::set_cell_type`: a no-op when the flat index is outside the vector. */
    method SetCellType(p: Point, t: CellType)
      requires Valid()
      modifies this
      ensures Valid() && width == old(width) && height == old(height)
      ensures cells == SetType(old(width), old(cells), p, t)
    {
      SetTypeWellPlaced(width, height, cells, p, t);
      cells := SetType(width, cells, p, t);
    }

    /** `Grid::get_neighbors_points`. */
    method GetNeighborsPoints(p: Point) returns (r: seq<Point>)
      ensures r == Neighbors(width, cells, p)
    {
      r := CollectNeighbours(width, cells, Around(p), Visitable);
    }

    /** `Grid::astar` on the current cells. */
    method Astar(start: Point, target: Point, fuel: nat) returns (r: Result<seq<Point>, Failure>)
      ensures r == Search(PathProblem(width, cells, start, target), fuel)
    {
      r := FindPath(PathProblem(width, cells, start, target), fuel);
    }
  }

  /** The oven: what it holds, its timer and where it stands. */
  datatype Oven = OvenState(content: Option<Items.ItemType>, timer: int, pos: Point)

  /** `Oven::new(pos)`: empty, timer at 0. */
  function NewOven(pos: Point): Oven
  {
    OvenState(None, 0, pos)
  }

  /** A customer order. */
  datatype Command = Command(id: int, order: seq<Items.ItemType>, award: int)

  /** A table that holds items. */
  datatype Table = Table(items: seq<Items.ItemType>, pos: Point)

  /** The item a crate cell hands out, for the five crate kinds `decode_row` registers. */
  function CrateItem(t: CellType): Option<Items.ItemType>
  {
    match t
    case DishWasher => Some(Items.Dish)
    case Blueberries => Some(Items.Blueberries)
    case IceCream => Some(Items.IceCream)
    case Strawberries => Some(Items.Strawberries)
    case Dough => Some(Items.Dough)
    case _ => None
  }

  /** The map character of the crate handing out `item`, if there is such a crate. */
  function CrateChar(item: Items.ItemType): (r: Option<char>)
    ensures forall c :: CrateItem(FromChar(c)) == Some(item) <==> r == Some(c)
  {
    match item
    case Dish => Some('D')
    case Blueberries => Some('B')
    case IceCream => Some('I')
    case Strawberries => Some('S')
    case Dough => Some('H')
    case _ => None
  }

  function Lookup<K, V>(m: map<K, V>, k: K): Option<V>
  {
    if k in m then Some(m[k]) else None
  }

  /** The crate position for `item` once row `y` is read: its last crate in the row, else the one known before. */
  function Stocked(crates: map<Items.ItemType, Point>, row: string, y: int, item: Items.ItemType): Option<Point>
  {
    match CrateChar(item)
    case None => Lookup(crates, item)
    case Some(ch) =>
      match LastIndexOf(row, ch)
      case Some(x) => Some(Point(x, y))
      case None => Lookup(crates, item)
  }

  /** The positions in row `y` of the character `c`, left to right. */
  function PointsOf(row: string, y: int, c: char): (r: seq<Point>)
    ensures forall p :: p in r <==> p.y == y && 0 <= p.x < |row| && row[p.x] == c
    ensures forall i, j :: 0 <= i < j < |r| ==> r[i].x < r[j].x
  {
    if row == [] then []
    else
      var x := |row| - 1;
      var init := PointsOf(row[..x], y, c);
      assert forall j :: 0 <= j < x ==> row[..x][j] == row[j];
      init + (if row[x] == c then [Point(x, y)] else [])
  }

  /** Reading one more character of the row. */
  lemma RowStep(crates: map<Items.ItemType, Point>, row: string, y: int, x: nat)
    requires x < |row|
    ensures forall c :: PointsOf(row[..x + 1], y, c) == PointsOf(row[..x], y, c) + (if row[x] == c then [Point(x, y)] else [])
    ensures forall item :: Stocked(crates, row[..x + 1], y, item) == (if CrateItem(FromChar(row[x])) == Some(item) then Some(Point(x, y)) else Stocked(crates, row[..x], y, item))
  {
    assert row[..x + 1][..x] == row[..x];
    forall item ensures Stocked(crates, row[..x + 1], y, item)
      == if CrateItem(FromChar(row[x])) == Some(item) then Some(Point(x, y)) else Stocked(crates, row[..x], y, item)
    {
      if CrateChar(item).Some? {
        LastIndexOfStep(row, x, CrateChar(item).value);
      }
    }
  }

  /**
   * The windows, choppers, crates and oven registered by reading `row` as
   * row `y`, starting from `w0`, `c0`, `k0` and `o0`.
   */
  ghost predicate Registered(row: string, y: int,
                             w0: seq<Point>, c0: seq<Point>, k0: map<Items.ItemType, Point>, o0: Option<Oven>,
                             w: seq<Point>, c: seq<Point>, k: map<Items.ItemType, Point>, o: Option<Oven>)
  {
    && w == w0 + PointsOf(row, y, 'W')
    && c == c0 + PointsOf(row, y, 'C')
    && (forall item :: Lookup(k, item) == Stocked(k0, row, y, item))
    && o == if 'O' in row then Some(NewOven(Point(LastIndexOf(row, 'O').value, y))) else o0
  }

  lemma RegisteredStep(row: string, y: int, x: nat,
                       w0: seq<Point>, c0: seq<Point>, k0: map<Items.ItemType, Point>, o0: Option<Oven>,
                       w: seq<Point>, c: seq<Point>, k: map<Items.ItemType, Point>, o: Option<Oven>,
                       w': seq<Point>, c': seq<Point>, k': map<Items.ItemType, Point>, o': Option<Oven>)
    requires x < |row| && Registered(row[..x], y, w0, c0, k0, o0, w, c, k, o)
    requires w' == w + (if row[x] == 'W' then [Point(x, y)] else [])
    requires c' == c + (if row[x] == 'C' then [Point(x, y)] else [])
    requires k' == if CrateItem(FromChar(row[x])).Some? then k[CrateItem(FromChar(row[x])).value := Point(x, y)] else k
    requires o' == if row[x] == 'O' then Some(NewOven(Point(x, y))) else o
    ensures Registered(row[..x + 1], y, w0, c0, k0, o0, w', c', k', o')
  {
    RowStep(k0, row, y, x);
    LastIndexOfStep(row, x, 'O');
  }

  /** The kitchen bot's state, as far as the operations below use it. */
  class Game {
    const grid: Grid
    var windows: seq<Point>
    var choppers: seq<Point>
    var oven: Option<Oven>
    var crates: map<Items.ItemType, Point>
    var commands: seq<Command>
    var tables: seq<Table>
    var partnerPos: Option<Point>

    ghost predicate Valid()
      reads this, grid
    {
      grid.Valid()
    }

    /** `Game::new(w, h)`. */
    constructor (w: int, h: int)
      requires w >= 0 && h >= 0
      ensures Valid() && fresh(grid)
      ensures grid.width == w && grid.height == h && grid.cells == Blank(w, h, Empty)
      ensures windows == [] && choppers == [] && oven == None && crates == map[]
      ensures commands == [] && tables == [] && partnerPos == None
    {
      grid := new Grid(w, h);
      windows := [];
      choppers := [];
      oven := None;
      crates := map[];
      commands := [];
      tables := [];
      partnerPos := None;
    }

    /**
     * `Game::set_partner_pos`: the partner's previous cell becomes floor
     * again, then the new one is marked Partner.
     */
    method SetPartnerPos(p: Point)
      requires Valid()
      modifies grid, this
      ensures Valid() && grid.width == old(grid.width) && grid.height == old(grid.height)
      ensures partnerPos == Some(p)
      ensures grid.cells == SetType(grid.width, Vacated(grid.width, old(grid.cells), old(partnerPos)), p, Partner)
      ensures windows == old(windows) && choppers == old(choppers) && oven == old(oven) && crates == old(crates)
      ensures commands == old(commands) && tables == old(tables)
    {
      if partnerPos.Some? {
        grid.SetCellType(partnerPos.value, Empty);
      }
      partnerPos := Some(p);
      grid.SetCellType(p, Partner);
    }

    /** `Game::decode_row`: paints row `y` and registers its windows, crates, choppers and oven. */
    method DecodeRow(y: int, row: string)
      requires Valid()
      modifies grid, this
      ensures Valid() && grid.width == old(grid.width) && grid.height == old(grid.height)
      ensures grid.cells == PaintRow(old(grid.width), old(grid.cells), y, row, FromChar)
      ensures Registered(row, y, old(windows), old(choppers), old(crates), old(oven), windows, choppers, crates, oven)
      ensures commands == old(commands) && tables == old(tables) && partnerPos == old(partnerPos)
    {
      for x := 0 to |row|
        invariant Valid() && grid.width == old(grid.width) && grid.height == old(grid.height)
        invariant grid.cells == PaintRow(old(grid.width), old(grid.cells), y, row[..x], FromChar)
        invariant Registered(row[..x], y, old(windows), old(choppers), old(crates), old(oven), windows, choppers, crates, oven)
        invariant commands == old(commands) && tables == old(tables) && partnerPos == old(partnerPos)
      {
        PaintRowStep(grid.width, old(grid.cells), y, row, FromChar, x);
        ghost var (w, c, k, o) := (windows, choppers, crates, oven);
        DecodeCell(Point(x, y), row[x]);
        RegisteredStep(row, y, x, old(windows), old(choppers), old(crates), old(oven), w, c, k, o, windows, choppers, crates, oven);
      }
      assert row[..|row|] == row;
    }

    /** The body of the `decode_row` loop for the character `c` at `pos`. */
    method DecodeCell(pos: Point, c: char)
      requires Valid()
      modifies grid, this
      ensures Valid() && grid.width == old(grid.width) && grid.height == old(grid.height)
      ensures grid.cells == SetType(old(grid.width), old(grid.cells), pos, FromChar(c))
      ensures windows == old(windows) + (if c == 'W' then [pos] else [])
      ensures choppers == old(choppers) + (if c == 'C' then [pos] else [])
      ensures crates == if CrateItem(FromChar(c)).Some? then old(crates)[CrateItem(FromChar(c)).value := pos] else old(crates)
      ensures oven == if c == 'O' then Some(NewOven(pos)) else old(oven)
      ensures commands == old(commands) && tables == old(tables) && partnerPos == old(partnerPos)
    {
      var cellType := FromChar(c);
      grid.SetCellType(pos, cellType);
      match cellType
      case Window => windows := windows + [pos];
      case Blueberries => crates := crates[Items.Blueberries := pos];
      case IceCream => crates := crates[Items.IceCream := pos];
      case DishWasher => crates := crates[Items.Dish := pos];
      case Strawberries => crates := crates[Items.Strawberries := pos];
      case Dough => crates := crates[Items.Dough := pos];
      case Chopper => choppers := choppers + [pos];
      case Oven => oven := Some(NewOven(pos));
      case _ =>
    }

    /** `Game::find_empty_space`: the first wall cell, in vector order, that no table stands on. */
    method FindEmptySpace() returns (r: Option<Point>)
      ensures r.Some? ==> exists i :: FirstFreeCounter(grid.cells, tables, i) && grid.cells[i].pos == r.value
      ensures r.None? ==> forall i :: 0 <= i < |grid.cells| ==> !FreeCounter(grid.cells[i], tables)
    {
      for i := 0 to |grid.cells|
        invariant forall j :: 0 <= j < i ==> !FreeCounter(grid.cells[j], tables)
      {
        var cell := grid.cells[i];
        if cell.cellType == Wall {
          var isTable := false;
          for t := 0 to |tables|
            invariant isTable <==> exists u :: 0 <= u < t && tables[u].pos == cell.pos
          {
            if tables[t].pos == cell.pos {
              isTable := true;
            }
          }
          if !isTable {
            return Some(cell.pos);
          }
        }
      }
      return None;
    }

    /** `Game::find_command_without_baking`: the first order that needs no croissant. */
    method FindCommandWithoutBaking() returns (r: Option<Command>)
      ensures r.Some? ==> exists i :: FirstWithoutBaking(commands, i) && commands[i] == r.value
      ensures r.None? ==> forall i :: 0 <= i < |commands| ==> Items.Croissant in commands[i].order
    {
      for i := 0 to |commands|
        invariant forall j :: 0 <= j < i ==> Items.Croissant in commands[j].order
      {
        if Items.Croissant in commands[i].order {
          continue;
        }
        return Some(commands[i]);
      }
      return None;
    }

    /**
     * `Game::find_item` with the position it would `USE`: the first table
     * holding the item and nothing else, otherwise the item's crate.
     */
    method FindItem(item: Items.ItemType) returns (r: Option<Point>)
      ensures r.Some? ==>
        || (exists i :: 0 <= i < |tables| && tables[i].items == [item] && tables[i].pos == r.value
              && forall j :: 0 <= j < i ==> tables[j].items != [item])
        || ((forall j :: 0 <= j < |tables| ==> tables[j].items != [item]) && Lookup(crates, item) == r)
      ensures r.None? ==> (forall j :: 0 <= j < |tables| ==> tables[j].items != [item]) && item !in crates
    {
      for i := 0 to |tables|
        invariant forall j :: 0 <= j < i ==> tables[j].items != [item]
      {
        var table := tables[i];
        if item in table.items {
          if |table.items| > 1 {
            continue;
          }
          SoleItem(table.items, item);
          return Some(table.pos);
        }
      }
      if item in crates {
        return Some(crates[item]);
      }
      return None;
    }
  }

  /** The cells once the partner's previous cell, if any, is floor again. */
  function Vacated(width: int, cells: seq<Cell<CellType>>, prev: Option<Point>): seq<Cell<CellType>>
  {
    if prev.Some? then SetType(width, cells, prev.value, Empty) else cells
  }

  /** A counter free for dropping something: a wall cell that no known table stands on. */
  predicate FreeCounter(c: Cell<CellType>, tables: seq<Table>)
  {
    c.cellType == Wall && forall t :: 0 <= t < |tables| ==> tables[t].pos != c.pos
  }

  /** Cell `i` is the first free counter. */
  ghost predicate FirstFreeCounter(cells: seq<Cell<CellType>>, tables: seq<Table>, i: int)
  {
    0 <= i < |cells| && FreeCounter(cells[i], tables) && forall j :: 0 <= j < i ==> !FreeCounter(cells[j], tables)
  }

  /** Order `i` is the first one without a croissant. */
  ghost predicate FirstWithoutBaking(commands: seq<Command>, i: int)
  {
    0 <= i < |commands| && Items.Croissant !in commands[i].order
    && forall j :: 0 <= j < i ==> Items.Croissant in commands[j].order
  }

  /** A table is taken by `find_item` exactly when the item is all it holds. */
  lemma SoleItem(items: seq<Items.ItemType>, item: Items.ItemType)
    ensures (item in items && |items| <= 1) <==> items == [item]
  {
  }

  /**
   * After `set_partner_pos(p)` the cell at `p` is the partner's, the
   * partner's previous cell is floor unless it is `p`, and every other cell is
   * as it was.
   */
  lemma PartnerMoves(width: int, height: int, cells: seq<Cell<CellType>>, prev: Option<Point>, p: Point)
    requires WellPlaced(width, height, cells)
    ensures var r := SetType(width, Vacated(width, cells, prev), p, Partner);
      && WellPlaced(width, height, r)
      && (CellAt(width, cells, p).Some? ==> CellAt(width, r, p) == Some(CellAt(width, cells, p).value.(cellType := Partner)))
      && (prev.Some? && Index(width, prev.value) != Index(width, p) && CellAt(width, cells, prev.value).Some? ==>
            CellAt(width, r, prev.value) == Some(CellAt(width, cells, prev.value).value.(cellType := Empty)))
      && (forall q :: Index(width, q) != Index(width, p) && (prev.None? || Index(width, q) != Index(width, prev.value)) ==>
            CellAt(width, r, q) == CellAt(width, cells, q))
  {
    var v := Vacated(width, cells, prev);
    if prev.Some? {
      SetTypeWellPlaced(width, height, cells, prev.value, Empty);
    }
    SetTypeWellPlaced(width, height, v, p, Partner);
  }
}
