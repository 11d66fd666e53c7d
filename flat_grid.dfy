/**
 * The row-major cell vector both grid bots use (`Grid` in the-labyrinth.rs
 * and in code-a-la-mode.rs): a `Vec<Cell>` of `width * height` cells, cell
 * `(x, y)` at index `width * y + x`. Lookup checks the flat index only, so
 * `x = -1` or `x = width` reaches a cell of the neighbouring row.
 */
module FlatGrid {
  import opened Wrappers
  import opened AStar

  /** A cell of either grid; `T` is that bot's cell-type enum. */
  datatype Cell<T> = Cell(pos: Point, cellType: T)

  /** `Grid::get_cell_index`. */
  function Index(width: int, p: Point): int
  {
    width * p.y + p.x
  }

  /** `Grid::get_cell`: `cells.get(index)`, None outside the vector. */
  function CellAt<T>(width: int, cells: seq<Cell<T>>, p: Point): Option<Cell<T>>
  {
    var i := Index(width, p);
    if 0 <= i < |cells| then Some(cells[i]) else None
  }

  /** The layout `Grid::new` builds: `width * height` cells, the one at index i placed at (i % width, i / width). */
  ghost predicate WellPlaced<T>(width: int, height: int, cells: seq<Cell<T>>)
  {
    && width >= 0 && height >= 0 && |cells| == width * height
    && forall i :: 0 <= i < |cells| ==> width > 0 && cells[i].pos == Point(i % width, i / width)
  }

  /** The cells of `Grid::new(w, h)`, every one of type `t`. */
  function Blank<T>(w: nat, h: nat, t: T): (r: seq<Cell<T>>)
    ensures WellPlaced(w, h, r)
    ensures forall i :: 0 <= i < |r| ==> r[i].cellType == t
  {
    if w == 0 then [] else seq(w * h, i requires 0 <= i < w * h => Cell(Point(i % w, i / w), t))
  }

  lemma MulPos(w: int, d: int)
    requires w > 0 && d >= 1
    ensures w * d >= w
  {
  }

  lemma MulSmall(w: int, d: int, e: int)
    requires w > 0 && w * d == e && -w < e < w
    ensures d == 0
  {
    if d >= 1 {
      MulPos(w, d);
    } else if d <= -1 {
      MulPos(w, -d);
    }
  }

  lemma DivUnique(w: int, y: int, x: int)
    requires w > 0 && 0 <= x < w
    ensures (w * y + x) / w == y && (w * y + x) % w == x
  {
    var i := w * y + x;
    var q, r := i / w, i % w;
    assert i == w * q + r && 0 <= r < w;
    assert w * (y - q) == r - x;
    MulSmall(w, y - q, r - x);
  }

  /** In a well-placed grid, the lookup of a point inside the rectangle finds the cell placed at that point. */
  lemma LookupInside<T>(width: int, height: int, cells: seq<Cell<T>>, p: Point)
    requires WellPlaced(width, height, cells) && 0 <= p.x < width && 0 <= p.y < height
    ensures CellAt(width, cells, p).Some? && CellAt(width, cells, p).value.pos == p
  {
    DivUnique(width, p.y, p.x);
    assert width * p.y + p.x < width * (p.y + 1) <= width * height;
  }

  /** Every cell is found again by looking up its own position. */
  lemma LookupOwnPos<T>(width: int, height: int, cells: seq<Cell<T>>, i: int)
    requires WellPlaced(width, height, cells) && 0 <= i < |cells|
    ensures CellAt(width, cells, cells[i].pos) == Some(cells[i])
  {
  }

  /** A point whose lookup finds a cell: that cell is placed at the point unless x is outside the columns. */
  lemma LookupFound<T>(width: int, height: int, cells: seq<Cell<T>>, p: Point)
    requires WellPlaced(width, height, cells) && CellAt(width, cells, p).Some? && 0 <= p.x < width
    ensures CellAt(width, cells, p).value.pos == p
  {
    DivUnique(width, p.y, p.x);
  }

  /**
   * The flat-index quirk: one column left of column 0 is the last column of
   * the row above.
   */
  lemma LeftOfFirstColumnWraps<T>(width: int, height: int, cells: seq<Cell<T>>, y: int)
    requires WellPlaced(width, height, cells) && width > 0 && 1 <= y < height
    ensures CellAt(width, cells, Point(-1, y)).Some?
    ensures CellAt(width, cells, Point(-1, y)).value.pos == Point(width - 1, y - 1)
  {
    assert Index(width, Point(-1, y)) == width * (y - 1) + (width - 1);
    DivUnique(width, y - 1, width - 1);
    assert width * (y - 1) + (width - 1) < width * y <= width * height;
  }

  /** The position a cell is placed at leads back to its own index. */
  lemma PlacedIndex(w: int, i: int)
    requires w > 0
    ensures Index(w, Point(i % w, i / w)) == i
  {
  }

  /** Two points inside the rectangle share a cell only when they are equal. */
  lemma IndexInjective(width: int, p: Point, q: Point)
    requires width > 0 && 0 <= p.x < width && 0 <= q.x < width && Index(width, p) == Index(width, q)
    ensures p == q
  {
    DivUnique(width, p.y, p.x);
    DivUnique(width, q.y, q.x);
  }

  /** `Grid::set_cell_type`: the cell at the flat index of `p` takes type `t`; nothing happens outside the vector. */
  function SetType<T>(width: int, cells: seq<Cell<T>>, p: Point, t: T): (r: seq<Cell<T>>)
    ensures |r| == |cells|
    ensures forall q :: Index(width, q) != Index(width, p) ==> CellAt(width, r, q) == CellAt(width, cells, q)
    ensures CellAt(width, cells, p).Some? ==> CellAt(width, r, p) == Some(CellAt(width, cells, p).value.(cellType := t))
    ensures CellAt(width, cells, p).None? ==> r == cells
  {
    var i := Index(width, p);
    if 0 <= i < |cells| then cells[i := cells[i].(cellType := t)] else cells
  }

  lemma SetTypeWellPlaced<T>(width: int, height: int, cells: seq<Cell<T>>, p: Point, t: T)
    requires WellPlaced(width, height, cells)
    ensures WellPlaced(width, height, SetType(width, cells, p, t))
  {
  }

  /** Whether the lookup of `q` finds a cell whose type passes `ok`, placed at `p`. */
  ghost predicate Yields<T>(width: int, cells: seq<Cell<T>>, ok: T -> bool, q: Point, p: Point)
  {
    CellAt(width, cells, q).Some? && ok(CellAt(width, cells, q).value.cellType) && CellAt(width, cells, q).value.pos == p
  }

  /**
   * The filter of `get_neighbors_points`: for each candidate in order, the
   * position stored in the cell its lookup finds, when that cell passes `ok`.
   */
  function Keep<T>(width: int, cells: seq<Cell<T>>, cands: seq<Point>, ok: T -> bool): (r: seq<Point>)
    ensures |r| <= |cands|
    ensures forall p :: p in r <==> exists q :: q in cands && Yields(width, cells, ok, q, p)
  {
    if cands == [] then []
    else
      var init := cands[..|cands| - 1];
      var q := cands[|cands| - 1];
      var rest := Keep(width, cells, init, ok);
      assert forall x :: x in cands <==> x in init || x == q;
      match CellAt(width, cells, q)
      case Some(c) =>
        if ok(c.cellType) then
          assert Yields(width, cells, ok, q, c.pos);
          rest + [c.pos]
        else rest
      case None => rest
  }

  /** The loop of `get_neighbors_points` over the candidate positions. */
  method CollectNeighbours<T>(width: int, cells: seq<Cell<T>>, cands: seq<Point>, ok: T -> bool) returns (r: seq<Point>)
    ensures r == Keep(width, cells, cands, ok)
  {
    r := [];
    for k := 0 to |cands|
      invariant r == Keep(width, cells, cands[..k], ok)
    {
      assert cands[..k + 1][..k] == cands[..k];
      var found := CellAt(width, cells, cands[k]);
      if found.Some? && ok(found.value.cellType) {
        r := r + [found.value.pos];
      }
    }
    assert cands[..|cands|] == cands;
  }

  /** The largest `i32`, the cost both grids give a cell that cannot be entered. */
  const I32Max: int := 0x7fff_ffff

  /** The cells after a `decode_row(y, row)` loop, painting one character after the other. */
  function PaintRow<T>(width: int, cells: seq<Cell<T>>, y: int, row: string, decode: char -> T): (r: seq<Cell<T>>)
    ensures |r| == |cells|
  {
    if row == [] then cells
    else
      var x := |row| - 1;
      SetType(width, PaintRow(width, cells, y, row[..x], decode), Point(x, y), decode(row[x]))
  }

  /**
   * Character x of the row, decoded, becomes the type of the cell at flat
   * index `width * y + x`; every other cell is unchanged.
   */
  lemma {:induction false} PaintRowCells<T>(width: int, cells: seq<Cell<T>>, y: int, row: string, decode: char -> T)
    ensures forall k :: 0 <= k < |cells| ==>
      PaintRow(width, cells, y, row, decode)[k]
        == if 0 <= k - width * y < |row| then cells[k].(cellType := decode(row[k - width * y])) else cells[k]
  {
    if row != [] {
      var x := |row| - 1;
      PaintRowCells(width, cells, y, row[..x], decode);
      assert forall j :: 0 <= j < x ==> row[..x][j] == row[j];
    }
  }

  /** One more character of the row. */
  lemma PaintRowStep<T>(width: int, cells: seq<Cell<T>>, y: int, row: string, decode: char -> T, x: nat)
    requires x < |row|
    ensures PaintRow(width, cells, y, row[..x + 1], decode) == SetType(width, PaintRow(width, cells, y, row[..x], decode), Point(x, y), decode(row[x]))
  {
    assert row[..x + 1][..x] == row[..x];
  }

  /** Painting keeps the layout. */
  lemma PaintRowWellPlaced<T>(width: int, height: int, cells: seq<Cell<T>>, y: int, row: string, decode: char -> T)
    requires WellPlaced(width, height, cells)
    ensures WellPlaced(width, height, PaintRow(width, cells, y, row, decode))
  {
    PaintRowCells(width, cells, y, row, decode);
  }
}
