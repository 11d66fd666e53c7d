/**
 * The back-to-the-code bot (src/bin/back-to-the-code.rs): a fixed 35 x 20
 * grid of cells owned by players (-1 when nobody owns them), the rectangle
 * perimeters the bot tries to close, the bounding corners of a set of cells,
 * and the per-turn decoding of players and grid lines.
 */
module Territory {
  import opened Wrappers
  import FlatGrid

  const Height: int := 20
  const Width: int := 35

  /** `char::default()`, the "no tag" value of `debug_char`. */
  const NoTag: char := '\0'

  /** A player: id, position and the remaining uses of the back-in-time move. */
  datatype Player = Player(id: int, x: int, y: int, backInTimeLeft: int)

  /** `Player::default()`. */
  const DefaultPlayer: Player := Player(0, 0, 0, 0)

  /** A cell: position, owner (-1 when free) and a tag used when the grid is drawn for debugging. */
  datatype Cell = Cell(x: int, y: int, playerId: int, debugChar: char)

  /** `PartialEq for Cell`: position and owner; the debug tag is ignored. */
  predicate SameCell(a: Cell, b: Cell)
  {
    a.x == b.x && a.y == b.y && a.playerId == b.playerId
  }

  /** `Cell::is_at`. */
  predicate CellIsAt(a: Cell, b: Cell)
  {
    a.x == b.x && a.y == b.y
  }

  /** `Player::is_at`. */
  predicate PlayerIsAt(p: Player, c: Cell)
  {
    p.x == c.x && p.y == c.y
  }

  /**
   * Cell equality is equality up to the debug tag, hence an equivalence;
   * equal cells are at the same place, so a player is at one exactly when at
   * the other.
   */
  lemma CellEquality(a: Cell, b: Cell, p: Player)
    ensures SameCell(a, b) <==> a.(debugChar := NoTag) == b.(debugChar := NoTag)
    ensures SameCell(a, b) ==> SameCell(b, a) && CellIsAt(a, b)
    ensures SameCell(a, b) ==> (PlayerIsAt(p, a) <==> PlayerIsAt(p, b))
    ensures PlayerIsAt(p, a) ==> (PlayerIsAt(p, b) <==> CellIsAt(a, b))
  {
  }

  predicate InBounds(x: int, y: int)
  {
    0 <= x < Width && 0 <= y < Height
  }

  /** `Grid::get_cell_index`. */
  function Index(x: int, y: int): int
  {
    y * Width + x
  }

  /** The cells of `Grid::default()`: row by row, all free and untagged. */
  function DefaultCells(): (r: seq<Cell>)
    ensures |r| == Width * Height
  {
    seq(Width * Height, i requires 0 <= i < Width * Height => Cell(i % Width, i / Width, -1, NoTag))
  }

  /** The layout every grid keeps: the cell at index i is placed at (i % 35, i / 35). */
  ghost predicate WellPlaced(cells: seq<Cell>)
  {
    |cells| == Width * Height && forall i :: 0 <= i < |cells| ==> cells[i].x == i % Width && cells[i].y == i / Width
  }

  /** A position inside the grid has an index inside the vector, and that index leads back to the position. */
  lemma IndexInside(x: int, y: int)
    requires InBounds(x, y)
    ensures 0 <= Index(x, y) < Width * Height
    ensures Index(x, y) % Width == x && Index(x, y) / Width == y
  {
    FlatGrid.DivUnique(Width, y, x);
  }

  /** Every cell of the default grid is free, untagged and placed at its own position. */
  lemma DefaultWellPlaced()
    ensures WellPlaced(DefaultCells())
    ensures forall i :: 0 <= i < Width * Height ==> DefaultCells()[i].playerId == -1 && DefaultCells()[i].debugChar == NoTag
  {
  }

  /** `Grid::get_cell`: None off the grid, else the cell at the flat index. */
  function Lookup(cells: seq<Cell>, x: int, y: int): (r: Option<Cell>)
    ensures WellPlaced(cells) ==> (r.Some? <==> InBounds(x, y))
    ensures WellPlaced(cells) && r.Some? ==> r.value.x == x && r.value.y == y
  {
    if !InBounds(x, y) then None
    else
      IndexInside(x, y);
      var i := Index(x, y);
      if i < |cells| then Some(cells[i]) else None
  }

  /** The cell at offset (rx, ry) from (x, y). */
  function Spot(cells: seq<Cell>, x: int, y: int, rx: int, ry: int): Option<Cell>
  {
    Lookup(cells, x + rx, y + ry)
  }

  /** A rectangle cannot hold a cell that is off the grid or owned by another player. */
  predicate Blocked(c: Option<Cell>, playerId: int)
  {
    c.None? || (c.value.playerId >= 0 && c.value.playerId != playerId)
  }

  predicate OnBorder(w: int, h: int, rx: int, ry: int)
  {
    rx == 0 || rx == w - 1 || ry == 0 || ry == h - 1
  }

  /** The offsets visited before (rx0, ry0) by the loops of `get_fitting_perimeter`: column by column, top down. */
  predicate Before(rx: int, ry: int, rx0: int, ry0: int)
  {
    rx < rx0 || (rx == rx0 && ry < ry0)
  }

  /** No offset of the w x h rectangle visited before (rx0, ry0) is blocked. */
  ghost predicate FitsBefore(cells: seq<Cell>, w: int, h: int, x: int, y: int, playerId: int, rx0: int, ry0: int)
  {
    forall rx, ry :: 0 <= rx < w && 0 <= ry < h && Before(rx, ry, rx0, ry0) ==> !Blocked(Spot(cells, x, y, rx, ry), playerId)
  }

  /** The border cells among the offsets visited before (rx0, ry0). */
  ghost function BorderBefore(cells: seq<Cell>, w: int, h: int, x: int, y: int, rx0: int, ry0: int): set<Cell>
  {
    set rx, ry | 0 <= rx < w && 0 <= ry < h && Before(rx, ry, rx0, ry0) && OnBorder(w, h, rx, ry) && Spot(cells, x, y, rx, ry).Some?
      :: Spot(cells, x, y, rx, ry).value
  }

  /**
   * `Grid::get_fitting_perimeter`: the w x h rectangle with top-left corner
   * (x, y) fits when none of its cells is blocked; it then yields its border
   * cells, provided one of them is still free.
   */
  ghost function FittingPerimeter(cells: seq<Cell>, w: int, h: int, x: int, y: int, playerId: int): Option<set<Cell>>
  {
    if !FitsBefore(cells, w, h, x, y, playerId, w, 0) then None
    else
      var border := BorderBefore(cells, w, h, x, y, w, 0);
      if exists c :: c in border && c.playerId <= -1 then Some(border) else None
  }

  /** A cell placed on the border of the w x h rectangle with top-left corner (x, y). */
  predicate RectangleBorder(c: Cell, w: int, h: int, x: int, y: int)
  {
    && x <= c.x < x + w && y <= c.y < y + h
    && (c.x == x || c.x == x + w - 1 || c.y == y || c.y == y + h - 1)
  }

  /**
   * In a well-placed grid a fitting perimeter is exactly the grid's cells on
   * the border of the rectangle; all of them are free or the player's own,
   * and one of them is free.
   */
  lemma PerimeterCells(cells: seq<Cell>, w: int, h: int, x: int, y: int, playerId: int)
    requires WellPlaced(cells) && FittingPerimeter(cells, w, h, x, y, playerId).Some?
    ensures var border := FittingPerimeter(cells, w, h, x, y, playerId).value;
      && (forall c :: c in border <==> RectangleBorder(c, w, h, x, y) && InBounds(c.x, c.y) && c == cells[Index(c.x, c.y)])
      && (forall c :: c in border ==> c.playerId < 0 || c.playerId == playerId)
      && (exists c :: c in border && c.playerId <= -1)
  {
    var border := FittingPerimeter(cells, w, h, x, y, playerId).value;
    forall c | c in border
      ensures RectangleBorder(c, w, h, x, y)
      ensures InBounds(c.x, c.y) && c == cells[Index(c.x, c.y)]
      ensures c.playerId < 0 || c.playerId == playerId
    {
      var rx, ry :| 0 <= rx < w && 0 <= ry < h && OnBorder(w, h, rx, ry) && Spot(cells, x, y, rx, ry) == Some(c);
      assert !Blocked(Spot(cells, x, y, rx, ry), playerId);
      IndexInside(c.x, c.y);
    }
    forall c: Cell | RectangleBorder(c, w, h, x, y) && InBounds(c.x, c.y) && c == cells[Index(c.x, c.y)]
      ensures c in border
    {
      var rx, ry := c.x - x, c.y - y;
      IndexInside(c.x, c.y);
      assert Spot(cells, x, y, rx, ry) == Some(c);
      assert OnBorder(w, h, rx, ry);
    }
  }

  /** `Grid::get_min_xy` on one coordinate: the loop's running value, -1 meaning "none yet". */
  function LowestOr(vs: seq<int>): int
  {
    if vs == [] then -1
    else
      var m := LowestOr(vs[..|vs| - 1]);
      var v := vs[|vs| - 1];
      if m == -1 || v < m then v else m
  }

  /** `Grid::get_max_xy` on one coordinate. */
  function HighestOr(vs: seq<int>): int
  {
    if vs == [] then -1
    else
      var m := HighestOr(vs[..|vs| - 1]);
      var v := vs[|vs| - 1];
      if m == -1 || v > m then v else m
  }

  /** On non-negative coordinates the sentinel loop finds the least value; -1 only for an empty list. */
  lemma {:induction false} LowestIsMin(vs: seq<int>)
    requires forall i :: 0 <= i < |vs| ==> vs[i] >= 0
    ensures LowestOr(vs) == -1 <==> vs == []
    ensures vs != [] ==> LowestOr(vs) in vs && forall i :: 0 <= i < |vs| ==> LowestOr(vs) <= vs[i]
  {
    if vs != [] {
      var init := vs[..|vs| - 1];
      LowestIsMin(init);
      assert forall i :: 0 <= i < |init| ==> init[i] == vs[i];
    }
  }

  /** On non-negative coordinates the sentinel loop finds the greatest value; -1 only for an empty list. */
  lemma {:induction false} HighestIsMax(vs: seq<int>)
    requires forall i :: 0 <= i < |vs| ==> vs[i] >= 0
    ensures HighestOr(vs) == -1 <==> vs == []
    ensures vs != [] ==> HighestOr(vs) in vs && forall i :: 0 <= i < |vs| ==> HighestOr(vs) >= vs[i]
  {
    if vs != [] {
      var init := vs[..|vs| - 1];
      HighestIsMax(init);
      assert forall i :: 0 <= i < |init| ==> init[i] == vs[i];
    }
  }

  lemma LowestSnoc(vs: seq<int>, i: nat)
    requires i < |vs|
    ensures var m := LowestOr(vs[..i]); LowestOr(vs[..i + 1]) == if m == -1 || vs[i] < m then vs[i] else m
  {
    assert vs[..i + 1][..i] == vs[..i];
  }

  lemma HighestSnoc(vs: seq<int>, i: nat)
    requires i < |vs|
    ensures var m := HighestOr(vs[..i]); HighestOr(vs[..i + 1]) == if m == -1 || vs[i] > m then vs[i] else m
  {
    assert vs[..i + 1][..i] == vs[..i];
  }

  /** On grid cells the least x and the least y are -1 only for no cells; otherwise both are taken by some cell and bound all of them from below. */
  lemma CornerMin(cells: seq<Cell>)
    requires OnGridQuadrant(cells)
    ensures (LowestOr(Xs(cells)) == -1 || LowestOr(Ys(cells)) == -1) <==> cells == []
    ensures cells != [] ==>
      (exists i :: 0 <= i < |cells| && cells[i].x == LowestOr(Xs(cells))) &&
      (exists i :: 0 <= i < |cells| && cells[i].y == LowestOr(Ys(cells))) &&
      forall i :: 0 <= i < |cells| ==> LowestOr(Xs(cells)) <= cells[i].x && LowestOr(Ys(cells)) <= cells[i].y
  {
    var xs, ys := Xs(cells), Ys(cells);
    LowestIsMin(xs);
    LowestIsMin(ys);
    if cells != [] {
      var i :| 0 <= i < |xs| && xs[i] == LowestOr(xs);
      var j :| 0 <= j < |ys| && ys[j] == LowestOr(ys);
      assert cells[i].x == LowestOr(xs) && cells[j].y == LowestOr(ys);
    }
  }

  /** On grid cells the greatest x and the greatest y are -1 only for no cells; otherwise both are taken by some cell and bound all of them from above. */
  lemma CornerMax(cells: seq<Cell>)
    requires OnGridQuadrant(cells)
    ensures (HighestOr(Xs(cells)) == -1 || HighestOr(Ys(cells)) == -1) <==> cells == []
    ensures cells != [] ==>
      (exists i :: 0 <= i < |cells| && cells[i].x == HighestOr(Xs(cells))) &&
      (exists i :: 0 <= i < |cells| && cells[i].y == HighestOr(Ys(cells))) &&
      forall i :: 0 <= i < |cells| ==> HighestOr(Xs(cells)) >= cells[i].x && HighestOr(Ys(cells)) >= cells[i].y
  {
    var xs, ys := Xs(cells), Ys(cells);
    HighestIsMax(xs);
    HighestIsMax(ys);
    if cells != [] {
      var i :| 0 <= i < |xs| && xs[i] == HighestOr(xs);
      var j :| 0 <= j < |ys| && ys[j] == HighestOr(ys);
      assert cells[i].x == HighestOr(xs) && cells[j].y == HighestOr(ys);
    }
  }

  function Xs(cells: seq<Cell>): (r: seq<int>)
    ensures |r| == |cells| && forall i :: 0 <= i < |cells| ==> r[i] == cells[i].x
  {
    seq(|cells|, i requires 0 <= i < |cells| => cells[i].x)
  }

  function Ys(cells: seq<Cell>): (r: seq<int>)
    ensures |r| == |cells| && forall i :: 0 <= i < |cells| ==> r[i] == cells[i].y
  {
    seq(|cells|, i requires 0 <= i < |cells| => cells[i].y)
  }

  /** Cells with non-negative coordinates, as every grid cell has. */
  predicate OnGridQuadrant(cells: seq<Cell>)
  {
    forall i :: 0 <= i < |cells| ==> cells[i].x >= 0 && cells[i].y >= 0
  }

  /** `Grid::from_sub_grid`'s treatment of one cell: a free cell is tagged 'x'. */
  function Tagged(c: Cell): Cell
  {
    if c.playerId < 0 then c.(debugChar := 'x') else c
  }

  /**
   * The cells after copying `sub` over `cells` in order, each at the flat
   * index of its own position; None where an index falls outside the vector
   * and the Rust code panics.
   */
  function Stamped(cells: seq<Cell>, sub: seq<Cell>): (r: Option<seq<Cell>>)
    ensures r.Some? ==> |r.value| == |cells|
    decreases |sub|
  {
    if sub == [] then Some(cells)
    else
      var k := Index(sub[0].x, sub[0].y);
      if 0 <= k < |cells| then Stamped(cells[k := Tagged(sub[0])], sub[1..]) else None
  }

  /**
   * Copying cells that lie on the grid, at pairwise distinct positions, puts
   * each one (tagged when free) at its own index and leaves every other cell
   * as it was; a well-placed grid stays well placed.
   */
  lemma {:induction false} StampedCells(cells: seq<Cell>, sub: seq<Cell>)
    requires |cells| == Width * Height
    requires forall i :: 0 <= i < |sub| ==> InBounds(sub[i].x, sub[i].y)
    requires forall i, j :: 0 <= i < j < |sub| ==> !CellIsAt(sub[i], sub[j])
    ensures Stamped(cells, sub).Some?
    ensures forall i :: 0 <= i < |sub| ==>
      var k := Index(sub[i].x, sub[i].y); 0 <= k < |cells| && Stamped(cells, sub).value[k] == Tagged(sub[i])
    ensures forall k :: 0 <= k < |cells| && (forall i :: 0 <= i < |sub| ==> Index(sub[i].x, sub[i].y) != k) ==>
      Stamped(cells, sub).value[k] == cells[k]
    ensures WellPlaced(cells) ==> WellPlaced(Stamped(cells, sub).value)
    decreases |sub|
  {
    if sub != [] {
      var c := sub[0];
      var k := Index(c.x, c.y);
      IndexInside(c.x, c.y);
      var next := cells[k := Tagged(c)];
      var rest := sub[1..];
      StampedCells(next, rest);
      var r := Stamped(next, rest).value;
      forall i | 0 <= i < |sub|
        ensures 0 <= Index(sub[i].x, sub[i].y) < |cells|
      {
        IndexInside(sub[i].x, sub[i].y);
      }
      forall i | 1 <= i < |sub|
        ensures Index(sub[i].x, sub[i].y) != k
      {
        IndexInside(sub[i].x, sub[i].y);
        assert !CellIsAt(sub[0], sub[i]);
      }
      assert forall i :: 0 <= i < |rest| ==> rest[i] == sub[i + 1];
      assert r[k] == Tagged(c);
    }
  }

  /** Whitespace removed by `str::trim`: the Unicode `White_Space` property, as `char::is_whitespace` tests it. */
  predicate Whitespace(c: char)
  {
    ('\U{9}' <= c <= '\U{D}') || c == ' ' || c == '\U{85}' || c == '\U{A0}' || c == '\U{1680}'
    || ('\U{2000}' <= c <= '\U{200A}') || c == '\U{2028}' || c == '\U{2029}' || c == '\U{202F}'
    || c == '\U{205F}' || c == '\U{3000}'
  }

  /** The end of the run of whitespace starting at index i. */
  function SkipSpace(s: string, i: nat): (r: nat)
    requires i <= |s|
    ensures i <= r <= |s| && (r < |s| ==> !Whitespace(s[r]))
    ensures forall k :: i <= k < r ==> Whitespace(s[k])
    decreases |s| - i
  {
    if i < |s| && Whitespace(s[i]) then SkipSpace(s, i + 1) else i
  }

  /** The start of the run of whitespace ending at index j, not going below i. */
  function SkipSpaceBack(s: string, i: nat, j: nat): (r: nat)
    requires i <= j <= |s|
    ensures i <= r <= j && (r > i ==> !Whitespace(s[r - 1]))
    ensures forall k :: r <= k < j ==> Whitespace(s[k])
  {
    if j > i && Whitespace(s[j - 1]) then SkipSpaceBack(s, i, j - 1) else j
  }

  /** `str::trim`: the text without its leading and trailing whitespace. */
  function Trim(s: string): (r: string)
    ensures r != [] ==> !Whitespace(r[0]) && !Whitespace(r[|r| - 1])
  {
    var i := SkipSpace(s, 0);
    s[i..SkipSpaceBack(s, i, |s|)]
  }

  /** The owner a grid-line character stands for: '.' is free, a digit is that player; anything else panics. */
  function Owner(c: char): (r: Option<int>)
    ensures r.Some? ==> -1 <= r.value <= 9
    ensures r == Some(-1) <==> c == '.'
  {
    if c == '.' then Some(-1)
    else if '0' <= c <= '9' then Some(c as int - '0' as int)
    else None
  }

  /**
   * `Game::set_grid_line` on cells: each character of the row, at column
   * x, sets the owner of cell (x, y) when that cell is on the grid; Err(x)
   * names the first on-grid column whose character is neither '.' nor a digit.
   */
  function LineOwners(cells: seq<Cell>, y: int, row: string): (r: Result<seq<Cell>, nat>)
    ensures r.Ok? ==> |r.value| == |cells|
    ensures r.Err? ==> r.error < |row|
    decreases |row|
  {
    if row == [] then Ok(cells)
    else
      var x := |row| - 1;
      match LineOwners(cells, y, row[..x])
      case Err(k) => Err(k)
      case Ok(done) =>
        if Lookup(done, x, y).None? then Ok(done)
        else
          match Owner(row[x])
          case None => Err(x)
          case Some(o) => Ok(done[Index(x, y) := done[Index(x, y)].(playerId := o)])
  }

  /**
   * What a grid line does to a well-placed grid: it fails at the first
   * on-grid column holding a bad character; otherwise every on-grid column
   * sets the owner of its cell, and nothing else changes.
   */
  lemma {:induction false} LineOwnersCells(cells: seq<Cell>, y: int, row: string)
    requires WellPlaced(cells)
    ensures LineOwners(cells, y, row).Err? <==> exists x :: 0 <= x < |row| && InBounds(x, y) && Owner(row[x]).None?
    ensures LineOwners(cells, y, row).Err? ==>
      var k := LineOwners(cells, y, row).error;
      InBounds(k, y) && Owner(row[k]).None? && forall x :: 0 <= x < k && InBounds(x, y) ==> Owner(row[x]).Some?
    ensures LineOwners(cells, y, row).Ok? ==>
      var r := LineOwners(cells, y, row).value;
      WellPlaced(r) &&
      (forall i :: 0 <= i < |cells| ==> r[i].(playerId := 0) == cells[i].(playerId := 0)) &&
      (forall i :: 0 <= i < |cells| ==>
        r[i].playerId == if cells[i].y == y && cells[i].x < |row| then Owner(row[cells[i].x]).value else cells[i].playerId)
    decreases |row|
  {
    if row != [] {
      var x := |row| - 1;
      LineOwnersCells(cells, y, row[..x]);
      var prev := LineOwners(cells, y, row[..x]);
      if prev.Err? {
        LineStepErr(cells, y, row);
      } else if !InBounds(x, y) {
        LineStepOff(cells, y, row);
      } else if Owner(row[x]).None? {
        LineStepBad(cells, y, row);
      } else {
        LineStepSet(cells, y, row);
      }
    }
  }

  /** The three promises of a grid line, for the result `res` of the line `row` on `cells`. */
  ghost predicate LineSpec(cells: seq<Cell>, y: int, row: string, res: Result<seq<Cell>, nat>)
  {
    && (res.Err? <==> exists x :: 0 <= x < |row| && InBounds(x, y) && Owner(row[x]).None?)
    && (res.Err? ==>
      var k := res.error;
      k < |row| && InBounds(k, y) && Owner(row[k]).None? && forall x :: 0 <= x < k && InBounds(x, y) ==> Owner(row[x]).Some?)
    && (res.Ok? ==>
      var r := res.value;
      |r| == |cells| && WellPlaced(r) &&
      (forall i :: 0 <= i < |cells| ==> r[i].(playerId := 0) == cells[i].(playerId := 0)) &&
      (forall i :: 0 <= i < |cells| ==>
        r[i].playerId == if cells[i].y == y && cells[i].x < |row| then Owner(row[cells[i].x]).value else cells[i].playerId))
  }

  /** A line that failed before its last column fails at the same column. */
  lemma LineStepErr(cells: seq<Cell>, y: int, row: string)
    requires WellPlaced(cells) && row != []
    requires LineSpec(cells, y, row[..|row| - 1], LineOwners(cells, y, row[..|row| - 1]))
    requires LineOwners(cells, y, row[..|row| - 1]).Err?
    ensures LineSpec(cells, y, row, LineOwners(cells, y, row))
  {
    var init := row[..|row| - 1];
    assert forall k :: 0 <= k < |init| ==> init[k] == row[k];
    var k := LineOwners(cells, y, init).error;
    assert row[k] == init[k];
  }

  /** A row whose every on-grid column but the last holds a good character, and whose last one does too if on the grid, is clean. */
  lemma CleanSnoc(row: string, y: int)
    requires row != []
    requires !exists x :: 0 <= x < |row[..|row| - 1]| && InBounds(x, y) && Owner(row[..|row| - 1][x]).None?
    requires InBounds(|row| - 1, y) ==> Owner(row[|row| - 1]).Some?
    ensures !exists x :: 0 <= x < |row| && InBounds(x, y) && Owner(row[x]).None?
  {
    var init := row[..|row| - 1];
    forall k | 0 <= k < |row| && InBounds(k, y)
      ensures Owner(row[k]).Some?
    {
      if k < |init| {
        assert row[k] == init[k];
      }
    }
  }

  /** A last column off the grid changes nothing. */
  lemma LineStepOff(cells: seq<Cell>, y: int, row: string)
    requires WellPlaced(cells) && row != []
    requires LineSpec(cells, y, row[..|row| - 1], LineOwners(cells, y, row[..|row| - 1]))
    requires LineOwners(cells, y, row[..|row| - 1]).Ok? && !InBounds(|row| - 1, y)
    ensures LineSpec(cells, y, row, LineOwners(cells, y, row))
  {
    var x := |row| - 1;
    var init := row[..x];
    var done := LineOwners(cells, y, init).value;
    assert LineOwners(cells, y, row) == Ok(done);
    CleanSnoc(row, y);
    forall i | 0 <= i < |cells|
      ensures done[i].playerId == if cells[i].y == y && cells[i].x < |row| then Owner(row[cells[i].x]).value else cells[i].playerId
    {
      if cells[i].y == y && cells[i].x < |row| {
        assert cells[i].x != x;
        assert row[cells[i].x] == init[cells[i].x];
      }
    }
  }

  /** A bad character in an on-grid last column, after a clean prefix, fails there. */
  lemma LineStepBad(cells: seq<Cell>, y: int, row: string)
    requires WellPlaced(cells) && row != []
    requires LineSpec(cells, y, row[..|row| - 1], LineOwners(cells, y, row[..|row| - 1]))
    requires LineOwners(cells, y, row[..|row| - 1]).Ok? && InBounds(|row| - 1, y) && Owner(row[|row| - 1]).None?
    ensures LineSpec(cells, y, row, LineOwners(cells, y, row))
  {
    var x := |row| - 1;
    var init := row[..x];
    assert forall k :: 0 <= k < x ==> init[k] == row[k];
  }

  /** A good character in an on-grid last column sets the owner of that cell only. */
  lemma LineStepSet(cells: seq<Cell>, y: int, row: string)
    requires WellPlaced(cells) && row != []
    requires LineSpec(cells, y, row[..|row| - 1], LineOwners(cells, y, row[..|row| - 1]))
    requires LineOwners(cells, y, row[..|row| - 1]).Ok? && InBounds(|row| - 1, y) && Owner(row[|row| - 1]).Some?
    ensures LineSpec(cells, y, row, LineOwners(cells, y, row))
  {
    var x := |row| - 1;
    var init := row[..x];
    var done := LineOwners(cells, y, init).value;
    var idx := Index(x, y);
    var o := Owner(row[x]).value;
    IndexInside(x, y);
    var r := done[idx := done[idx].(playerId := o)];
    assert LineOwners(cells, y, row) == Ok(r);
    CleanSnoc(row, y);
    forall i | 0 <= i < |cells|
      ensures r[i].x == i % Width && r[i].y == i / Width
      ensures r[i].(playerId := 0) == cells[i].(playerId := 0)
      ensures r[i].playerId == if cells[i].y == y && cells[i].x < |row| then Owner(row[cells[i].x]).value else cells[i].playerId
    {
      if i != idx {
        assert cells[i].y != y || cells[i].x != x;
        if cells[i].y == y && cells[i].x < x {
          assert row[cells[i].x] == init[cells[i].x];
        }
      }
    }
  }

  /** `struct Grid`. */
  class Grid {
    var cells: seq<Cell>

    /** `Grid::default()`: the rows filled one cell at a time. */
    constructor()
      ensures cells == DefaultCells()
    {
      var built: seq<Cell> := [];
      for y := 0 to Height
        invariant built == DefaultCells()[..y * Width]
      {
        for x := 0 to Width
          invariant built == DefaultCells()[..y * Width + x]
        {
          IndexInside(x, y);
          built := built + [Cell(x, y, -1, NoTag)];
        }
      }
      cells := built;
    }

    /** `Grid::get_cell`. */
    function GetCell(x: int, y: int): (r: Option<Cell>)
      reads this
      ensures WellPlaced(cells) ==> (r.Some? <==> InBounds(x, y))
      ensures WellPlaced(cells) && r.Some? ==> r.value.x == x && r.value.y == y
    {
      Lookup(cells, x, y)
    }

    /** `Grid::get_cell_mut`: the index of the cell the caller may then update, None off the grid. */
    function GetCellMut(x: int, y: int): (r: Option<nat>)
      reads this
      ensures r.None? <==> GetCell(x, y).None?
      ensures r.Some? ==> r.value < |cells| && GetCell(x, y) == Some(cells[r.value])
    {
      if Lookup(cells, x, y).None? then None else Some(Index(x, y))
    }

    /** `Grid::get_fitting_perimeter`: both loops, then the search for a free border cell. */
    method GetFittingPerimeter(w: int, h: int, x: int, y: int, playerId: int) returns (r: Option<set<Cell>>)
      ensures r == FittingPerimeter(cells, w, h, x, y, playerId)
    {
      var perimeter: set<Cell> := {};
      var rx := 0;
      while rx < w
        invariant w <= 0 || rx <= w
        invariant FitsBefore(cells, w, h, x, y, playerId, rx, 0)
        invariant perimeter == BorderBefore(cells, w, h, x, y, rx, 0)
      {
        for ry := 0 to if h < 0 then 0 else h
          invariant FitsBefore(cells, w, h, x, y, playerId, rx, ry)
          invariant perimeter == BorderBefore(cells, w, h, x, y, rx, ry)
        {
          var cell := GetCell(rx + x, ry + y);
          if cell.None? || (cell.value.playerId >= 0 && cell.value.playerId != playerId) {
            assert Blocked(Spot(cells, x, y, rx, ry), playerId);
            return None;
          }
          if OnBorder(w, h, rx, ry) {
            perimeter := perimeter + {cell.value};
          }
          FitStep(cells, w, h, x, y, playerId, rx, ry);
        }
        ColumnDone(cells, w, h, x, y, playerId, rx);
        rx := rx + 1;
      }
      assert FitsBefore(cells, w, h, x, y, playerId, w, 0) && perimeter == BorderBefore(cells, w, h, x, y, w, 0) by {
        if w <= 0 {
          NothingBefore(cells, w, h, x, y, playerId, rx);
        }
      }
      var rest := perimeter;
      while rest != {}
        invariant rest <= perimeter
        invariant forall c :: c in perimeter && c !in rest ==> c.playerId > -1
        decreases |rest|
      {
        var c :| c in rest;
        if c.playerId <= -1 {
          return Some(perimeter);
        }
        rest := rest - {c};
      }
      return None;
    }

    /** `Grid::get_min_xy`: the least x and the least y, None for no cells. */
    static method GetMinXY(cells: seq<Cell>) returns (r: Option<(int, int)>)
      ensures r.Some? <==> LowestOr(Xs(cells)) != -1 && LowestOr(Ys(cells)) != -1
      ensures r.Some? ==> r.value == (LowestOr(Xs(cells)), LowestOr(Ys(cells)))
      ensures OnGridQuadrant(cells) ==> (r.None? <==> cells == [])
      ensures OnGridQuadrant(cells) && r.Some? ==>
        (exists i :: 0 <= i < |cells| && cells[i].x == r.value.0) &&
        (exists i :: 0 <= i < |cells| && cells[i].y == r.value.1) &&
        forall i :: 0 <= i < |cells| ==> r.value.0 <= cells[i].x && r.value.1 <= cells[i].y
    {
      var x, y := -1, -1;
      for i := 0 to |cells|
        invariant x == LowestOr(Xs(cells)[..i]) && y == LowestOr(Ys(cells)[..i])
      {
        LowestSnoc(Xs(cells), i);
        LowestSnoc(Ys(cells), i);
        if x == -1 || cells[i].x < x {
          x := cells[i].x;
        }
        if y == -1 || cells[i].y < y {
          y := cells[i].y;
        }
      }
      assert Xs(cells)[..|cells|] == Xs(cells) && Ys(cells)[..|cells|] == Ys(cells);
      if OnGridQuadrant(cells) {
        CornerMin(cells);
      }
      if x == -1 || y == -1 {
        return None;
      }
      return Some((x, y));
    }

    /** `Grid::get_max_xy`: the greatest x and the greatest y, None for no cells. */
    static method GetMaxXY(cells: seq<Cell>) returns (r: Option<(int, int)>)
      ensures r.Some? <==> HighestOr(Xs(cells)) != -1 && HighestOr(Ys(cells)) != -1
      ensures r.Some? ==> r.value == (HighestOr(Xs(cells)), HighestOr(Ys(cells)))
      ensures OnGridQuadrant(cells) ==> (r.None? <==> cells == [])
      ensures OnGridQuadrant(cells) && r.Some? ==>
        (exists i :: 0 <= i < |cells| && cells[i].x == r.value.0) &&
        (exists i :: 0 <= i < |cells| && cells[i].y == r.value.1) &&
        forall i :: 0 <= i < |cells| ==> r.value.0 >= cells[i].x && r.value.1 >= cells[i].y
    {
      var x, y := -1, -1;
      for i := 0 to |cells|
        invariant x == HighestOr(Xs(cells)[..i]) && y == HighestOr(Ys(cells)[..i])
      {
        HighestSnoc(Xs(cells), i);
        HighestSnoc(Ys(cells), i);
        if x == -1 || cells[i].x > x {
          x := cells[i].x;
        }
        if y == -1 || cells[i].y > y {
          y := cells[i].y;
        }
      }
      assert Xs(cells)[..|cells|] == Xs(cells) && Ys(cells)[..|cells|] == Ys(cells);
      if OnGridQuadrant(cells) {
        CornerMax(cells);
      }
      if x == -1 || y == -1 {
        return None;
      }
      return Some((x, y));
    }

    /** `Grid::from_sub_grid`: a default grid with the given cells copied in; None where the Rust code panics. */
    static method FromSubGrid(sub: seq<Cell>) returns (r: Option<Grid>)
      ensures r.None? <==> Stamped(DefaultCells(), sub).None?
      ensures r.Some? ==> fresh(r.value) && Some(r.value.cells) == Stamped(DefaultCells(), sub)
    {
      var grid := new Grid();
      for i := 0 to |sub|
        invariant fresh(grid)
        invariant Stamped(DefaultCells(), sub) == Stamped(grid.cells, sub[i..])
      {
        var cell := sub[i];
        var k := Index(cell.x, cell.y);
        assert sub[i..][1..] == sub[i + 1..];
        if !(0 <= k < |grid.cells|) {
          return None;
        }
        if cell.playerId < 0 {
          cell := cell.(debugChar := 'x');
        }
        grid.cells := grid.cells[k := cell];
      }
      return Some(grid);
    }
  }

  lemma FitStep(cells: seq<Cell>, w: int, h: int, x: int, y: int, playerId: int, rx: int, ry: int)
    requires 0 <= rx < w && 0 <= ry < h
    requires FitsBefore(cells, w, h, x, y, playerId, rx, ry)
    requires !Blocked(Spot(cells, x, y, rx, ry), playerId)
    ensures FitsBefore(cells, w, h, x, y, playerId, rx, ry + 1)
    ensures BorderBefore(cells, w, h, x, y, rx, ry + 1) ==
      BorderBefore(cells, w, h, x, y, rx, ry) + (if OnBorder(w, h, rx, ry) then {Spot(cells, x, y, rx, ry).value} else {})
  {
  }

  lemma ColumnDone(cells: seq<Cell>, w: int, h: int, x: int, y: int, playerId: int, rx: int)
    requires FitsBefore(cells, w, h, x, y, playerId, rx, if h < 0 then 0 else h)
    ensures FitsBefore(cells, w, h, x, y, playerId, rx + 1, 0)
    ensures BorderBefore(cells, w, h, x, y, rx, if h < 0 then 0 else h) == BorderBefore(cells, w, h, x, y, rx + 1, 0)
  {
  }

  lemma NothingBefore(cells: seq<Cell>, w: int, h: int, x: int, y: int, playerId: int, rx: int)
    requires w <= 0
    ensures FitsBefore(cells, w, h, x, y, playerId, w, 0) && BorderBefore(cells, w, h, x, y, w, 0) == {}
    ensures BorderBefore(cells, w, h, x, y, rx, 0) == {}
  {
  }

  /** `struct Game`: the round, the players (index 0 is the bot) and the grid. */
  class Game {
    var round: int
    var players: seq<Player>
    const grid: Grid

    /** The grid keeps the layout of `Grid::default()`. */
    ghost predicate Valid()
      reads this, grid
    {
      WellPlaced(grid.cells)
    }

    /** `Game::default()`. */
    constructor()
      ensures Valid() && round == 0 && players == [] && grid.cells == DefaultCells() && fresh(grid)
    {
      round := 0;
      players := [];
      grid := new Grid();
      DefaultWellPlaced();
    }

    /**
     * `Game::set_player_inputs` with the line already parsed into position
     * and back-in-time count: default players are pushed until `index`
     * exists, then that player is set, with id `index`.
     */
    method SetPlayerInputs(index: nat, x: int, y: int, backInTimeLeft: int)
      modifies this
      ensures |players| == if index < |old(players)| then |old(players)| else index + 1
      ensures players[index] == Player(index, x, y, backInTimeLeft)
      ensures forall i :: 0 <= i < |players| && i != index ==>
        players[i] == if i < |old(players)| then old(players)[i] else DefaultPlayer
      ensures round == old(round)
      decreases index + 1 - |players|
    {
      if index < |players| {
        players := players[index := Player(index, x, y, backInTimeLeft)];
        return;
      }
      players := players + [DefaultPlayer];
      SetPlayerInputs(index, x, y, backInTimeLeft);
    }

    /** `Game::set_grid_line`: row `index` of the grid from one input line; Err(x) where the Rust code panics. */
    method SetGridLine(index: nat, line: string) returns (r: Result<(), nat>)
      requires Valid()
      modifies grid
      ensures Valid()
      ensures r.Err? ==> LineOwners(old(grid.cells), index, Trim(line)) == Err(r.error)
      ensures r.Err? ==> r.error < |Trim(line)| && LineOwners(old(grid.cells), index, Trim(line)[..r.error]) == Ok(grid.cells)
      ensures r.Ok? ==> LineOwners(old(grid.cells), index, Trim(line)) == Ok(grid.cells)
    {
      var row := Trim(line);
      for x := 0 to |row|
        invariant LineOwners(old(grid.cells), index, row[..x]) == Ok(grid.cells)
        invariant WellPlaced(grid.cells)
      {
        assert row[..x + 1][..x] == row[..x];
        var i := grid.GetCellMut(x, index);
        if i.None? {
          continue;
        }
        var owner := Owner(row[x]);
        if owner.None? {
          LineErrorStays(old(grid.cells), index, row, x + 1);
          return Err(x);
        }
        grid.cells := grid.cells[i.value := grid.cells[i.value].(playerId := owner.value)];
        LineOwnersCells(old(grid.cells), index, row[..x + 1]);
      }
      assert row[..|row|] == row;
      return Ok(());
    }
  }

  /** Once a prefix of the row fails, the whole row fails at the same column. */
  lemma {:induction false} LineErrorStays(cells: seq<Cell>, y: int, row: string, n: nat)
    requires n <= |row| && LineOwners(cells, y, row[..n]).Err?
    ensures LineOwners(cells, y, row) == LineOwners(cells, y, row[..n])
    decreases |row| - n
  {
    if n < |row| {
      assert row[..n + 1][..n] == row[..n];
      LineErrorStays(cells, y, row, n + 1);
    } else {
      assert row[..n] == row;
    }
  }
}
