/**
 * The level grid of `LevelManager.tilesAndObstacles`: `extraRows` hidden
 * spawn rows on top of `rowCount` visible rows, `columnCount` columns.
 * Row 0 is the top.  A cell holds nothing (`null` in the source), a tile or
 * an obstacle.
 */
module Board {
  import opened Optional

  /** `Match3Enums.TilePower`; powers are carried but have no effect. */
  datatype TilePower = Normal | HorizontalClear | VerticalClear | Bomb | ColorClear

  /** `Match3Enums.TileType`; `NoType` is the enum's `None`. */
  datatype TileType = Red | Pink | Blue | Green | Yellow | Purple | Brown | NoType

  /** `Match3Enums.ObstacleType`; `NoObstacle` is the enum's `None`. */
  datatype ObstacleType = Rock | Wood | Ice | Metal | NoObstacle

  /** One grid cell.  `hp` stands for the obstacle's float hit points, which no
      modelled code reads or changes. */
  datatype Cell =
    | Empty
    | Tile(kind: TileType, power: TilePower)
    | Obstacle(obstacle: ObstacleType, hp: int)

  datatype Pos = Pos(row: int, col: int)

  type Grid = seq<seq<Cell>>

  predicate Distinct(s: seq<TileType>)
  {
    forall i, j :: 0 <= i < j < |s| ==> s[i] != s[j]
  }

  /** The level parameters the engine reads.  `allowed` stands for
      `tileTypesAllowed`. */
  datatype Config = Config(extraRows: nat, rowCount: nat, columnCount: nat, allowed: seq<TileType>)
  {
    /** `extraRows + rowCount`, the number of grid rows. */
    function Height(): nat
    {
      extraRows + rowCount
    }

    /** At least one allowed type, and no type listed twice (they are the keys
        of a dictionary in the source). */
    predicate Valid()
    {
      |allowed| > 0 && Distinct(allowed)
    }
  }

  /** Every row has exactly `w` cells. */
  predicate Rect(g: Grid, w: nat)
  {
    forall r :: 0 <= r < |g| ==> |g[r]| == w
  }

  /** A tile as the level creates it: a normal tile of an allowed type. */
  predicate NewTile(cfg: Config, x: Cell)
  {
    x.Tile? && x.kind in cfg.allowed && x.power == Normal
  }

  /** The grid has the dimensions the level was built with. */
  predicate Shaped(cfg: Config, g: Grid)
  {
    |g| == cfg.Height() && Rect(g, cfg.columnCount)
  }

  predicate InBounds(g: Grid, p: Pos)
  {
    0 <= p.row < |g| && 0 <= p.col < |g[p.row]|
  }

  /** Two grids with the same row count and row lengths. */
  predicate SameShape(g: Grid, h: Grid)
  {
    |g| == |h| && forall r :: 0 <= r < |g| ==> |g[r]| == |h[r]|
  }

  /** Grids of the same shape have the same in-bounds positions. */
  lemma SameShapeBounds(g: Grid, h: Grid)
    requires SameShape(g, h)
    ensures forall p :: InBounds(g, p) <==> InBounds(h, p)
  {
  }

  function At(g: Grid, p: Pos): Cell
    requires InBounds(g, p)
  {
    g[p.row][p.col]
  }

  /** `GetTileAt`: the tile at a cell, or nothing when the coordinates are
      outside the grid or the cell is empty or an obstacle. */
  function GetTileAt(g: Grid, row: int, col: int): (t: Option<Cell>)
    ensures t.Some? <==> InBounds(g, Pos(row, col)) && g[row][col].Tile?
    ensures t.Some? ==> t.value == g[row][col]
  {
    if row < 0 || col < 0 || row >= |g| || col >= |g[row]| then None
    else if g[row][col].Tile? then Some(g[row][col])
    else None
  }

  /** The assignment `tilesAndObstacles[row, col] = x`. */
  function SetCell(g: Grid, p: Pos, x: Cell): (g': Grid)
    requires InBounds(g, p)
    ensures SameShape(g, g')
    ensures g'[p.row][p.col] == x
    ensures forall r, c :: 0 <= r < |g| && 0 <= c < |g[r]| && Pos(r, c) != p ==> g'[r][c] == g[r][c]
  {
    g[p.row := g[p.row][p.col := x]]
  }

  /** Reading a cell back after writing it gives what was written, and only
      that cell changes as `GetTileAt` sees it. */
  lemma GetTileAfterSet(g: Grid, p: Pos, x: Cell, row: int, col: int)
    requires InBounds(g, p)
    ensures GetTileAt(SetCell(g, p, x), row, col) ==
              if Pos(row, col) == p then (if x.Tile? then Some(x) else None)
              else GetTileAt(g, row, col)
  {
  }

  /** Positions of a `rows` by `w` block in row-major order: the order of
      the nested `for` loops that walk the grid. */
  function RowMajor(rows: nat, w: nat): (ps: seq<Pos>)
    ensures |ps| == rows * w
    ensures forall p :: p in ps <==> 0 <= p.row < rows && 0 <= p.col < w
    ensures forall i, j :: 0 <= i < j < |ps| ==> ps[i] != ps[j]
  {
    if rows == 0 then []
    else
      var prev := RowMajor(rows - 1, w);
      var last := seq(w, c => Pos(rows - 1, c));
      assert forall p: Pos | p.row == rows - 1 && 0 <= p.col < w :: p in last by {
        forall p: Pos | p.row == rows - 1 && 0 <= p.col < w ensures p in last {
          assert last[p.col] == p;
        }
      }
      prev + last
  }
}
