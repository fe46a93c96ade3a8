/**
 * Run detection and removal (`FindMatches`, `RemoveMatchedTiles`).
 *
 * `MatchSet` is the reference definition: a cell is matched when it is a tile
 * lying inside three consecutive same-type tiles of its row, or of its
 * column restricted to the scanned rows.  `FindMatches` is the source's
 * run-grouping scan, proved to compute exactly that set.
 */
module Matches {
  import opened Optional
  import opened Board

  /** A row or column as `GetTileAt` sees it: the tile type, or nothing for
      an empty cell, an obstacle or a cell off the grid. */
  type Line = seq<Option<TileType>>

  function KindAt(g: Grid, r: int, c: int): (k: Option<TileType>)
    ensures k.Some? <==> GetTileAt(g, r, c).Some?
    ensures k.Some? ==> k.value == g[r][c].kind
  {
    match GetTileAt(g, r, c)
    case None => None
    case Some(t) => Some(t.kind)
  }

  /** Row `r`, columns `0..w-1`. */
  function RowLine(g: Grid, r: int, w: nat): Line
  {
    seq(w, c => KindAt(g, r, c))
  }

  /** Column `c`, rows `from..to-1`; index `k` is row `from + k`. */
  function ColLine(g: Grid, c: int, from: nat, to: nat): Line
    requires from <= to
  {
    seq(to - from, k => KindAt(g, from + k, c))
  }

  /** Entries `s`, `s+1`, `s+2` are tiles of one type. */
  predicate Window(line: Line, s: int)
  {
    && 0 <= s && s + 2 < |line|
    && line[s].Some? && line[s + 1] == line[s] && line[s + 2] == line[s]
  }

  /** Entry `i` is covered by some window of three. */
  predicate InRun(line: Line, i: int)
  {
    Window(line, i - 2) || Window(line, i - 1) || Window(line, i)
  }

  /** `[s, e)` is a maximal run: same-type tiles that cannot be extended on
      either side. */
  predicate MaximalRun(line: Line, s: int, e: int)
  {
    && 0 <= s < e <= |line|
    && line[s].Some?
    && (forall k :: s <= k < e ==> line[k] == line[s])
    && (s == 0 || line[s - 1] != line[s])
    && (e == |line| || line[e] != line[s])
  }

  /** A cell of a maximal run is covered by a window exactly when the run
      has length three or more: runs of one or two contribute nothing. */
  lemma RunLength(line: Line, s: int, e: int, i: int)
    requires MaximalRun(line, s, e) && s <= i < e
    ensures InRun(line, i) <==> e - s >= 3
  {
    if e - s >= 3 {
      var w := if i + 2 < e then i else e - 3;
      assert line[w] == line[s] && line[w + 1] == line[s] && line[w + 2] == line[s];
      assert Window(line, w);
    } else {
      forall t | i - 2 <= t <= i
        ensures !Window(line, t)
      {
      }
    }
  }

  /** `extraRows` for gameplay scans, 0 when the spawn buffer is included. */
  function RowsStart(cfg: Config, includeExtraRows: bool): (start: nat)
    ensures start <= cfg.Height()
  {
    if includeExtraRows then 0 else cfg.extraRows
  }

  /** The matched-cell condition for cell `(r, c)`. */
  predicate IsMatched(g: Grid, w: nat, start: nat, r: int, c: int)
    requires start <= |g|
  {
    && start <= r < |g| && 0 <= c < w
    && (InRun(RowLine(g, r, w), c) || InRun(ColLine(g, c, start, |g|), r - start))
  }

  /** Reference definition of the matched set over rows `start..|g|-1`. */
  function MatchSet(g: Grid, w: nat, start: nat): (m: set<Pos>)
    requires start <= |g|
    ensures forall p :: p in m ==> start <= p.row && GetTileAt(g, p.row, p.col).Some?
  {
    assert forall r, c :: IsMatched(g, w, start, r, c) ==> GetTileAt(g, r, c).Some? by {
      forall r, c | IsMatched(g, w, start, r, c)
        ensures GetTileAt(g, r, c).Some?
      {
        MatchedIsTile(g, w, start, r, c);
      }
    }
    set r, c | start <= r < |g| && 0 <= c < w && IsMatched(g, w, start, r, c) :: Pos(r, c)
  }

  /** Only a tile can be matched: every window consists of tiles. */
  lemma MatchedIsTile(g: Grid, w: nat, start: nat, r: int, c: int)
    requires start <= |g| && IsMatched(g, w, start, r, c)
    ensures GetTileAt(g, r, c).Some?
  {
    if InRun(RowLine(g, r, w), c) {
      assert RowLine(g, r, w)[c] == KindAt(g, r, c);
    } else {
      assert ColLine(g, c, start, |g|)[r - start] == KindAt(g, r, c);
    }
  }

  lemma MatchSetMembership(g: Grid, w: nat, start: nat, r: int, c: int)
    requires start <= |g|
    ensures Pos(r, c) in MatchSet(g, w, start) <==> IsMatched(g, w, start, r, c)
  {
  }

  /** The run-grouping scan of one row or column, as `FindMatches` performs
      it: step over empty cells, extend a run while the type repeats, and
      report every cell of a run of length three or more. */
  method ScanLine(line: Line) returns (hits: set<int>)
    ensures forall i :: i in hits <==> 0 <= i < |line| && InRun(line, i)
  {
    hits := {};
    var n := |line|;
    var c := 0;
    while c < n
      invariant 0 <= c <= n
      invariant c == 0 || c == n || line[c - 1].None? || line[c] != line[c - 1]
      invariant forall i :: i in hits <==> 0 <= i < c && InRun(line, i)
    {
      if line[c].None? {
        c := c + 1;
      } else {
        var runLen := 1;
        var cc := c + 1;
        while cc < n && line[cc] == line[c]
          invariant c < cc <= n
          invariant runLen == cc - c
          invariant forall k :: c <= k < cc ==> line[k] == line[c]
        {
          runLen := runLen + 1;
          cc := cc + 1;
        }
        forall i | c <= i < cc
          ensures InRun(line, i) <==> runLen >= 3
        {
          RunLength(line, c, cc, i);
        }
        if runLen >= 3 {
          ghost var before := hits;
          var k := 0;
          while k < runLen
            invariant 0 <= k <= runLen
            invariant forall i :: i in hits <==> i in before || c <= i < c + k
          {
            hits := hits + {c + k};
            k := k + 1;
          }
        }
        // The source advances by `Mathf.Max(runLen, 1)`; `runLen` is at least 1.
        c := c + runLen;
      }
    }
  }

  /** Cell `(r, c)` lies in a horizontal run of three. */
  predicate RowHit(g: Grid, w: nat, r: int, c: int)
  {
    InRun(RowLine(g, r, w), c)
  }

  /** Cell `(r, c)` lies in a vertical run of three within rows `from..to-1`. */
  predicate ColHit(g: Grid, from: nat, to: nat, r: int, c: int)
    requires from <= to
  {
    InRun(ColLine(g, c, from, to), r - from)
  }

  /** The cells of row `r` that one horizontal scan reports. */
  method RowRuns(g: Grid, cols: nat, r: int) returns (found: set<Pos>)
    ensures forall p :: p in found <==> p.row == r && 0 <= p.col < cols && RowHit(g, cols, r, p.col)
  {
    var hits := ScanLine(RowLine(g, r, cols));
    found := set c | c in hits :: Pos(r, c);
  }

  /** The cells of column `c` that one vertical scan over rows
      `from..to-1` reports. */
  method ColRuns(g: Grid, from: nat, to: nat, c: int) returns (found: set<Pos>)
    requires from <= to
    ensures forall p :: p in found <==> p.col == c && from <= p.row < to && ColHit(g, from, to, p.row, c)
  {
    var hits := ScanLine(ColLine(g, c, from, to));
    found := set k | k in hits :: Pos(from + k, c);
    assert forall p: Pos :: p.col == c && from <= p.row < to && ColHit(g, from, to, p.row, c) ==> p.row - from in hits;
  }

  /** `FindMatches`: scan every row, then every column, over rows
      `RowsStart(cfg, includeExtraRows) .. Height()-1`, collecting the cells
      of runs of three or more into one set. */
  method FindMatches(cfg: Config, g: Grid, includeExtraRows: bool) returns (matched: set<Pos>)
    requires Shaped(cfg, g)
    ensures matched == MatchSet(g, cfg.columnCount, RowsStart(cfg, includeExtraRows))
  {
    var rowsStart := RowsStart(cfg, includeExtraRows);
    var rowsEnd := cfg.extraRows + cfg.rowCount;
    var cols := cfg.columnCount;
    matched := {};
    var r := rowsStart;
    while r < rowsEnd
      invariant rowsStart <= r <= rowsEnd
      invariant forall p :: p in matched <==>
                  rowsStart <= p.row < r && 0 <= p.col < cols && RowHit(g, cols, p.row, p.col)
    {
      var found := RowRuns(g, cols, r);
      matched := matched + found;
      r := r + 1;
    }
    var c := 0;
    while c < cols
      invariant 0 <= c <= cols
      invariant forall p :: p in matched <==>
                  && rowsStart <= p.row < rowsEnd && 0 <= p.col < cols
                  && (RowHit(g, cols, p.row, p.col) || (p.col < c && ColHit(g, rowsStart, rowsEnd, p.row, p.col)))
    {
      var found := ColRuns(g, rowsStart, rowsEnd, c);
      matched := matched + found;
      c := c + 1;
    }
    forall p | p in matched
      ensures p in MatchSet(g, cols, rowsStart)
    {
      MatchSetMembership(g, cols, rowsStart, p.row, p.col);
    }
    forall p | p in MatchSet(g, cols, rowsStart)
      ensures p in matched
    {
      MatchSetMembership(g, cols, rowsStart, p.row, p.col);
    }
  }

  /** `RemoveMatchedTiles`: every matched cell becomes empty. */
  function RemoveMatchedTiles(g: Grid, m: set<Pos>): (g': Grid)
    ensures SameShape(g, g')
    ensures forall r, c :: 0 <= r < |g| && 0 <= c < |g[r]| ==>
              g'[r][c] == if Pos(r, c) in m then Empty else g[r][c]
  {
    seq(|g|, r requires 0 <= r < |g| =>
      seq(|g[r]|, c requires 0 <= c < |g[r]| => if Pos(r, c) in m then Empty else g[r][c]))
  }

  /** A tile that survives removal was not matched and reads as before. */
  lemma Survivor(g: Grid, m: set<Pos>, r: int, c: int)
    requires KindAt(RemoveMatchedTiles(g, m), r, c).Some?
    ensures Pos(r, c) !in m
    ensures KindAt(RemoveMatchedTiles(g, m), r, c) == KindAt(g, r, c)
  {
  }

  /** A horizontal window after removal was a window before, at a cell that
      was not removed. */
  lemma RowWindowBefore(g: Grid, m: set<Pos>, r: int, w: nat, s: int)
    ensures Window(RowLine(RemoveMatchedTiles(g, m), r, w), s) ==>
              Window(RowLine(g, r, w), s) && Pos(r, s) !in m
  {
    if Window(RowLine(RemoveMatchedTiles(g, m), r, w), s) {
      Survivor(g, m, r, s);
      Survivor(g, m, r, s + 1);
      Survivor(g, m, r, s + 2);
    }
  }

  /** A vertical window after removal was a window before, at a cell that
      was not removed. */
  lemma ColWindowBefore(g: Grid, m: set<Pos>, c: int, start: nat, s: int)
    requires start <= |g|
    ensures Window(ColLine(RemoveMatchedTiles(g, m), c, start, |g|), s) ==>
              Window(ColLine(g, c, start, |g|), s) && Pos(start + s, c) !in m
  {
    if Window(ColLine(RemoveMatchedTiles(g, m), c, start, |g|), s) {
      Survivor(g, m, start + s, c);
      Survivor(g, m, start + s + 1, c);
      Survivor(g, m, start + s + 2, c);
    }
  }

  /** A horizontal window that survives removal would have been a window
      before, so its cells were matched and removed: no such window exists. */
  lemma NoRowWindowSurvives(g: Grid, w: nat, start: nat, r: int, s: int)
    requires start <= r < |g|
    requires Rect(g, w)
    ensures !Window(RowLine(RemoveMatchedTiles(g, MatchSet(g, w, start)), r, w), s)
  {
    RowWindowBefore(g, MatchSet(g, w, start), r, w, s);
    MatchSetMembership(g, w, start, r, s);
  }

  /** The same for a vertical window within the scanned rows. */
  lemma NoColWindowSurvives(g: Grid, w: nat, start: nat, c: int, s: int)
    requires start <= |g| && 0 <= c < w
    requires Rect(g, w)
    ensures !Window(ColLine(RemoveMatchedTiles(g, MatchSet(g, w, start)), c, start, |g|), s)
  {
    ColWindowBefore(g, MatchSet(g, w, start), c, start, s);
    MatchSetMembership(g, w, start, start + s, c);
  }

  /** No cell of the grid after removal lies in a horizontal run. */
  lemma NoRowRun(g: Grid, w: nat, start: nat, r: int, c: int)
    requires start <= r < |g|
    requires Rect(g, w)
    ensures !InRun(RowLine(RemoveMatchedTiles(g, MatchSet(g, w, start)), r, w), c)
  {
    NoRowWindowSurvives(g, w, start, r, c - 2);
    NoRowWindowSurvives(g, w, start, r, c - 1);
    NoRowWindowSurvives(g, w, start, r, c);
  }

  /** No cell of the grid after removal lies in a vertical run. */
  lemma NoColRun(g: Grid, w: nat, start: nat, r: int, c: int)
    requires start <= |g| && 0 <= c < w
    requires Rect(g, w)
    ensures !InRun(ColLine(RemoveMatchedTiles(g, MatchSet(g, w, start)), c, start, |g|), r - start)
  {
    NoColWindowSurvives(g, w, start, c, r - start - 2);
    NoColWindowSurvives(g, w, start, c, r - start - 1);
    NoColWindowSurvives(g, w, start, c, r - start);
  }

  /** No cell of the grid after removal is matched. */
  lemma NoCellMatched(g: Grid, w: nat, start: nat, r: int, c: int)
    requires start <= |g|
    requires Rect(g, w)
    ensures !IsMatched(RemoveMatchedTiles(g, MatchSet(g, w, start)), w, start, r, c)
  {
    if start <= r < |g| && 0 <= c < w {
      NoRowRun(g, w, start, r, c);
      NoColRun(g, w, start, r, c);
    }
  }


  /** Removing the matched cells leaves no run of three behind: every window
      of the new grid would have been a window of the old one, whose cells
      were all removed. */
  lemma RemovalClearsAllRuns(g: Grid, w: nat, start: nat)
    requires start <= |g|
    requires Rect(g, w)
    ensures MatchSet(RemoveMatchedTiles(g, MatchSet(g, w, start)), w, start) == {}
  {
    var g' := RemoveMatchedTiles(g, MatchSet(g, w, start));
    forall p
      ensures p !in MatchSet(g', w, start)
    {
      MatchSetMembership(g', w, start, p.row, p.col);
      NoCellMatched(g, w, start, p.row, p.col);
    }
  }
}
