/**
 * Gravity (`FallDownTiles`, `HasEmptyCells`).  `PackColumn` is the reference
 * result of the pull-down pass on one column; `PackColumnScan` is the
 * source's loop, proved to compute it.  `FallDownTiles` repeats pack plus
 * spawn-row fill until no cell is empty, with the number of empty cells as
 * its termination measure.
 */
module Gravity {
  import opened Board
  import Refill

  /** The non-empty cells of a column, top to bottom. */
  function NonEmpty(s: seq<Cell>): (r: seq<Cell>)
    ensures |r| <= |s|
    ensures forall i :: 0 <= i < |r| ==> !r[i].Empty?
  {
    if |s| == 0 then []
    else (if s[0].Empty? then [] else [s[0]]) + NonEmpty(s[1..])
  }

  /** A column without empty cells is its own non-empty part. */
  lemma {:induction false} NonEmptyAllFull(s: seq<Cell>)
    requires forall i :: 0 <= i < |s| ==> !s[i].Empty?
    ensures NonEmpty(s) == s
  {
    if |s| > 0 {
      assert forall i :: 0 <= i < |s| - 1 ==> s[1..][i] == s[i + 1];
      NonEmptyAllFull(s[1..]);
    }
  }

  /** A column of empty cells has no non-empty part. */
  lemma {:induction false} NonEmptyAllEmpty(s: seq<Cell>)
    requires forall i :: 0 <= i < |s| ==> s[i].Empty?
    ensures NonEmpty(s) == []
  {
    if |s| > 0 {
      assert forall i :: 0 <= i < |s| - 1 ==> s[1..][i] == s[i + 1];
      NonEmptyAllEmpty(s[1..]);
    }
  }

  lemma {:induction false} NonEmptyAppend(a: seq<Cell>, b: seq<Cell>)
    ensures NonEmpty(a + b) == NonEmpty(a) + NonEmpty(b)
  {
    if |a| > 0 {
      assert (a + b)[1..] == a[1..] + b;
      NonEmptyAppend(a[1..], b);
    } else {
      assert a + b == b;
    }
  }

  /** A column has an empty cell exactly when it has fewer non-empty cells
      than cells. */
  lemma {:induction false} NonEmptyShort(s: seq<Cell>)
    ensures |NonEmpty(s)| < |s| <==> exists i :: 0 <= i < |s| && s[i].Empty?
  {
    if |s| > 0 {
      NonEmptyShort(s[1..]);
      if exists i :: 0 <= i < |s| - 1 && s[1..][i].Empty? {
        var i :| 0 <= i < |s| - 1 && s[1..][i].Empty?;
        assert s[i + 1].Empty?;
      }
      if exists i :: 0 <= i < |s| && s[i].Empty? {
        var i :| 0 <= i < |s| && s[i].Empty?;
        if i > 0 {
          assert s[1..][i - 1].Empty?;
        }
      }
    }
  }

  function Empties(n: nat): (r: seq<Cell>)
    ensures |r| == n && forall i :: 0 <= i < n ==> r[i].Empty?
  {
    seq(n, _ => Empty)
  }

  /** Non-empty cells sit contiguously at the bottom: below a non-empty cell
      there is no empty one. */
  predicate Packed(s: seq<Cell>)
  {
    forall i, j :: 0 <= i < j < |s| && !s[i].Empty? ==> !s[j].Empty?
  }

  /** Reference result of packing a column: all its empty cells on top, then
      its non-empty cells in their original top-to-bottom order. */
  function PackColumn(col: seq<Cell>): seq<Cell>
  {
    Empties(|col| - |NonEmpty(col)|) + NonEmpty(col)
  }

  /** Packing keeps the column's length and its non-empty cells in order,
      and leaves it packed. */
  lemma PackColumnSpec(col: seq<Cell>)
    ensures |PackColumn(col)| == |col|
    ensures Packed(PackColumn(col))
    ensures NonEmpty(PackColumn(col)) == NonEmpty(col)
  {
    var f := NonEmpty(col);
    NonEmptyAppend(Empties(|col| - |f|), f);
    NonEmptyAllEmpty(Empties(|col| - |f|));
    NonEmptyAllFull(f);
  }

  /** Below a packed column's top cell the column is still packed. */
  lemma PackedTail(s: seq<Cell>)
    requires Packed(s) && |s| > 0
    ensures Packed(s[1..])
  {
    var tail := s[1..];
    forall i, j | 0 <= i < j < |tail| && !tail[i].Empty?
      ensures !tail[j].Empty?
    {
      assert tail[i] == s[i + 1] && tail[j] == s[j + 1];
    }
  }

  /** A packed column whose top cell is occupied has no empty cell. */
  lemma PackedFull(s: seq<Cell>)
    requires Packed(s) && |s| > 0 && !s[0].Empty?
    ensures forall j :: 0 <= j < |s| ==> !s[j].Empty?
  {
    forall j | 0 < j < |s|
      ensures !s[j].Empty?
    {
      assert 0 < j;
    }
  }

  /** An empty cell on top of a packed column of that shape gives a column
      of the same shape. */
  lemma PackedConsEmpty(s: seq<Cell>)
    requires |s| > 0 && s[0].Empty? && s[1..] == PackColumn(s[1..])
    ensures s == PackColumn(s)
  {
    var tail := s[1..];
    var f := NonEmpty(tail);
    assert NonEmpty(s) == [] + f;
    var k := |tail| - |f|;
    EmptiesCons(k);
    assert s == [s[0]] + tail;
    assert s == ([Empty] + Empties(k)) + f;
  }

  lemma EmptiesCons(k: nat)
    ensures Empties(k + 1) == [Empty] + Empties(k)
  {
  }


  /** A packed column is its empty prefix followed by its non-empty cells. */
  lemma {:induction false} PackedShape(s: seq<Cell>)
    requires Packed(s)
    ensures s == PackColumn(s)
  {
    if |s| > 0 {
      if s[0].Empty? {
        PackedTail(s);
        PackedShape(s[1..]);
        PackedConsEmpty(s);
      } else {
        PackedFull(s);
        NonEmptyAllFull(s);
        assert Empties(0) + s == s;
      }
    }
  }

  /** Length, order of the non-empty cells and packedness determine the
      result: anything with those three properties is `PackColumn(col)`. */
  lemma PackedIsUnique(s: seq<Cell>, col: seq<Cell>)
    requires Packed(s) && |s| == |col| && NonEmpty(s) == NonEmpty(col)
    ensures s == PackColumn(col)
  {
    PackedShape(s);
  }

  /** A stretch with a single non-empty cell contributes just that cell. */
  lemma SingleNonEmpty(m: seq<Cell>, i: int)
    requires 0 <= i < |m| && !m[i].Empty?
    requires forall k :: 0 <= k < |m| && k != i ==> m[k].Empty?
    ensures NonEmpty(m) == [m[i]]
  {
    var a, b := m[..i], m[i + 1..];
    assert m == a + [m[i]] + b;
    assert forall k :: 0 <= k < |a| ==> a[k].Empty? by {
      forall k | 0 <= k < |a|
        ensures a[k].Empty?
      {
        assert a[k] == m[k];
      }
    }
    assert forall k :: 0 <= k < |b| ==> b[k].Empty? by {
      forall k | 0 <= k < |b|
        ensures b[k].Empty?
      {
        assert b[k] == m[i + 1 + k];
      }
    }
    NonEmptyAllEmpty(a);
    NonEmptyAllEmpty(b);
    assert NonEmpty([m[i]]) == [m[i]];
    NonEmptyAppend3(a, [m[i]], b);
  }

  /** Moving a non-empty cell down over a gap of empty cells keeps the order
      of the non-empty cells. */
  lemma MoveKeepsOrder(s: seq<Cell>, rr: int, r: int)
    requires 0 <= rr < r < |s|
    requires !s[rr].Empty?
    requires forall k :: rr < k <= r ==> s[k].Empty?
    ensures NonEmpty(s[r := s[rr]][rr := Empty]) == NonEmpty(s)
  {
    var t := s[r := s[rr]][rr := Empty];
    var a, b := s[..rr], s[r + 1..];
    var ms, mt := s[rr..r + 1], t[rr..r + 1];
    assert s == a + ms + b;
    assert t == a + mt + b;
    assert forall k :: 0 <= k < |ms| ==> ms[k] == s[rr + k];
    assert forall k :: 0 <= k < |mt| ==> mt[k] == t[rr + k];
    SingleNonEmpty(ms, 0);
    SingleNonEmpty(mt, r - rr);
    NonEmptyAppend3(a, ms, b);
    NonEmptyAppend3(a, mt, b);
  }

  lemma NonEmptyAppend3(a: seq<Cell>, m: seq<Cell>, b: seq<Cell>)
    ensures NonEmpty(a + m + b) == NonEmpty(a) + NonEmpty(m) + NonEmpty(b)
  {
    NonEmptyAppend(a + m, b);
    NonEmptyAppend(a, m);
  }

  /** The pull-down pass of `FallDownTiles` on one column: from the bottom
      row up, an empty cell takes the nearest non-empty cell above it, which
      becomes empty. */
  method PackColumnScan(col: seq<Cell>) returns (out: seq<Cell>)
    ensures out == PackColumn(col)
  {
    out := col;
    var rows := |col|;
    var r := rows - 1;
    while r >= 0
      invariant -1 <= r < rows
      invariant |out| == rows
      invariant NonEmpty(out) == NonEmpty(col)
      invariant forall i, j :: r < i < j < rows && !out[i].Empty? ==> !out[j].Empty?
      invariant forall j, k :: 0 <= j <= r < k < rows && out[k].Empty? ==> out[j].Empty?
    {
      if out[r].Empty? {
        var rr := r - 1;
        while rr >= 0 && out[rr].Empty?
          invariant -1 <= rr < r
          invariant forall k :: rr < k <= r ==> out[k].Empty?
        {
          rr := rr - 1;
        }
        if rr >= 0 {
          MoveKeepsOrder(out, rr, r);
          out := out[r := out[rr]][rr := Empty];
        }
      }
      r := r - 1;
    }
    PackedIsUnique(out, col);
  }

  /** Column `c`, top to bottom. */
  function ColumnOf(g: Grid, c: nat): (col: seq<Cell>)
    requires forall r :: 0 <= r < |g| ==> c < |g[r]|
    ensures |col| == |g| && forall r :: 0 <= r < |g| ==> col[r] == g[r][c]
  {
    seq(|g|, r requires 0 <= r < |g| => g[r][c])
  }

  /** Two rectangular grids with equal columns are equal. */
  lemma ColumnsDetermineGrid(g: Grid, h: Grid, w: nat)
    requires Rect(g, w) && Rect(h, w) && |g| == |h|
    requires forall c :: 0 <= c < w ==> ColumnOf(g, c) == ColumnOf(h, c)
    ensures g == h
  {
    forall r | 0 <= r < |g|
      ensures g[r] == h[r]
    {
      forall c | 0 <= c < w
        ensures g[r][c] == h[r][c]
      {
        assert ColumnOf(g, c)[r] == g[r][c];
      }
    }
  }

  /** Reference result of the pull-down pass on the whole grid: every column
      packed on its own. */
  function PackGrid(g: Grid, w: nat): (h: Grid)
    requires Rect(g, w)
    ensures Rect(h, w) && |h| == |g|
    ensures forall c :: 0 <= c < w ==> ColumnOf(h, c) == PackColumn(ColumnOf(g, c))
  {
    var h := seq(|g|, r requires 0 <= r < |g| => seq(w, c requires 0 <= c < w => PackColumn(ColumnOf(g, c))[r]));
    assert forall c :: 0 <= c < w ==> |PackColumn(ColumnOf(g, c))| == |g| by {
      forall c | 0 <= c < w
        ensures |PackColumn(ColumnOf(g, c))| == |g|
      {
        PackColumnSpec(ColumnOf(g, c));
      }
    }
    h
  }

  /** After the pull-down pass every column is packed and keeps its
      non-empty cells in order; obstacles fall like tiles. */
  lemma PackGridSpec(g: Grid, w: nat, c: nat)
    requires Rect(g, w) && c < w
    ensures Packed(ColumnOf(PackGrid(g, w), c))
    ensures NonEmpty(ColumnOf(PackGrid(g, w), c)) == NonEmpty(ColumnOf(g, c))
  {
    PackColumnSpec(ColumnOf(g, c));
  }

  /** Replace column `c` by `col`. */
  function SetColumn(g: Grid, c: nat, col: seq<Cell>): (h: Grid)
    requires forall r :: 0 <= r < |g| ==> c < |g[r]|
    requires |col| == |g|
    ensures SameShape(g, h)
    ensures forall r, k :: 0 <= r < |g| && 0 <= k < |g[r]| ==> h[r][k] == if k == c then col[r] else g[r][k]
  {
    seq(|g|, r requires 0 <= r < |g| => g[r][c := col[r]])
  }

  /** The pull-down pass as the source runs it: column by column, each
      column by `PackColumnScan`. */
  method FallDownPass(cfg: Config, g: Grid) returns (h: Grid)
    requires Shaped(cfg, g)
    ensures h == PackGrid(g, cfg.columnCount)
  {
    var cols := cfg.columnCount;
    h := g;
    var c := 0;
    while c < cols
      invariant 0 <= c <= cols
      invariant Rect(h, cols) && |h| == |g|
      invariant forall k :: 0 <= k < c ==> ColumnOf(h, k) == PackColumn(ColumnOf(g, k))
      invariant forall k :: c <= k < cols ==> ColumnOf(h, k) == ColumnOf(g, k)
    {
      var packed := PackColumnScan(ColumnOf(h, c));
      PackColumnSpec(ColumnOf(h, c));
      var h' := SetColumn(h, c, packed);
      assert forall k :: 0 <= k < cols && k != c ==> ColumnOf(h', k) == ColumnOf(h, k);
      assert ColumnOf(h', c) == packed;
      h := h';
      c := c + 1;
    }
    ColumnsDetermineGrid(h, PackGrid(g, cols), cols);
  }

  /** Number of empty cells in column `c`. */
  function Gaps(g: Grid, c: nat): nat
    requires forall r :: 0 <= r < |g| ==> c < |g[r]|
  {
    |g| - |NonEmpty(ColumnOf(g, c))|
  }

  function Sum(s: seq<nat>): nat
  {
    if |s| == 0 then 0 else Sum(s[..|s| - 1]) + s[|s| - 1]
  }

  lemma {:induction false} SumPositive(s: seq<nat>)
    ensures Sum(s) > 0 <==> exists i :: 0 <= i < |s| && s[i] > 0
  {
    if |s| > 0 {
      var init := s[..|s| - 1];
      SumPositive(init);
      assert forall i :: 0 <= i < |init| ==> init[i] == s[i];
    }
  }

  /** Pointwise no larger gives no larger a sum; strictly smaller at `i0`
      as well gives a strictly smaller sum. */
  lemma {:induction false} SumMonotone(a: seq<nat>, b: seq<nat>, i0: int)
    requires |a| == |b| && forall i :: 0 <= i < |a| ==> a[i] <= b[i]
    ensures Sum(a) <= Sum(b)
    ensures 0 <= i0 < |a| && a[i0] < b[i0] ==> Sum(a) < Sum(b)
  {
    if |a| > 0 {
      var n := |a| - 1;
      assert forall i :: 0 <= i < n ==> a[..n][i] == a[i] && b[..n][i] == b[i];
      SumMonotone(a[..n], b[..n], i0);
    }
  }

  /** Empty cells of each column, left to right. */
  function ColumnGaps(g: Grid, w: nat): (s: seq<nat>)
    requires Rect(g, w)
    ensures |s| == w && forall c :: 0 <= c < w ==> s[c] == Gaps(g, c)
  {
    seq(w, c requires 0 <= c < w => Gaps(g, c))
  }

  /** Number of empty cells: the termination measure of the refill loop. */
  function EmptyCount(g: Grid, w: nat): nat
    requires Rect(g, w)
  {
    Sum(ColumnGaps(g, w))
  }

  /** A column has gaps exactly when one of its cells is empty. */
  lemma GapsPositive(g: Grid, c: nat)
    requires forall r :: 0 <= r < |g| ==> c < |g[r]|
    ensures Gaps(g, c) > 0 <==> exists r :: 0 <= r < |g| && g[r][c].Empty?
  {
    var col := ColumnOf(g, c);
    NonEmptyShort(col);
    if exists r :: 0 <= r < |g| && g[r][c].Empty? {
      var r :| 0 <= r < |g| && g[r][c].Empty?;
      assert col[r].Empty?;
    }
  }

  lemma EmptyCountPositive(g: Grid, w: nat)
    requires Rect(g, w)
    ensures EmptyCount(g, w) > 0 <==> exists r, c :: 0 <= r < |g| && 0 <= c < w && g[r][c].Empty?
  {
    var s := ColumnGaps(g, w);
    SumPositive(s);
    if exists r, c :: 0 <= r < |g| && 0 <= c < w && g[r][c].Empty? {
      var r, c :| 0 <= r < |g| && 0 <= c < w && g[r][c].Empty?;
      GapsPositive(g, c);
      assert s[c] > 0;
    }
    if EmptyCount(g, w) > 0 {
      var c :| 0 <= c < w && s[c] > 0;
      GapsPositive(g, c);
    }
  }

  /** `HasEmptyCells`: some cell of the grid is empty. */
  function HasEmptyCells(g: Grid, w: nat): (b: bool)
    requires Rect(g, w)
    ensures b <==> EmptyCount(g, w) > 0
  {
    EmptyCountPositive(g, w);
    exists r, c | 0 <= r < |g| && 0 <= c < w :: g[r][c].Empty?
  }

  /** Turning empty cells into non-empty ones, and nothing else, never
      lowers the non-empty count, and raises it if any cell changed. */
  lemma {:induction false} NonEmptyGrows(s: seq<Cell>, t: seq<Cell>)
    requires |s| == |t|
    requires forall i :: 0 <= i < |s| ==> t[i] == s[i] || (s[i].Empty? && !t[i].Empty?)
    ensures |NonEmpty(s)| <= |NonEmpty(t)|
    ensures (exists i :: 0 <= i < |s| && s[i].Empty? && !t[i].Empty?) ==> |NonEmpty(s)| < |NonEmpty(t)|
  {
    if |s| > 0 {
      NonEmptyGrows(s[1..], t[1..]);
      if exists i :: 0 <= i < |s| && s[i].Empty? && !t[i].Empty? {
        var i :| 0 <= i < |s| && s[i].Empty? && !t[i].Empty?;
        if i > 0 {
          assert s[1..][i - 1].Empty? && !t[1..][i - 1].Empty?;
        }
      }
    }
  }

  /** `col` ends with the non-empty cells of `before`, in order. */
  predicate KeepsBottom(before: seq<Cell>, col: seq<Cell>)
  {
    |NonEmpty(before)| <= |col| && col[|col| - |NonEmpty(before)|..] == NonEmpty(before)
  }

  /** Every column of `h` ends with the non-empty cells of the same column
      of `g`, in order. */
  predicate KeepsBottoms(g: Grid, h: Grid, w: nat)
    requires Rect(g, w) && Rect(h, w)
  {
    forall c :: 0 <= c < w ==> KeepsBottom(ColumnOf(g, c), ColumnOf(h, c))
  }

  /** One round of `FallDownTiles`: the pull-down pass, then filling the
      spawn rows. */
  function Round(cfg: Config, g: Grid, rng: nat -> nat, t: nat): (res: (Grid, nat))
    requires cfg.Valid() && Shaped(cfg, g)
    ensures Shaped(cfg, res.0)
  {
    Refill.FillExtraRowsWithNewTiles(cfg, PackGrid(g, cfg.columnCount), rng, t)
  }

  /** A packed column after the spawn-row fill: empty cells may have been
      filled and nothing else changed. */
  lemma FilledColumn(pc: seq<Cell>, fc: seq<Cell>, f: seq<Cell>, k: nat)
    requires pc == Empties(k) + f && |fc| == |pc|
    requires forall i :: 0 <= i < |f| ==> !f[i].Empty?
    requires forall i :: 0 <= i < |pc| ==> fc[i] == pc[i] || (pc[i].Empty? && !fc[i].Empty?)
    requires k > 0 ==> !fc[0].Empty?
    ensures |NonEmpty(pc)| <= |NonEmpty(fc)|
    ensures k > 0 ==> |NonEmpty(pc)| < |NonEmpty(fc)|
    ensures fc[k..] == f
  {
    NonEmptyGrows(pc, fc);
    forall i | k <= i < |fc|
      ensures fc[i] == f[i - k]
    {
      assert pc[i] == f[i - k];
    }
    if k > 0 {
      assert pc[0].Empty?;
    }
  }

  /** One column through one round: no new gaps, one gap fewer if it had
      any (its top cell is empty after packing and lies in a spawn row), and
      its non-empty cells still at the bottom in order. */
  lemma RoundColumn(cfg: Config, g: Grid, rng: nat -> nat, t: nat, c: nat)
    requires cfg.Valid() && Shaped(cfg, g) && cfg.extraRows >= 1 && c < cfg.columnCount
    ensures Gaps(Round(cfg, g, rng, t).0, c) <= Gaps(g, c)
    ensures Gaps(g, c) > 0 ==> Gaps(Round(cfg, g, rng, t).0, c) < Gaps(g, c)
    ensures KeepsBottom(ColumnOf(g, c), ColumnOf(Round(cfg, g, rng, t).0, c))
  {
    var n := |g|;
    var gc := ColumnOf(g, c);
    var packed := PackGrid(g, cfg.columnCount);
    var filled := Round(cfg, g, rng, t).0;
    var pc := ColumnOf(packed, c);
    var fc := ColumnOf(filled, c);
    var f := NonEmpty(gc);
    PackColumnSpec(gc);
    assert pc == Empties(n - |f|) + f;
    forall i | 0 <= i < n
      ensures fc[i] == pc[i] || (pc[i].Empty? && !fc[i].Empty?)
    {
      assert fc[i] == filled[i][c] && pc[i] == packed[i][c];
    }
    assert n - |f| > 0 ==> !fc[0].Empty? by {
      assert fc[0] == filled[0][c] && pc[0] == packed[0][c];
    }
    FilledColumn(pc, fc, f, n - |f|);
  }

  /** A round never adds an empty cell, removes at least one when there is
      one, and keeps every column's non-empty cells, in order, at the bottom
      of that column. */
  lemma RoundShrinks(cfg: Config, g: Grid, rng: nat -> nat, t: nat)
    requires cfg.Valid() && Shaped(cfg, g) && cfg.extraRows >= 1
    ensures EmptyCount(Round(cfg, g, rng, t).0, cfg.columnCount) <= EmptyCount(g, cfg.columnCount)
    ensures EmptyCount(g, cfg.columnCount) > 0 ==>
              EmptyCount(Round(cfg, g, rng, t).0, cfg.columnCount) < EmptyCount(g, cfg.columnCount)
    ensures KeepsBottoms(g, Round(cfg, g, rng, t).0, cfg.columnCount)
  {
    var w := cfg.columnCount;
    var h := Round(cfg, g, rng, t).0;
    var gh := ColumnGaps(h, w);
    var gg := ColumnGaps(g, w);
    forall c | 0 <= c < w
      ensures gh[c] <= gg[c] && (gg[c] > 0 ==> gh[c] < gg[c])
      ensures KeepsBottom(ColumnOf(g, c), ColumnOf(h, c))
    {
      RoundColumn(cfg, g, rng, t, c);
    }
    SumMonotone(gh, gg, -1);
    if Sum(gg) > 0 {
      SumPositive(gg);
      var c :| 0 <= c < w && gg[c] > 0;
      SumMonotone(gh, gg, c);
    }
  }


  /** Ending with a sequence that ends with `f` is ending with `f`. */
  lemma KeepsBottomTrans(a: seq<Cell>, b: seq<Cell>, c: seq<Cell>)
    requires KeepsBottom(a, b) && KeepsBottom(b, c)
    ensures KeepsBottom(a, c)
  {
    var f := NonEmpty(a);
    var pre := b[..|b| - |f|];
    assert b == pre + f;
    NonEmptyAppend(pre, f);
    NonEmptyAllFull(f);
    var nb := NonEmpty(b);
    assert nb == NonEmpty(pre) + f;
    var tail := c[|c| - |nb|..];
    assert tail == nb;
    assert c[|c| - |f|..] == tail[|nb| - |f|..];
  }

  lemma KeepsBottomsTrans(g: Grid, h: Grid, k: Grid, w: nat)
    requires Rect(g, w) && Rect(h, w) && Rect(k, w)
    requires KeepsBottoms(g, h, w) && KeepsBottoms(h, k, w)
    ensures KeepsBottoms(g, k, w)
  {
    forall c | 0 <= c < w
      ensures KeepsBottom(ColumnOf(g, c), ColumnOf(k, c))
    {
      KeepsBottomTrans(ColumnOf(g, c), ColumnOf(h, c), ColumnOf(k, c));
    }
  }

  /** Every non-empty cell of `s` that is empty or a new tile gives
      only new tiles to its non-empty part. */
  lemma {:induction false} NonEmptyNew(cfg: Config, s: seq<Cell>)
    requires forall i :: 0 <= i < |s| ==> s[i].Empty? || NewTile(cfg, s[i])
    ensures forall i :: 0 <= i < |NonEmpty(s)| ==> NewTile(cfg, NonEmpty(s)[i])
  {
    if |s| > 0 {
      assert forall i :: 0 <= i < |s| - 1 ==> s[1..][i] == s[i + 1];
      NonEmptyNew(cfg, s[1..]);
    }
  }

  /** The non-empty cells of `s`, except the last `n`, are new tiles. */
  predicate NewAboveBottom(cfg: Config, s: seq<Cell>, n: nat)
  {
    n <= |NonEmpty(s)| && forall i :: 0 <= i < |NonEmpty(s)| - n ==> NewTile(cfg, NonEmpty(s)[i])
  }

  /** The cells of `col` above its last `n` are new tiles. */
  predicate NewTop(cfg: Config, col: seq<Cell>, n: nat)
  {
    forall i :: 0 <= i < |col| - n ==> NewTile(cfg, col[i])
  }

  /** One column through one round, cell by cell: each cell is the packed
      column's cell, or an empty packed cell turned into a new tile. */
  lemma RoundColumnCells(cfg: Config, g: Grid, rng: nat -> nat, t: nat, c: nat)
    requires cfg.Valid() && Shaped(cfg, g) && c < cfg.columnCount
    ensures var pc := ColumnOf(PackGrid(g, cfg.columnCount), c);
            var fc := ColumnOf(Round(cfg, g, rng, t).0, c);
            |fc| == |pc| &&
            forall i :: 0 <= i < |pc| ==> fc[i] == pc[i] || (pc[i].Empty? && NewTile(cfg, fc[i]))
  {
    var packed := PackGrid(g, cfg.columnCount);
    var filled := Round(cfg, g, rng, t).0;
    var pc := ColumnOf(packed, c);
    var fc := ColumnOf(filled, c);
    forall i | 0 <= i < |pc|
      ensures fc[i] == pc[i] || (pc[i].Empty? && NewTile(cfg, fc[i]))
    {
      assert fc[i] == filled[i][c] && pc[i] == packed[i][c];
    }
  }

  /** A packed column `Empties(k) + f` whose empty cells may have become new
      tiles. */
  lemma FilledPackedColumn(cfg: Config, pc: seq<Cell>, fc: seq<Cell>, f: seq<Cell>, k: nat)
    requires pc == Empties(k) + f && |fc| == |pc|
    requires forall i :: 0 <= i < |f| ==> !f[i].Empty?
    requires forall i :: 0 <= i < |pc| ==> fc[i] == pc[i] || (pc[i].Empty? && NewTile(cfg, fc[i]))
    ensures NewAboveBottom(cfg, fc, |f|)
  {
    var a := fc[..k];
    assert fc == a + f by {
      forall i | k <= i < |fc|
        ensures fc[i] == f[i - k]
      {
        assert pc[i] == f[i - k];
      }
    }
    forall i | 0 <= i < k
      ensures a[i].Empty? || NewTile(cfg, a[i])
    {
      assert pc[i].Empty?;
    }
    NewPartThenBottom(cfg, fc, a, f);
  }

  /** After one round a column's non-empty cells are new tiles followed by
      the non-empty cells it had before. */
  lemma RoundNewColumn(cfg: Config, g: Grid, rng: nat -> nat, t: nat, c: nat)
    requires cfg.Valid() && Shaped(cfg, g) && c < cfg.columnCount
    ensures NewAboveBottom(cfg, ColumnOf(Round(cfg, g, rng, t).0, c), |NonEmpty(ColumnOf(g, c))|)
  {
    var gc := ColumnOf(g, c);
    var f := NonEmpty(gc);
    PackColumnSpec(gc);
    RoundColumnCells(cfg, g, rng, t, c);
    FilledPackedColumn(cfg, ColumnOf(PackGrid(g, cfg.columnCount), c), ColumnOf(Round(cfg, g, rng, t).0, c), f, |g| - |f|);
  }

  /** A column made of empty-or-new cells above the non-empty cells `f`. */
  lemma NewPartThenBottom(cfg: Config, fc: seq<Cell>, a: seq<Cell>, f: seq<Cell>)
    requires fc == a + f
    requires forall i :: 0 <= i < |a| ==> a[i].Empty? || NewTile(cfg, a[i])
    requires forall i :: 0 <= i < |f| ==> !f[i].Empty?
    ensures NewAboveBottom(cfg, fc, |f|)
  {
    NonEmptyNew(cfg, a);
    NonEmptyAppend(a, f);
    NonEmptyAllFull(f);
    assert NonEmpty(fc) == NonEmpty(a) + f;
    forall i | 0 <= i < |NonEmpty(fc)| - |f|
      ensures NewTile(cfg, NonEmpty(fc)[i])
    {
      assert NonEmpty(fc)[i] == NonEmpty(a)[i];
    }
  }

  /** A later column that keeps `hc`'s bottom and has new tiles above it has
      new tiles above any shorter part of that bottom whose rest is new. */
  lemma NewTopCarry(cfg: Config, hc: seq<Cell>, rc: seq<Cell>, n: nat)
    requires NewAboveBottom(cfg, hc, n) && KeepsBottom(hc, rc)
    requires NewTop(cfg, rc, |NonEmpty(hc)|)
    ensures NewTop(cfg, rc, n)
  {
    var b := |rc| - |NonEmpty(hc)|;
    forall i | b <= i < |rc| - n
      ensures NewTile(cfg, rc[i])
    {
      assert rc[i] == rc[b..][i - b];
    }
  }

  /** A full column whose non-empty cells but the last `n` are new. */
  lemma NewTopFull(cfg: Config, hc: seq<Cell>, n: nat)
    requires NewAboveBottom(cfg, hc, n)
    requires forall i :: 0 <= i < |hc| ==> !hc[i].Empty?
    ensures NewTop(cfg, hc, n)
  {
    NonEmptyAllFull(hc);
  }

  /** In every column of `h`, the cells above as many cells as the same
      column of `g` had non-empty ones are new normal tiles of an allowed
      type. */
  predicate NewAbove(cfg: Config, g: Grid, h: Grid)
    requires Shaped(cfg, g) && Shaped(cfg, h)
  {
    forall c :: 0 <= c < cfg.columnCount ==> NewTop(cfg, ColumnOf(h, c), |NonEmpty(ColumnOf(g, c))|)
  }

  /** `NewAbove` read cell by cell. */
  lemma NewAboveCells(cfg: Config, g: Grid, h: Grid, r: int, c: int)
    requires Shaped(cfg, g) && Shaped(cfg, h) && NewAbove(cfg, g, h)
    requires 0 <= c < cfg.columnCount && 0 <= r < |g| - |NonEmpty(ColumnOf(g, c))|
    ensures NewTile(cfg, h[r][c])
  {
    assert ColumnOf(h, c)[r] == h[r][c];
  }

  /** The recursive step of `FallDownTiles` for the new-tile property. */
  lemma FallNewStep(cfg: Config, g: Grid, h: Grid, k: Grid, rng: nat -> nat, t: nat)
    requires cfg.Valid() && Shaped(cfg, g) && Shaped(cfg, h) && Shaped(cfg, k)
    requires h == Round(cfg, g, rng, t).0
    requires KeepsBottoms(h, k, cfg.columnCount) && NewAbove(cfg, h, k)
    ensures NewAbove(cfg, g, k)
  {
    forall c | 0 <= c < cfg.columnCount
      ensures NewTop(cfg, ColumnOf(k, c), |NonEmpty(ColumnOf(g, c))|)
    {
      RoundNewColumn(cfg, g, rng, t, c);
      NewTopCarry(cfg, ColumnOf(h, c), ColumnOf(k, c), |NonEmpty(ColumnOf(g, c))|);
    }
  }

  /** The last step of `FallDownTiles`: the round left no empty cell. */
  lemma FallNewLast(cfg: Config, g: Grid, h: Grid, rng: nat -> nat, t: nat)
    requires cfg.Valid() && Shaped(cfg, g) && Shaped(cfg, h)
    requires h == Round(cfg, g, rng, t).0
    requires !HasEmptyCells(h, cfg.columnCount)
    ensures NewAbove(cfg, g, h)
  {
    forall c | 0 <= c < cfg.columnCount
      ensures NewTop(cfg, ColumnOf(h, c), |NonEmpty(ColumnOf(g, c))|)
    {
      RoundNewColumn(cfg, g, rng, t, c);
      NewTopFull(cfg, ColumnOf(h, c), |NonEmpty(ColumnOf(g, c))|);
    }
  }

  /** `FallDownTiles`: repeat the pull-down pass and the spawn-row fill
      while any cell is empty.  Without spawn rows nothing could ever fill a
      gap and the loop would never stop, hence `extraRows >= 1`. */
  function FallDownTiles(cfg: Config, g: Grid, rng: nat -> nat, t: nat): (res: (Grid, nat))
    requires cfg.Valid() && Shaped(cfg, g) && cfg.extraRows >= 1
    ensures Shaped(cfg, res.0)
    ensures !HasEmptyCells(res.0, cfg.columnCount)
    ensures KeepsBottoms(g, res.0, cfg.columnCount)
    ensures NewAbove(cfg, g, res.0)
    decreases EmptyCount(g, cfg.columnCount)
  {
    var (h, t1) := Round(cfg, g, rng, t);
    RoundShrinks(cfg, g, rng, t);
    if HasEmptyCells(h, cfg.columnCount) then
      var res := FallDownTiles(cfg, h, rng, t1);
      KeepsBottomsTrans(g, h, res.0, cfg.columnCount);
      FallNewStep(cfg, g, h, res.0, rng, t);
      res
    else
      FallNewLast(cfg, g, h, rng, t);
      (h, t1)
  }
}
