/**
 * Creating new tiles: `FillEmptyTiles` (refill in place, avoiding the removed
 * type) and `FillExtraRowsWithNewTiles` (fill the empty cells of the spawn
 * rows).  `Random.Range` draws come from an injected stream `rng`; `t` is the
 * index of the next draw, and each created tile consumes one draw.
 */
module Refill {
  import opened Board
  import Util

  /** `list[Random.Range(0, list.Count)]` with the `t`-th draw. */
  function Pick(rng: nat -> nat, t: nat, cands: seq<TileType>): (k: TileType)
    requires |cands| > 0
    ensures k in cands
  {
    cands[Util.RandomRange(rng(t), 0, |cands|)]
  }

  /** `List<T>.Remove`: drop the first occurrence of `x`, if there is one. */
  function RemoveFirst(s: seq<TileType>, x: TileType): (r: seq<TileType>)
    ensures x in s ==> |r| == |s| - 1
    ensures x !in s ==> r == s
    ensures forall y :: y in r ==> y in s
    ensures forall y :: y in s && y != x ==> y in r
    ensures Distinct(s) ==> x !in r
    ensures x in s ==> multiset(r) == multiset(s) - multiset{x}
    ensures x in s ==> CutFirst(s, x, r)
  {
    if |s| == 0 then []
    else if s[0] == x then
      RemoveHead(s);
      s[1..]
    else
      var r' := RemoveFirst(s[1..], x);
      RemoveLater(s, x, r');
      [s[0]] + r'
  }

  /** `i` is the index of the first occurrence of `x` in `s`. */
  predicate FirstAt(s: seq<TileType>, x: TileType, i: int)
  {
    0 <= i < |s| && s[i] == x && x !in s[..i]
  }

  /** `r` is `s` with the first occurrence of `x` cut out. */
  ghost predicate CutFirst(s: seq<TileType>, x: TileType, r: seq<TileType>)
  {
    exists i :: FirstAt(s, x, i) && r == s[..i] + s[i + 1..]
  }

  /** Dropping the head when it is the value sought. */
  lemma RemoveHead(s: seq<TileType>)
    requires |s| > 0
    ensures |s[1..]| == |s| - 1
    ensures forall y :: y in s[1..] ==> y in s
    ensures forall y :: y in s && y != s[0] ==> y in s[1..]
    ensures Distinct(s) ==> s[0] !in s[1..]
    ensures multiset(s[1..]) == multiset(s) - multiset{s[0]}
    ensures CutFirst(s, s[0], s[1..])
  {
    assert s == [s[0]] + s[1..];
    assert FirstAt(s, s[0], 0) && s[1..] == s[..0] + s[0 + 1..];
    forall k | 0 <= k < |s[1..]|
      ensures Distinct(s) ==> s[1..][k] != s[0]
    {
      assert s[1..][k] == s[k + 1];
    }
  }

  /** Keeping a head that is not the value sought. */
  lemma RemoveLater(s: seq<TileType>, x: TileType, r': seq<TileType>)
    requires |s| > 0 && s[0] != x
    requires x in s[1..] ==> |r'| == |s[1..]| - 1
    requires x !in s[1..] ==> r' == s[1..]
    requires forall y :: y in r' ==> y in s[1..]
    requires forall y :: y in s[1..] && y != x ==> y in r'
    requires Distinct(s[1..]) ==> x !in r'
    requires x in s[1..] ==> multiset(r') == multiset(s[1..]) - multiset{x}
    requires x in s[1..] ==> CutFirst(s[1..], x, r')
    ensures x in s ==> |[s[0]] + r'| == |s| - 1
    ensures x !in s ==> [s[0]] + r' == s
    ensures forall y :: y in [s[0]] + r' ==> y in s
    ensures forall y :: y in s && y != x ==> y in [s[0]] + r'
    ensures Distinct(s) ==> x !in [s[0]] + r'
    ensures x in s ==> multiset([s[0]] + r') == multiset(s) - multiset{x}
    ensures x in s ==> CutFirst(s, x, [s[0]] + r')
  {
    assert s == [s[0]] + s[1..];
    if Distinct(s) {
      assert Distinct(s[1..]) by {
        forall i, j | 0 <= i < j < |s[1..]| ensures s[1..][i] != s[1..][j] {
          assert s[1..][i] == s[i + 1] && s[1..][j] == s[j + 1];
        }
      }
    }
    if x in s {
      assert x in s[1..];
      LaterBag(s, x, r');
      var j :| FirstAt(s[1..], x, j) && r' == s[1..][..j] + s[1..][j + 1..];
      LaterAt(s, x, r', j);
    }
  }

  /** The kept head does not disturb the count of removed elements. */
  lemma LaterBag(s: seq<TileType>, x: TileType, r': seq<TileType>)
    requires |s| > 0 && x in s[1..]
    requires multiset(r') == multiset(s[1..]) - multiset{x}
    ensures multiset([s[0]] + r') == multiset(s) - multiset{x}
  {
    assert s == [s[0]] + s[1..];
    assert multiset(s) == multiset{s[0]} + multiset(s[1..]);
    assert multiset([s[0]] + r') == multiset{s[0]} + multiset(r');
  }

  /** The first occurrence in the tail is the first occurrence overall. */
  lemma LaterAt(s: seq<TileType>, x: TileType, r': seq<TileType>, j: int)
    requires |s| > 0 && s[0] != x
    requires FirstAt(s[1..], x, j) && r' == s[1..][..j] + s[1..][j + 1..]
    ensures FirstAt(s, x, j + 1) && [s[0]] + r' == s[..j + 1] + s[j + 1 + 1..]
  {
    assert s[..j + 1] == [s[0]] + s[1..][..j];
    assert s[j + 1 + 1..] == s[1..][j + 1..];
  }

  /** The allowed set offers a type other than `prev`. */
  predicate HasAlternative(allowed: seq<TileType>, prev: TileType)
  {
    exists y :: y in allowed && y != prev
  }

  /** The type chosen for a refilled cell whose removed tile had type `prev`:
      a draw from the allowed types without `prev`, or from all allowed types
      when nothing else is left. */
  function RefillType(allowed: seq<TileType>, prev: TileType, rng: nat -> nat, t: nat): (k: TileType)
    requires |allowed| > 0
    ensures k in allowed
    ensures Distinct(allowed) && HasAlternative(allowed, prev) ==> k != prev
  {
    var rest := RemoveFirst(allowed, prev);
    if |rest| == 0 then Pick(rng, t, allowed) else Pick(rng, t, rest)
  }

  /** One `(row, column, prevType)` entry of the list `MakeMatch` builds. */
  datatype RefillEntry = RefillEntry(pos: Pos, prevType: TileType)

  /** The entry is acted on: `onlyExtraRows` skips rows at or below `extraRows`. */
  predicate Writes(cfg: Config, e: RefillEntry, onlyExtraRows: bool)
  {
    !(onlyExtraRows && e.pos.row >= cfg.extraRows)
  }

  /** Index of the last acted-on entry naming `p`, or -1 when none does:
      the entry whose write a cell ends up with. */
  function LastEntry(cfg: Config, ps: seq<RefillEntry>, onlyExtraRows: bool, p: Pos): (i: int)
    ensures -1 <= i < |ps|
    ensures i >= 0 ==> Writes(cfg, ps[i], onlyExtraRows) && ps[i].pos == p
    ensures forall j :: i < j < |ps| ==> !(Writes(cfg, ps[j], onlyExtraRows) && ps[j].pos == p)
    decreases |ps|
  {
    if |ps| == 0 then -1
    else
      var j := LastEntry(cfg, ps[1..], onlyExtraRows, p);
      assert forall k :: 0 <= k < |ps| - 1 ==> ps[1..][k] == ps[k + 1];
      if j >= 0 then j + 1
      else if Writes(cfg, ps[0], onlyExtraRows) && ps[0].pos == p then 0
      else -1
  }

  /** What `FillEmptyTiles` leaves in cell `(r, c)` of `h`, started from
      `g`: the old content when no acted-on entry names the cell, otherwise
      a new normal tile of an allowed type that avoids the removed type of
      the last entry naming it whenever another type is allowed. */
  predicate FilledCell(cfg: Config, g: Grid, ps: seq<RefillEntry>, onlyExtraRows: bool, h: Grid, r: int, c: int)
    requires 0 <= r < |g| && 0 <= c < |g[r]| && SameShape(g, h)
  {
    var i := LastEntry(cfg, ps, onlyExtraRows, Pos(r, c));
    var x := h[r][c];
    if i < 0 then x == g[r][c]
    else
      && x.Tile? && x.kind in cfg.allowed && x.power == Normal
      && (HasAlternative(cfg.allowed, ps[i].prevType) ==> x.kind != ps[i].prevType)
  }

  /** The first entry's write followed by the rest's writes meets the spec
      for the whole list. */
  lemma FillStepCell(cfg: Config, g: Grid, g1: Grid, ps: seq<RefillEntry>, onlyExtraRows: bool,
                     rng: nat -> nat, t: nat, h: Grid, r: int, c: int)
    requires cfg.Valid() && |ps| > 0
    requires Writes(cfg, ps[0], onlyExtraRows) ==> InBounds(g, ps[0].pos)
    requires g1 == if Writes(cfg, ps[0], onlyExtraRows)
                   then SetCell(g, ps[0].pos, Tile(RefillType(cfg.allowed, ps[0].prevType, rng, t), Normal))
                   else g
    requires SameShape(g, g1) && SameShape(g1, h)
    requires 0 <= r < |g| && 0 <= c < |g[r]|
    requires FilledCell(cfg, g1, ps[1..], onlyExtraRows, h, r, c)
    ensures FilledCell(cfg, g, ps, onlyExtraRows, h, r, c)
  {
    var j := LastEntry(cfg, ps[1..], onlyExtraRows, Pos(r, c));
    if j >= 0 {
      assert ps[1..][j] == ps[j + 1];
    }
  }

  /** `FillEmptyTiles`: in list order, give each acted-on position a new
      normal tile of an allowed type that avoids the removed type when the
      allowed set offers another.  A cell that no acted-on entry names keeps
      its content.  The writes index the grid directly, so acted-on positions
      must be on it. */
  function FillEmptyTiles(cfg: Config, g: Grid, ps: seq<RefillEntry>, onlyExtraRows: bool,
                          rng: nat -> nat, t: nat): (res: (Grid, nat))
    requires cfg.Valid()
    requires forall i :: 0 <= i < |ps| && Writes(cfg, ps[i], onlyExtraRows) ==> InBounds(g, ps[i].pos)
    ensures SameShape(g, res.0)
    ensures forall r, c :: 0 <= r < |g| && 0 <= c < |g[r]| ==> FilledCell(cfg, g, ps, onlyExtraRows, res.0, r, c)
    decreases |ps|
  {
    if |ps| == 0 then (g, t)
    else
      var e := ps[0];
      var rest := ps[1..];
      var w := Writes(cfg, e, onlyExtraRows);
      var g1 := if w then SetCell(g, e.pos, Tile(RefillType(cfg.allowed, e.prevType, rng, t), Normal)) else g;
      SameShapeBounds(g, g1);
      assert forall i :: 0 <= i < |rest| ==> rest[i] == ps[i + 1];
      var res := FillEmptyTiles(cfg, g1, rest, onlyExtraRows, rng, if w then t + 1 else t);
      assert forall r, c :: 0 <= r < |g| && 0 <= c < |g[r]| ==> FilledCell(cfg, g, ps, onlyExtraRows, res.0, r, c) by {
        forall r, c | 0 <= r < |g| && 0 <= c < |g[r]|
          ensures FilledCell(cfg, g, ps, onlyExtraRows, res.0, r, c)
        {
          FillStepCell(cfg, g, g1, ps, onlyExtraRows, rng, t, res.0, r, c);
        }
      }
      res
  }

  /** For each listed position that is empty, a new normal tile of an
      allowed type, in list order. */
  function FillIfEmpty(cfg: Config, g: Grid, ps: seq<Pos>, rng: nat -> nat, t: nat): (res: (Grid, nat))
    requires cfg.Valid()
    requires forall p :: p in ps ==> InBounds(g, p)
    ensures SameShape(g, res.0)
    ensures forall r, c :: 0 <= r < |g| && 0 <= c < |g[r]| && (Pos(r, c) !in ps || !g[r][c].Empty?) ==>
              res.0[r][c] == g[r][c]
    ensures forall r, c :: 0 <= r < |g| && 0 <= c < |g[r]| && Pos(r, c) in ps && g[r][c].Empty? ==>
              res.0[r][c].Tile? && res.0[r][c].kind in cfg.allowed && res.0[r][c].power == Normal
    decreases |ps|
  {
    if |ps| == 0 then (g, t)
    else
      var p := ps[0];
      assert forall q :: q in ps[1..] ==> q in ps;
      if At(g, p).Empty?
      then
        var g1 := SetCell(g, p, Tile(Pick(rng, t, cfg.allowed), Normal));
        SameShapeBounds(g, g1);
        FillIfEmpty(cfg, g1, ps[1..], rng, t + 1)
      else FillIfEmpty(cfg, g, ps[1..], rng, t)
  }

  /** `FillExtraRowsWithNewTiles`: every empty cell of the spawn rows gets a
      new tile; occupied cells and the visible rows stay as they are. */
  function FillExtraRowsWithNewTiles(cfg: Config, g: Grid, rng: nat -> nat, t: nat): (res: (Grid, nat))
    requires cfg.Valid() && Shaped(cfg, g)
    ensures Shaped(cfg, res.0)
    ensures forall r, c :: 0 <= r < cfg.extraRows && 0 <= c < cfg.columnCount ==>
              if g[r][c].Empty?
              then res.0[r][c].Tile? && res.0[r][c].kind in cfg.allowed && res.0[r][c].power == Normal
              else res.0[r][c] == g[r][c]
    ensures forall r, c :: cfg.extraRows <= r < |g| && 0 <= c < cfg.columnCount ==> res.0[r][c] == g[r][c]
  {
    FillIfEmpty(cfg, g, RowMajor(cfg.extraRows, cfg.columnCount), rng, t)
  }
}
