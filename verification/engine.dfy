/**
 * The cascade and swap protocol of `LevelManager`: the counting interaction
 * lock, `MakeMatch` in its non-scoring (level start) and scoring (after a
 * swap) modes, and `RequestSwap` / `TrySwap` / `TryMatch` / `CancelSwap`.
 * Tween callbacks are taken as direct calls, so one request runs through
 * to the state in which the board is settled.  The non-scoring loop need
 * not end (one allowed type keeps re-creating the same runs), so `MakeMatch`
 * takes a `fuel` bound on the number of match rounds.
 */
module Engine {
  import opened Optional
  import opened Board
  import Matches
  import Refill
  import Gravity

  /** `IsLocked`: input is blocked while any lock is held. */
  predicate IsLocked(lockCount: nat)
  {
    lockCount > 0
  }

  /** `LockInteraction`: take one more lock. */
  function Lock(lockCount: nat): (n: nat)
    ensures IsLocked(n) && n > lockCount
  {
    lockCount + 1
  }

  /** `UnlockInteraction`: release one lock, never going below zero. */
  function Unlock(lockCount: nat): (n: nat)
    ensures n <= lockCount && (IsLocked(lockCount) ==> n < lockCount)
    ensures !IsLocked(n) <==> lockCount <= 1
  {
    if lockCount == 0 then 0 else lockCount - 1
  }

  /** Releasing undoes taking, and releasing more than was taken is lost. */
  lemma LockUnlock(lockCount: nat)
    ensures Unlock(Lock(lockCount)) == lockCount
    ensures IsLocked(lockCount) ==> Lock(Unlock(lockCount)) == lockCount
    ensures Lock(Unlock(0)) == 1
  {
  }

  /** `k` nested `LockInteraction` calls. */
  function Locks(lockCount: nat, k: nat): nat
    decreases k
  {
    if k == 0 then lockCount else Lock(Locks(lockCount, k - 1))
  }

  /** `k` nested `UnlockInteraction` calls. */
  function Unlocks(lockCount: nat, k: nat): nat
    decreases k
  {
    if k == 0 then lockCount else Unlock(Unlocks(lockCount, k - 1))
  }

  lemma {:induction false} LocksAdd(lockCount: nat, k: nat)
    ensures Locks(lockCount, k) == lockCount + k
    decreases k
  {
    if k > 0 {
      LocksAdd(lockCount, k - 1);
    }
  }

  lemma {:induction false} UnlocksSubtract(lockCount: nat, k: nat)
    ensures Unlocks(lockCount, k) == if k <= lockCount then lockCount - k else 0
    decreases k
  {
    if k > 0 {
      UnlocksSubtract(lockCount, k - 1);
    }
  }

  /** Locks nest: from a free level, after `k` locks input stays blocked
      through the first `k - 1` releases and is free from the `k`-th on. */
  lemma NestedLocks(k: nat, j: nat)
    ensures IsLocked(Unlocks(Locks(0, k), j)) <==> j < k
  {
    LocksAdd(0, k);
    UnlocksSubtract(k, j);
  }

  /** The mutable part of the level: the grid, `_lockCount`, and the index
      of the next `Random.Range` draw. */
  datatype State = State(board: Grid, lockCount: nat, cursor: nat)

  /** Where a call chain ends: the settled state, or the state in which the
      match-round bound ran out. */
  datatype Resolution = Settled(state: State) | FuelOut(state: State)

  /** An entry of the refill list: a matched tile of `ps`, on the grid,
      paired with its type before removal. */
  predicate Sound(g: Grid, ps: seq<Pos>, m: set<Pos>, e: Refill.RefillEntry)
  {
    && e.pos in m && e.pos in ps
    && InBounds(g, e.pos) && At(g, e.pos).Tile?
    && e.prevType == At(g, e.pos).kind
  }

  /** The `(row, column, prevType)` list built from `_matchedTiles` before
      removal: one entry per matched tile, visited in `ps` order. */
  function Infos(g: Grid, ps: seq<Pos>, m: set<Pos>): (infos: seq<Refill.RefillEntry>)
    ensures forall i :: 0 <= i < |infos| ==> Sound(g, ps, m, infos[i])
  {
    if |ps| == 0 then []
    else
      var p := ps[0];
      var here := if p in m && InBounds(g, p) && At(g, p).Tile? then [Refill.RefillEntry(p, At(g, p).kind)] else [];
      var rest := Infos(g, ps[1..], m);
      InfosStep(g, ps, m, here, rest);
      here + rest
  }

  /** Entries sound for the tail of `ps`, after a sound head, are sound for `ps`. */
  lemma InfosStep(g: Grid, ps: seq<Pos>, m: set<Pos>, here: seq<Refill.RefillEntry>, rest: seq<Refill.RefillEntry>)
    requires |ps| > 0
    requires here == if ps[0] in m && InBounds(g, ps[0]) && At(g, ps[0]).Tile? then [Refill.RefillEntry(ps[0], At(g, ps[0]).kind)] else []
    requires forall i :: 0 <= i < |rest| ==> Sound(g, ps[1..], m, rest[i])
    ensures forall i :: 0 <= i < |here + rest| ==> Sound(g, ps, m, (here + rest)[i])
  {
    forall i | 0 <= i < |here + rest|
      ensures Sound(g, ps, m, (here + rest)[i])
    {
      if i >= |here| {
        var e := rest[i - |here|];
        assert (here + rest)[i] == e;
        assert Sound(g, ps[1..], m, e);
        assert e.pos in ps[1..];
      }
    }
  }

  /** Every matched tile of `ps` has an entry in the list. */
  lemma {:induction false} InfosCover(g: Grid, ps: seq<Pos>, m: set<Pos>, p: Pos)
    requires p in ps && p in m && InBounds(g, p) && At(g, p).Tile?
    ensures exists i :: 0 <= i < |Infos(g, ps, m)| && Infos(g, ps, m)[i].pos == p
  {
    var infos := Infos(g, ps, m);
    if ps[0] == p {
      assert infos[0].pos == p;
    } else {
      var k :| 0 <= k < |ps| && ps[k] == p;
      assert ps[1..][k - 1] == p;
      InfosCover(g, ps[1..], m, p);
      var rest := Infos(g, ps[1..], m);
      var j :| 0 <= j < |rest| && rest[j].pos == p;
      var n := |infos| - |rest|;
      assert infos[n + j] == rest[j];
    }
  }

  /** Every member of `m` is a tile on the grid, as `FindMatches` ensures. */
  predicate TileSet(g: Grid, m: set<Pos>)
  {
    forall p :: p in m ==> InBounds(g, p) && At(g, p).Tile?
  }

  /** One non-scoring round: remove the matched tiles, then `FillEmptyTiles`
      on their positions in row-major order. */
  function ClearAndRefill(cfg: Config, g: Grid, m: set<Pos>, rng: nat -> nat, t: nat): (res: (Grid, nat))
    requires cfg.Valid() && Shaped(cfg, g)
    ensures Shaped(cfg, res.0)
  {
    var infos := Infos(g, RowMajor(|g|, cfg.columnCount), m);
    Refill.FillEmptyTiles(cfg, Matches.RemoveMatchedTiles(g, m), infos, false, rng, t)
  }

  /** A non-scoring round replaces each matched tile by a new normal tile of
      an allowed type, different from the removed one whenever another type
      is allowed, and leaves every other cell as it was. */
  lemma RefillRound(cfg: Config, g: Grid, m: set<Pos>, rng: nat -> nat, t: nat, r: int, c: int)
    requires cfg.Valid() && Shaped(cfg, g) && TileSet(g, m)
    requires 0 <= r < |g| && 0 <= c < cfg.columnCount
    ensures var x := ClearAndRefill(cfg, g, m, rng, t).0[r][c];
            if Pos(r, c) in m then
              && x.Tile? && x.kind in cfg.allowed && x.power == Normal
              && (Refill.HasAlternative(cfg.allowed, g[r][c].kind) ==> x.kind != g[r][c].kind)
            else x == g[r][c]
  {
    var infos := Infos(g, RowMajor(|g|, cfg.columnCount), m);
    var cleared := Matches.RemoveMatchedTiles(g, m);
    var h := ClearAndRefill(cfg, g, m, rng, t).0;
    assert Refill.FilledCell(cfg, cleared, infos, false, h, r, c);
    var i := Refill.LastEntry(cfg, infos, false, Pos(r, c));
    if Pos(r, c) in m {
      assert Pos(r, c) in RowMajor(|g|, cfg.columnCount);
      InfosCover(g, RowMajor(|g|, cfg.columnCount), m, Pos(r, c));
      var j :| 0 <= j < |infos| && infos[j].pos == Pos(r, c);
      assert i >= 0 && infos[i].prevType == g[r][c].kind;
    }
  }

  /** A non-scoring round on a full grid leaves it full. */
  lemma RefillKeepsFull(cfg: Config, g: Grid, m: set<Pos>, rng: nat -> nat, t: nat)
    requires cfg.Valid() && Shaped(cfg, g) && TileSet(g, m)
    ensures !Gravity.HasEmptyCells(g, cfg.columnCount) ==>
              !Gravity.HasEmptyCells(ClearAndRefill(cfg, g, m, rng, t).0, cfg.columnCount)
  {
    if Gravity.HasEmptyCells(g, cfg.columnCount) {
      return;
    }
    var h: Grid := ClearAndRefill(cfg, g, m, rng, t).0;
    forall r, c | 0 <= r < |h| && 0 <= c < cfg.columnCount
      ensures !h[r][c].Empty?
    {
      RefillRound(cfg, g, m, rng, t, r, c);
      assert !g[r][c].Empty?;
    }
  }

  /** One scoring round: remove the matched tiles, then `FallDownTiles`.
      The grid comes out full, with every column's surviving cells still at
      its bottom in their order and new normal tiles of allowed types above
      them. */
  function ClearAndFall(cfg: Config, g: Grid, m: set<Pos>, rng: nat -> nat, t: nat): (res: (Grid, nat))
    requires cfg.Valid() && Shaped(cfg, g) && cfg.extraRows >= 1
    ensures Shaped(cfg, res.0)
    ensures !Gravity.HasEmptyCells(res.0, cfg.columnCount)
    ensures Gravity.KeepsBottoms(Matches.RemoveMatchedTiles(g, m), res.0, cfg.columnCount)
    ensures Gravity.NewAbove(cfg, Matches.RemoveMatchedTiles(g, m), res.0)
  {
    Gravity.FallDownTiles(cfg, Matches.RemoveMatchedTiles(g, m), rng, t)
  }

  /** The match set `MakeMatch` works on: visible rows when scoring, all
      rows otherwise. */
  function RoundMatches(cfg: Config, g: Grid, awardScore: bool): (m: set<Pos>)
    requires Shaped(cfg, g)
    ensures TileSet(g, m)
    ensures forall p :: p in m ==> Matches.RowsStart(cfg, !awardScore) <= p.row
  {
    Matches.MatchSet(g, cfg.columnCount, Matches.RowsStart(cfg, !awardScore))
  }

  /** `MakeMatch`: while the scan finds matches, remove them and refill (in
      place when not scoring; by gravity when scoring, after which the
      source re-enters `MakeMatch(true)` from the fall's completion).  It
      stops only on an empty scan, and only the scoring mode's final exit
      releases a lock. */
  function MakeMatch(cfg: Config, e: State, awardScore: bool, rng: nat -> nat, fuel: nat): (res: Resolution)
    requires cfg.Valid() && Shaped(cfg, e.board)
    requires awardScore ==> cfg.extraRows >= 1
    ensures Shaped(cfg, res.state.board)
    ensures res.Settled? ==> RoundMatches(cfg, res.state.board, awardScore) == {}
    ensures res.FuelOut? ==> RoundMatches(cfg, res.state.board, awardScore) != {}
    ensures res.state.lockCount == if res.Settled? && awardScore then Unlock(e.lockCount) else e.lockCount
    ensures !Gravity.HasEmptyCells(e.board, cfg.columnCount) ==>
              !Gravity.HasEmptyCells(res.state.board, cfg.columnCount)
    ensures RoundMatches(cfg, e.board, awardScore) == {} ==>
              res == Settled(if awardScore then e.(lockCount := Unlock(e.lockCount)) else e)
    ensures RoundMatches(cfg, e.board, awardScore) != {} && fuel == 0 ==> res == FuelOut(e)
    ensures RoundMatches(cfg, e.board, awardScore) != {} && fuel > 0 && !awardScore ==>
              var (g1, t1) := ClearAndRefill(cfg, e.board, RoundMatches(cfg, e.board, false), rng, e.cursor);
              res == MakeMatch(cfg, e.(board := g1, cursor := t1), false, rng, fuel - 1)
    ensures RoundMatches(cfg, e.board, awardScore) != {} && fuel > 0 && awardScore ==>
              var (g1, t1) := ClearAndFall(cfg, e.board, RoundMatches(cfg, e.board, true), rng, e.cursor);
              res == MakeMatch(cfg, e.(board := g1, cursor := t1), true, rng, fuel - 1)
    decreases fuel
  {
    var m := RoundMatches(cfg, e.board, awardScore);
    if m == {} then
      Settled(if awardScore then e.(lockCount := Unlock(e.lockCount)) else e)
    else if fuel == 0 then
      FuelOut(e)
    else if !awardScore then
      var (g1, t1) := ClearAndRefill(cfg, e.board, m, rng, e.cursor);
      RefillKeepsFull(cfg, e.board, m, rng, e.cursor);
      MakeMatch(cfg, e.(board := g1, cursor := t1), false, rng, fuel - 1)
    else
      var (g1, t1) := ClearAndFall(cfg, e.board, m, rng, e.cursor);
      MakeMatch(cfg, e.(board := g1, cursor := t1), true, rng, fuel - 1)
  }

  /** A scoring cascade that settles leaves a full grid. */
  lemma ScoringSettlesFull(cfg: Config, e: State, rng: nat -> nat, fuel: nat)
    requires cfg.Valid() && Shaped(cfg, e.board) && cfg.extraRows >= 1
    requires RoundMatches(cfg, e.board, true) != {}
    ensures !Gravity.HasEmptyCells(MakeMatch(cfg, e, true, rng, fuel).state.board, cfg.columnCount) ||
            MakeMatch(cfg, e, true, rng, fuel) == FuelOut(e)
  {
  }

  /** The two writes of `TrySwap`: each cell takes the other's content. */
  function SwapCells(g: Grid, p: Pos, q: Pos): (h: Grid)
    requires InBounds(g, p) && InBounds(g, q)
    ensures SameShape(g, h)
    ensures At(h, p) == At(g, q) && At(h, q) == At(g, p)
    ensures forall r, c :: 0 <= r < |g| && 0 <= c < |g[r]| && Pos(r, c) != p && Pos(r, c) != q ==> h[r][c] == g[r][c]
  {
    var g1 := SetCell(g, p, At(g, q));
    SameShapeBounds(g, g1);
    SetCell(g1, q, At(g, p))
  }

  /** `CancelSwap`: write `a` back at `p` and `b` at `q`, then release the
      lock taken by the request. */
  function CancelSwap(e: State, p: Pos, q: Pos, a: Cell, b: Cell): (e': State)
    requires InBounds(e.board, p) && InBounds(e.board, q)
    ensures SameShape(e.board, e'.board)
    ensures At(e'.board, q) == b && (p != q ==> At(e'.board, p) == a)
    ensures forall r, c :: 0 <= r < |e.board| && 0 <= c < |e.board[r]| && Pos(r, c) != p && Pos(r, c) != q ==>
              e'.board[r][c] == e.board[r][c]
    ensures e'.lockCount == Unlock(e.lockCount) && e'.cursor == e.cursor
  {
    var g1 := SetCell(e.board, p, a);
    SameShapeBounds(e.board, g1);
    e.(board := SetCell(g1, q, b), lockCount := Unlock(e.lockCount))
  }

  /** Swapping and then writing the original cells back is the identity on
      the grid. */
  lemma SwapThenCancel(e: State, p: Pos, q: Pos)
    requires InBounds(e.board, p) && InBounds(e.board, q)
    ensures CancelSwap(e.(board := SwapCells(e.board, p, q)), p, q, At(e.board, p), At(e.board, q)).board == e.board
  {
    var h := CancelSwap(e.(board := SwapCells(e.board, p, q)), p, q, At(e.board, p), At(e.board, q)).board;
    assert forall r :: 0 <= r < |h| ==> h[r] == e.board[r];
  }

  /** `TryMatch`: with no match in the visible rows, undo the swap;
      otherwise run the scoring cascade. */
  function TryMatch(cfg: Config, e: State, p: Pos, q: Pos, a: Cell, b: Cell, rng: nat -> nat, fuel: nat): (res: Resolution)
    requires cfg.Valid() && Shaped(cfg, e.board) && cfg.extraRows >= 1
    requires InBounds(e.board, p) && InBounds(e.board, q)
    ensures Shaped(cfg, res.state.board)
    ensures res.Settled? ==> res.state.lockCount == Unlock(e.lockCount)
    ensures RoundMatches(cfg, e.board, true) == {} ==>
              res.Settled? && res.state == CancelSwap(e, p, q, a, b)
    ensures RoundMatches(cfg, e.board, true) != {} && res.Settled? ==>
              RoundMatches(cfg, res.state.board, true) == {}
    ensures RoundMatches(cfg, e.board, true) != {} ==> res == MakeMatch(cfg, e, true, rng, fuel)
  {
    if RoundMatches(cfg, e.board, true) == {} then
      var e' := CancelSwap(e, p, q, a, b);
      SameShapeBounds(e.board, e'.board);
      Settled(e')
    else
      MakeMatch(cfg, e, true, rng, fuel)
  }

  /** `TrySwap`: exchange the two tiles, then `TryMatch` with the original
      contents so that a swap without a match can be undone. */
  function TrySwap(cfg: Config, e: State, p: Pos, q: Pos, rng: nat -> nat, fuel: nat): (res: Resolution)
    requires cfg.Valid() && Shaped(cfg, e.board) && cfg.extraRows >= 1
    requires InBounds(e.board, p) && InBounds(e.board, q)
    ensures Shaped(cfg, res.state.board)
    ensures res.Settled? ==> res.state.lockCount == Unlock(e.lockCount)
    ensures RoundMatches(cfg, SwapCells(e.board, p, q), true) == {} ==>
              res == Settled(e.(lockCount := Unlock(e.lockCount)))
    ensures RoundMatches(cfg, SwapCells(e.board, p, q), true) != {} ==>
              res == MakeMatch(cfg, e.(board := SwapCells(e.board, p, q)), true, rng, fuel)
  {
    var g1 := SwapCells(e.board, p, q);
    SameShapeBounds(e.board, g1);
    var res := TryMatch(cfg, e.(board := g1), p, q, At(e.board, p), At(e.board, q), rng, fuel);
    SwapThenCancel(e, p, q);
    res
  }

  /** A swipe direction as the input handler reports it: Unity's
      `Vector2Int.up` is `(0, 1)`, `down` `(0, -1)`, `left` `(-1, 0)`,
      `right` `(1, 0)`. */
  datatype Direction = Up | Down | Left | Right
  {
    function X(): int
    {
      match this
      case Left => -1
      case Right => 1
      case _ => 0
    }

    function Y(): int
    {
      match this
      case Up => 1
      case Down => -1
      case _ => 0
    }
  }

  /** The cell a swipe from `from` names, as `RequestSwap` computes it:
      `row + dir.y`, `column + dir.x`. */
  function SwipeTarget(from: Pos, dir: Direction): (to: Pos)
    ensures to != from
    ensures to.col - from.col == dir.X() && to.row - from.row == dir.Y()
  {
    Pos(from.row + dir.Y(), from.col + dir.X())
  }

  /** Row 0 is drawn at the top and each further row one step lower, so
      `to` lies in direction `dir` on screen from `from` when the column
      moves by `dir.x` and the row by minus `dir.y`. */
  predicate OnScreenToward(from: Pos, to: Pos, dir: Direction)
  {
    to.col - from.col == dir.X() && from.row - to.row == dir.Y()
  }

  /** `RequestSwap` as written: ignored while locked; otherwise it takes
      the lock and only then looks at the target.  A target that is off the
      grid, empty or an obstacle returns with the lock still held. */
  function RequestSwap(cfg: Config, e: State, from: Pos, dir: Direction, rng: nat -> nat, fuel: nat): (res: Resolution)
    requires cfg.Valid() && Shaped(cfg, e.board) && cfg.extraRows >= 1
    requires InBounds(e.board, from) && At(e.board, from).Tile?
    ensures IsLocked(e.lockCount) ==> res == Settled(e)
    ensures !IsLocked(e.lockCount) && GetTileAt(e.board, SwipeTarget(from, dir).row, SwipeTarget(from, dir).col).None? ==>
              res == Settled(e.(lockCount := e.lockCount + 1))
    ensures (!IsLocked(e.lockCount) && GetTileAt(e.board, SwipeTarget(from, dir).row, SwipeTarget(from, dir).col).Some? &&
             res.Settled?) ==> res.state.lockCount == e.lockCount
    ensures !IsLocked(e.lockCount) && GetTileAt(e.board, SwipeTarget(from, dir).row, SwipeTarget(from, dir).col).Some? ==>
              res == TrySwap(cfg, e.(lockCount := e.lockCount + 1), from, SwipeTarget(from, dir), rng, fuel)
  {
    if IsLocked(e.lockCount) then Settled(e)
    else
      var e1 := e.(lockCount := Lock(e.lockCount));
      var to := SwipeTarget(from, dir);
      if GetTileAt(e1.board, to.row, to.col).None? then Settled(e1)
      else TrySwap(cfg, e1, from, to, rng, fuel)
  }

  /** The lock leak, on a concrete board: swiping left from the first
      column of an unlocked level leaves the lock held, and the next swipe,
      valid or not, is then ignored. */
  lemma LockLeakExample(rng: nat -> nat, fuel: nat)
    ensures var cfg := Config(1, 1, 2, [Red, Blue]);
            var g := [[Tile(Red, Normal), Tile(Blue, Normal)], [Tile(Blue, Normal), Tile(Red, Normal)]];
            var e := State(g, 0, 0);
            var after := RequestSwap(cfg, e, Pos(1, 0), Left, rng, fuel);
            && after == Settled(State(g, 1, 0))
            && RequestSwap(cfg, after.state, Pos(1, 0), Right, rng, fuel) == Settled(State(g, 1, 0))
  {
    var cfg := Config(1, 1, 2, [Red, Blue]);
    var g := [[Tile(Red, Normal), Tile(Blue, Normal)], [Tile(Blue, Normal), Tile(Red, Normal)]];
    assert GetTileAt(g, 1, -1).None?;
  }

  /** The vertical mix-up, as written: an upward swipe names the cell
      below and a downward swipe the cell above. */
  lemma VerticalSwipeInverted(from: Pos, dir: Direction)
    requires dir == Up || dir == Down
    ensures !OnScreenToward(from, SwipeTarget(from, dir), dir)
    ensures SwipeTarget(from, Up) == Pos(from.row + 1, from.col)
  {
  }

  /** The cell a swipe should name: one step in the swipe's on-screen
      direction, so the row moves by minus `dir.y`. */
  function CheckedTarget(from: Pos, dir: Direction): (to: Pos)
    ensures OnScreenToward(from, to, dir)
  {
    Pos(from.row - dir.Y(), from.col + dir.X())
  }

  /** `RequestSwap` corrected: the target is the on-screen neighbour in the
      swipe direction, and it is checked before the lock is taken, so a
      swipe at an edge, an empty cell or an obstacle changes nothing. */
  function RequestSwapChecked(cfg: Config, e: State, from: Pos, dir: Direction, rng: nat -> nat, fuel: nat): (res: Resolution)
    requires cfg.Valid() && Shaped(cfg, e.board) && cfg.extraRows >= 1
    requires InBounds(e.board, from) && At(e.board, from).Tile?
    ensures IsLocked(e.lockCount) ==> res == Settled(e)
    ensures GetTileAt(e.board, CheckedTarget(from, dir).row, CheckedTarget(from, dir).col).None? ==> res == Settled(e)
    ensures !IsLocked(e.lockCount) && GetTileAt(e.board, CheckedTarget(from, dir).row, CheckedTarget(from, dir).col).Some? ==>
              res == TrySwap(cfg, e.(lockCount := e.lockCount + 1), from, CheckedTarget(from, dir), rng, fuel)
    ensures Shaped(cfg, res.state.board)
  {
    var to := CheckedTarget(from, dir);
    if IsLocked(e.lockCount) || GetTileAt(e.board, to.row, to.col).None? then Settled(e)
    else TrySwap(cfg, e.(lockCount := Lock(e.lockCount)), from, to, rng, fuel)
  }

  /** With the correction, every request that settles hands back exactly
      the locks it found: a swipe never leaves input blocked. */
  lemma CheckedRequestBalancesLock(cfg: Config, e: State, from: Pos, dir: Direction, rng: nat -> nat, fuel: nat)
    requires cfg.Valid() && Shaped(cfg, e.board) && cfg.extraRows >= 1
    requires InBounds(e.board, from) && At(e.board, from).Tile?
    ensures var res := RequestSwapChecked(cfg, e, from, dir, rng, fuel);
            (res.Settled? ==> res.state.lockCount == e.lockCount)
  {
    LockUnlock(e.lockCount);
  }

  /** A swap that makes no match leaves the whole state, grid, lock and
      draw index, as it was. */
  lemma FruitlessSwapChangesNothing(cfg: Config, e: State, from: Pos, dir: Direction, rng: nat -> nat, fuel: nat)
    requires cfg.Valid() && Shaped(cfg, e.board) && cfg.extraRows >= 1
    requires InBounds(e.board, from) && At(e.board, from).Tile?
    requires InBounds(e.board, CheckedTarget(from, dir))
    requires RoundMatches(cfg, SwapCells(e.board, from, CheckedTarget(from, dir)), true) == {}
    ensures RequestSwapChecked(cfg, e, from, dir, rng, fuel) == Settled(e)
  {
    LockUnlock(e.lockCount);
  }
}
