# Match-3 engine of unity_mobile_match3, modelled in Dafny

This project models the logical core of the Unity match-3 mini game:

- the level grid of `LevelManager` and its cascade engine:
  - the run scan `FindMatches`;
  - match removal;
  - the in-place refill `FillEmptyTiles`;
  - gravity with the spawn-row fill (`FallDownTiles`, `FillExtraRowsWithNewTiles`, `HasEmptyCells`);
  - the `MakeMatch` loop;
  - the counting interaction lock;
  - the swap protocol `RequestSwap` → `TrySwap` → `TryMatch` → `CancelSwap`.
- the score counter of `Score`;
- the two array helpers of `Util`;
- background selection in `MiniGame_Background`.

The grid is an immutable `seq<seq<Cell>>`. It has `extraRows` hidden spawn rows above `rowCount` visible rows, and row 0 is the top. A cell is `Empty` (the source's `null`), a `Tile` or an `Obstacle`.

Tween completion callbacks only sequence the steps, so they become direct calls. For example, the end of a fall re-enters `MakeMatch(true)` directly.

`Random.Range` draws come from an injected stream `rng: nat -> nat`. The engine state keeps the index of the next draw. `Random.Range(lo, hi)` is `lo + rng(t) % (hi - lo)`.

| file | module | models |
|---|---|---|
| optional.dfy | Optional | `Option` (a `null` reference) |
| util.dfy | Util | `Util.cs`, C#'s truncating `%`, `Mathf.Clamp`, `Random.Range` |
| score.dfy | Score | `Score.cs`, 32-bit `int` wrap-around |
| backdrop.dfy | Backdrop | background index selection of `MiniGame_Background.cs` |
| board.dfy | Board | cells, grid, level parameters, `GetTileAt`, cell writes |
| matches.dfy | Matches | run membership, `FindMatches`, `RemoveMatchedTiles` |
| refill.dfy | Refill | `FillEmptyTiles`, `FillExtraRowsWithNewTiles` |
| gravity.dfy | Gravity | pull-down pass, `HasEmptyCells`, `FallDownTiles` |
| engine.dfy | Engine | lock, `MakeMatch`, swap protocol |

Where the source has a loop whose result matters on its own, there are two forms proved equal:
- a declarative reference:
  - `Matches.MatchSet`: a cell is matched iff it lies in a window of three same-type tiles in its row, or in its column within the scanned rows;
  - `Gravity.PackColumn`: the empty cells on top, then the occupied cells in order.
- a method that mirrors the source's loops (`Matches.ScanLine`, `Matches.FindMatches`, `Gravity.PackColumnScan`, `Gravity.FallDownPass`).

The cascade itself is written with the reference forms.

## Model

| member | source | states |
|---|---|---|
| Util.CsRem | Assets/Scripts/Util.cs:12 | C#'s `%` for a positive divisor: agrees with the mathematical remainder on non-negative operands, and is non-positive (zero exactly when divisible) on negative ones |
| Util.RandomRange | Assets/Scripts/LevelManager.cs:268 | an integer `Random.Range(lo, hi)` draw lies in `[lo, hi)`, or is `lo` when `hi == lo`; every caller passes `lo <= hi` |
| Util.RandomRangeReachesAll | Assets/Scripts/LevelManager.cs:272 | every value of the range is drawn by some roll, so no candidate type is unreachable |
| Util.Clamp | Assets/Scripts/MiniGame_Background.cs:155 | `Mathf.Clamp` on integers: the result is in `[lo, hi]`, equal to the value inside the range, `lo` below it and `hi` above it |
| Util.GetRandomInArray | Assets/Scripts/Util.cs:5-9 | needs a non-empty array and returns one of its elements |
| Util.GetRandomInArrayReachesAll | Assets/Scripts/Util.cs:7-8 | every element of the array is returned for some roll |
| Util.GetRepeatingElement | Assets/Scripts/Util.cs:10-13 | needs a non-empty array and an index whose C# remainder is not negative; the result is an element, and an in-range index returns exactly that element |
| Util.RepeatingIsEuclidean | Assets/Scripts/Util.cs:12 | for a non-negative index the element is `a[i mod n]` |
| Util.RepeatingDomain | Assets/Scripts/Util.cs:12 | the call is defined exactly for non-negative indices and negative multiples of the length; any other negative index is out of range |
| Util.RepeatingIsPeriodic | Assets/Scripts/Util.cs:12 | element `i + n` equals element `i` for `i >= 0` |
| Score.Wrap32 | Assets/Scripts/Score.cs:46 | the 32-bit result agrees with the exact sum modulo 2^32 and equals it when it fits |
| Score.Awake | Assets/Scripts/Score.cs:11-20 | the score is 0 after initialisation |
| Score.SetScore | Assets/Scripts/Score.cs:49-52 | stores the value when non-negative and 0 otherwise |
| Score.AddScore | Assets/Scripts/Score.cs:44-47 | the new score is old + delta when that is in `[0, 2^31)`, 0 when it is negative, and 0 when the 32-bit sum overflows |
| Score.HandleScoreReset | Assets/Scripts/Score.cs:39-42 | the score is 0 whatever it was |
| Score.AddNonNegativeIsExact | Assets/Scripts/Score.cs:44-52 | a non-negative delta without overflow raises the score by exactly delta |
| Score.AddTwiceIsAddSum | Assets/Scripts/Score.cs:44-52 | two additions equal one addition of the sum while the running score stays in range |
| Score.ClampIsLossy | Assets/Scripts/Score.cs:44-52 | from 3, adding -5 then +5 yields 5, not 3 |
| Score.OverflowResetsToZero | Assets/Scripts/Score.cs:46 | adding 1 to `int.MaxValue` gives score 0 |
| Backdrop.Fresh | Assets/Scripts/MiniGame_Background.cs:34 | the current index starts at -1 |
| Backdrop.SetBackground | Assets/Scripts/MiniGame_Background.cs:151-156 | no change without backgrounds; otherwise the index is clamped into `[0, len-1]` and becomes current |
| Backdrop.NextBackground | Assets/Scripts/MiniGame_Background.cs:180-185 | no change without backgrounds; otherwise the new index is in range and equals `(current + 1) mod len` for any current index in `[-1, len)` |
| Backdrop.FirstNextShowsFirst | Assets/Scripts/MiniGame_Background.cs:34 | from the initial -1 the first step shows background 0 |
| Backdrop.NextTimesAdvances | Assets/Scripts/MiniGame_Background.cs:183 | after k steps the index has moved by k modulo len |
| Backdrop.NextCyclesBack | Assets/Scripts/MiniGame_Background.cs:183 | len steps return to the starting index |
| Backdrop.FindName | Assets/Scripts/MiniGame_Background.cs:190-197 | the first index whose name is non-empty and equals the query, or -1 exactly when there is none |
| Backdrop.SetBackgroundByName | Assets/Scripts/MiniGame_Background.cs:187-199 | selects the first matching index; nothing changes without a match or without an array |
| Backdrop.OnEnable | Assets/Scripts/MiniGame_Background.cs:53-57 | with backgrounds, the start index is clamped into range (0 below, len-1 above, kept if already in range) and becomes current; otherwise nothing changes |
| Board.GetTileAt | Assets/Scripts/LevelManager.cs:240-248 | returns a tile exactly when the coordinates are on the grid and the cell holds a tile, and then that tile; obstacles and empty cells yield nothing |
| Board.SetCell | Assets/Scripts/LevelManager.cs:220 | a write changes that one cell and keeps the grid's shape |
| Board.GetTileAfterSet | Assets/Scripts/LevelManager.cs:240-248 | after a write, `GetTileAt` of that cell sees the written cell if it is a tile and nothing otherwise; every other coordinate reads as before |
| Board.RowMajor | Assets/Scripts/LevelManager.cs:476-479 | the row-by-row visiting order covers exactly the block, once per cell |
| Matches.RunLength | Assets/Scripts/LevelManager.cs:150-167 | a cell of a maximal same-type run is inside a window of three iff the run is at least three long, so runs of one or two are never reported |
| Matches.MatchSet | Assets/Scripts/LevelManager.cs:126-136 | reported cells are tiles in the scanned rows `[rowsStart, extraRows + rowCount)` |
| Matches.MatchSetMembership | Assets/Scripts/LevelManager.cs:138-207 | a cell is reported iff it is in a horizontal run or a vertical run (within the scanned rows) of at least three same-type tiles |
| Matches.RowRuns | Assets/Scripts/LevelManager.cs:138-171 | one row's scan reports exactly the cells of that row lying in a horizontal run of three or more |
| Matches.ColRuns | Assets/Scripts/LevelManager.cs:174-207 | one column's scan reports exactly the cells of that column, within the scanned rows, lying in a vertical run of three or more |
| Matches.ScanLine | Assets/Scripts/LevelManager.cs:140-170 | the run-skipping scan of one line hits exactly the cells that lie in a run of three or more |
| Matches.FindMatches | Assets/Scripts/LevelManager.cs:118-207 | the two nested scans produce exactly the reference match set, starting at row 0 or at `extraRows` by the flag; it reads the grid only, and a cell in both a row and a column run is reported once |
| Matches.RemoveMatchedTiles | Assets/Scripts/LevelManager.cs:214-225 | matched cells become empty and every other cell is unchanged |
| Matches.Survivor | Assets/Scripts/LevelManager.cs:214-225 | a tile left after removal was not matched and kept its type |
| Matches.NoCellMatched | Assets/Scripts/LevelManager.cs:214-225 | after removal no cell of the scanned rows is still in a run of three |
| Matches.RemovalClearsAllRuns | Assets/Scripts/LevelManager.cs:214-225 | after removing the match set, a new scan of the same rows finds nothing |
| Refill.Pick | Assets/Scripts/LevelManager.cs:272 | the drawn type is one of the candidates |
| Refill.RemoveFirst | Assets/Scripts/LevelManager.cs:261 | `List.Remove`: when the value is present the result is the list with its first occurrence cut out (so the multiset loses exactly one copy); otherwise the list is unchanged; a list without duplicates loses the value entirely |
| Refill.RefillType | Assets/Scripts/LevelManager.cs:259-273 | the chosen type is allowed, and differs from the removed type whenever another type is allowed |
| Refill.LastEntry | Assets/Scripts/LevelManager.cs:253-257 | the last list entry naming a cell that is not skipped by the `onlyExtraRows` test, or -1 when none is |
| Refill.FillEmptyTiles | Assets/Scripts/LevelManager.cs:250-279 | cells named by no acted-on entry keep their content (so an empty list changes nothing); every named cell gets a normal tile of an allowed type that avoids the entry's removed type when another type is allowed; with `onlyExtraRows` rows at or below `extraRows` are skipped |
| Refill.FillIfEmpty | Assets/Scripts/LevelManager.cs:478-499 | empty listed cells get a normal allowed tile; occupied or unlisted cells keep their content |
| Refill.FillExtraRowsWithNewTiles | Assets/Scripts/LevelManager.cs:472-502 | in the spawn rows, empty cells get a normal allowed tile and occupied cells are kept; the visible rows are untouched |
| Gravity.PackColumnSpec | Assets/Scripts/LevelManager.cs:378-406 | packing keeps the column's length and its occupied cells in order, and leaves them contiguous at the bottom |
| Gravity.PackedIsUnique | Assets/Scripts/LevelManager.cs:378-406 | any column with those three properties is the packed column |
| Gravity.MoveKeepsOrder | Assets/Scripts/LevelManager.cs:389-390 | moving the nearest occupied cell above a gap into the gap keeps the column's occupied cells in order |
| Gravity.PackColumnScan | Assets/Scripts/LevelManager.cs:380-405 | the bottom-up gap-filling loop on one column computes the packed column |
| Gravity.PackGrid | Assets/Scripts/LevelManager.cs:378-406 | each column of the result is its own packed column, so columns do not interact |
| Gravity.PackGridSpec | Assets/Scripts/LevelManager.cs:378-406 | after the pass every column is packed and keeps its occupied cells, obstacles included, in order: obstacles fall like tiles |
| Gravity.FallDownPass | Assets/Scripts/LevelManager.cs:378-406 | the column-by-column pass computes the packed grid |
| Gravity.EmptyCountPositive | Assets/Scripts/LevelManager.cs:454-462 | the empty-cell count is positive iff some cell is empty |
| Gravity.HasEmptyCells | Assets/Scripts/LevelManager.cs:454-462 | true iff some cell of the grid is empty |
| Gravity.Round | Assets/Scripts/LevelManager.cs:378-413 | one pull-down pass followed by the spawn-row fill keeps the level's shape; its effect on empty cells and column order is stated by `Gravity.RoundShrinks` |
| Gravity.RoundShrinks | Assets/Scripts/LevelManager.cs:410-421 | with a spawn row, one pack-and-fill round never adds an empty cell, removes at least one when there is one, and keeps each column's occupied cells in order at its bottom |
| Gravity.FallDownTiles | Assets/Scripts/LevelManager.cs:370-452 | repeating the round ends (the empty count is the measure), with a full grid whose columns end with their original occupied cells in order, and every cell above those kept cells is a new normal tile of an allowed type |
| Gravity.NewAboveCells | Assets/Scripts/LevelManager.cs:483-498 | a cell above a column's kept bottom after the fall holds a tile created by the spawn-row fill: a normal tile of an allowed type |
| Engine.Lock | Assets/Scripts/LevelManager.cs:503-507 | taking a lock always leaves input locked |
| Engine.Unlock | Assets/Scripts/LevelManager.cs:508-512 | releasing lowers a held count by one and stays at 0; input is free afterwards iff at most one lock was held |
| Engine.NestedLocks | Assets/Scripts/LevelManager.cs:26-27 | `IsLocked` means some lock is still held: from a free level, after k locks input stays blocked through k-1 releases and is free from the k-th release on |
| Engine.LockUnlock | Assets/Scripts/LevelManager.cs:503-512 | a release undoes a lock; a release at 0 is lost |
| Engine.Infos | Assets/Scripts/LevelManager.cs:89-94 | every entry of the refill list is a matched tile paired with its type before removal |
| Engine.InfosCover | Assets/Scripts/LevelManager.cs:89-94 | every matched tile has an entry in the refill list |
| Engine.ClearAndRefill | Assets/Scripts/LevelManager.cs:89-101 | the non-scoring round (remove, then refill in place) keeps the level's shape; its cell contents are stated by `Engine.RefillRound` |
| Engine.RefillRound | Assets/Scripts/LevelManager.cs:89-101 | a non-scoring round gives each matched cell a normal allowed tile different from the removed one when another type is allowed, and keeps every other cell |
| Engine.RefillKeepsFull | Assets/Scripts/LevelManager.cs:96-101 | a non-scoring round on a full grid leaves it full |
| Engine.ClearAndFall | Assets/Scripts/LevelManager.cs:96-107 | a scoring round leaves a full grid whose columns end with the cells that survived removal, in order, topped by new normal tiles of allowed types |
| Engine.RoundMatches | Assets/Scripts/LevelManager.cs:66 | the scan covers all rows when not scoring and the visible rows when scoring |
| Engine.MakeMatch | Assets/Scripts/LevelManager.cs:61-116 | settles exactly on an empty scan, releasing one lock exactly when scoring mode settles; reports `FuelOut` only when a match remains and no fuel is left; otherwise runs one round (clear and refill without score, clear and fall with score) and repeats in the same mode; keeps the grid's shape and its fullness |
| Engine.ScoringSettlesFull | Assets/Scripts/LevelManager.cs:96-107 | a scoring cascade that matched something ends with a full grid (unless the round bound was already 0) |
| Engine.SwapCells | Assets/Scripts/LevelManager.cs:322-323 | the two cells exchange contents and all others stay |
| Engine.CancelSwap | Assets/Scripts/LevelManager.cs:351-369 | writes both cells back, leaves the rest, and releases one lock |
| Engine.SwapThenCancel | Assets/Scripts/LevelManager.cs:320-369 | swap followed by cancel with the original cells restores the grid exactly |
| Engine.TryMatch | Assets/Scripts/LevelManager.cs:337-350 | cancels the swap when the visible rows have no match, and otherwise is exactly the scoring cascade `MakeMatch(true)`, whose settled result leaves no visible match; a settled result has released one lock |
| Engine.TrySwap | Assets/Scripts/LevelManager.cs:320-336 | a swap that makes no visible match leaves the grid and draw index as they were and releases one lock; a swap that makes one is exactly the scoring cascade `MakeMatch(true)` on the swapped grid |
| Engine.SwipeTarget | Assets/Scripts/LevelManager.cs:311 | the requested neighbour is one cardinal step away: column + dir.x, row + dir.y |
| Engine.RequestSwap | Assets/Scripts/LevelManager.cs:305-319 | ignored while locked; with a non-tile target it returns holding one more lock; with a tile target it is exactly `TrySwap` of the two cells with one more lock held, and a settled result holds the original lock count |
| Engine.LockLeakExample | Assets/Scripts/LevelManager.cs:307-316 | a left swipe from column 0 leaves the level locked, and the next valid swipe is ignored |
| Engine.VerticalSwipeInverted | Assets/Scripts/LevelManager.cs:311 | an up swipe names the cell below and a down swipe the cell above |
| Engine.CheckedTarget | Assets/Scripts/LevelManager.cs:311 | the corrected neighbour lies in the swipe direction on screen |
| Engine.RequestSwapChecked | Assets/Scripts/LevelManager.cs:305-319 | corrected request: ignored while locked, a non-tile target changes nothing, and otherwise it is exactly `TrySwap` toward the on-screen neighbour with one more lock held |
| Engine.CheckedRequestBalancesLock | Assets/Scripts/LevelManager.cs:305-369 | every corrected request that settles hands back exactly the locks it found |
| Engine.FruitlessSwapChangesNothing | Assets/Scripts/LevelManager.cs:305-369 | a corrected request whose swap makes no match leaves the whole state as it was |

## Left out

- Tweens, delays and animation (`DOTween` sequences, the realtime coroutine at LevelManager.cs:465-470): they only order the steps, which run here as direct calls.
- Object coordinates: `Move` also writes an object's own `row` and `column` (Obstacle.cs:32, 40, 46-50; `Tile.Move` is not part of this model), and LevelManager reads those fields rather than grid positions at LevelManager.cs:93, 220, 311 and 322-327. The model keeps no per-object coordinates: every object's row and column are taken to equal the cell it occupies, which holds when `Tile.Move` updates them as `Obstacle.Move` does.
- `GetAnchoredPositionFor` (float layout) is left out. Only its consequence, that row 0 is drawn at the top, is used.
- `SetRaycastsEnabled` and every `Debug.Log` call: Unity UI state and logging.
- `ScoreTiles`: it sums a float `scoreValue` that the tile class does not declare, and `MakeMatch` only logs the result. The score counter is never updated from the cascade.
- `FindMatches` null guard (LevelManager.cs:120-124): the model always has a level, container and grid.
- `ReturnObjectToPool`, `CreateTile` and `PlaceIPoolableInLevel`: object pooling and creation. Tile creation is "the cell becomes `Tile(type, Normal)`".
- Level generation, obstacle placement and `CreateLevel`: the factory's bodies are stubs.
- The order in which `_matchedTiles` (a hash set) is enumerated is taken as row-major. It only decides which draw each refilled cell consumes.
- `tileTypesAllowed` is a dictionary in the level class but is indexed like an array. It is modelled as a list without duplicates.
- Gravity.FallDownTiles: requires `extraRows >= 1`. With no spawn rows the source repeats forever on any gap. The default is 2. The scoring entry points inherit the requirement: Engine.ClearAndFall, Engine.MakeMatch in scoring mode, Engine.TryMatch, Engine.TrySwap, Engine.RequestSwap and Engine.RequestSwapChecked, and the lemmas about them (Engine.ScoringSettlesFull, Engine.CheckedRequestBalancesLock, Engine.FruitlessSwapChangesNothing).
- Engine.MakeMatch: the loop is bounded by `fuel` match rounds and reports `FuelOut` exactly when a match is still found after `fuel` rounds. Non-scoring cascades need not end (one allowed type re-creates the same runs), and the model claims nothing about how many rounds a cascade takes.
- Engine.Lock: `_lockCount` is unbounded here. The 32-bit overflow after 2^31 nested locks is not modelled.
- Board.Cell: obstacle hit points are an `int` standing for the source's float field, which no modelled code reads.
- Obstacle behaviour (damage, clearing) and tile powers: no modelled code gives them an effect. They are carried as data only.
- Scrolling, sprites and materials of `MiniGame_Background`: float presentation.
- The request accepts any cardinal direction. Swipe recognition (`TileInputHandler`) is left out, except that it sends Unity's `Vector2Int` unit vectors.
- The `IsLocked` guard at LevelManager.cs:307 is evidently meant to turn a rejected swipe away without leaving input blocked. The code takes the lock before it checks the target. The model follows the code, and the first finding below records the difference.

## Findings

| source | as written | input that shows it | evidently intended | confidence | as-written member | corrected member |
|---|---|---|---|---|---|---|
| Assets/Scripts/LevelManager.cs:307-316 | the lock is taken before the target is checked, and the return for an off-grid, empty or obstacle target never releases it | unlocked level, swipe left from a tile in column 0: lock count 1 afterwards, and every later swipe is ignored | check the target first (or release on that path), so an invalid swipe changes nothing | high (not executed) | Engine.RequestSwap, Engine.LockLeakExample | Engine.RequestSwapChecked, Engine.CheckedRequestBalancesLock |
| Assets/Scripts/LevelManager.cs:311 | the target row is `row + dir.y`; `Vector2Int.up` is `(0, 1)` while rows grow downwards on screen (LevelManager.cs:291) | swipe up from `(r, c)`: the request names `(r + 1, c)`, the tile below | `row - dir.y`, the neighbour in the swipe direction | medium (not executed; a flipped container in the scene would cancel it) | Engine.SwipeTarget, Engine.VerticalSwipeInverted | Engine.CheckedTarget, Engine.RequestSwapChecked |
