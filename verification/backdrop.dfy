/**
 * Background selection in `MiniGame_Background.cs`: which entry of the named
 * background array is current.  Sprites, materials and scrolling are
 * presentation; only the index arithmetic is modelled.  A `null` array is
 * `None`; a `null` entry name behaves like an empty one (both are skipped by
 * `string.IsNullOrEmpty`), so names are plain strings.
 */
module Backdrop {
  import opened Optional
  import Util

  datatype Selection = Selection(backgrounds: Option<seq<string>>, startIndex: int, currentIndex: int)

  /** Number of backgrounds; a missing array counts as empty. */
  function Count(bd: Selection): nat
  {
    match bd.backgrounds
    case None => 0
    case Some(names) => |names|
  }

  /** A freshly loaded component: `currentIndex` starts at -1. */
  function Fresh(backgrounds: Option<seq<string>>, startIndex: int): (bd: Selection)
    ensures bd.currentIndex == -1
  {
    Selection(backgrounds, startIndex, -1)
  }

  /** `SetBackground`: a no-op without backgrounds, otherwise the requested
      index clamped into range becomes current. */
  function SetBackground(bd: Selection, index: int): (r: Selection)
    ensures Count(bd) == 0 ==> r == bd
    ensures Count(bd) > 0 ==> 0 <= r.currentIndex < Count(bd)
    ensures Count(bd) > 0 && 0 <= index < Count(bd) ==> r.currentIndex == index
    ensures Count(bd) > 0 && index < 0 ==> r.currentIndex == 0
    ensures Count(bd) > 0 && index >= Count(bd) ==> r.currentIndex == Count(bd) - 1
    ensures r.backgrounds == bd.backgrounds && r.startIndex == bd.startIndex
  {
    if Count(bd) == 0 then bd
    else bd.(currentIndex := Util.Clamp(index, 0, Count(bd) - 1))
  }

  /** `NextBackground` (and the `OnNewBackgroundImage` handler): step to the
      following index, wrapping around, via C#'s remainder and `SetBackground`. */
  function NextBackground(bd: Selection): (r: Selection)
    ensures Count(bd) == 0 ==> r == bd
    ensures Count(bd) > 0 ==> 0 <= r.currentIndex < Count(bd)
    ensures Count(bd) > 0 && -1 <= bd.currentIndex < Count(bd) ==>
              r.currentIndex == (bd.currentIndex + 1) % Count(bd)
    ensures r.backgrounds == bd.backgrounds && r.startIndex == bd.startIndex
  {
    if Count(bd) == 0 then bd
    else
      var n := Count(bd);
      var next := Util.CsRem(bd.currentIndex + 1 + n, n);
      assert -1 <= bd.currentIndex < n ==> next == (bd.currentIndex + 1) % n by {
        if -1 <= bd.currentIndex < n {
          var k := bd.currentIndex + 1;
          if k < n {
            Util.ModUnique(k + n, n, 1, k);
            Util.SmallRem(k, n);
          } else {
            Util.ModUnique(k + n, n, 2, 0);
            Util.ModUnique(k, n, 1, 0);
          }
        }
      }
      SetBackground(bd, next)
  }

  /** `NextBackground` applied `k` times. */
  function NextTimes(bd: Selection, k: nat): Selection
  {
    if k == 0 then bd else NextBackground(NextTimes(bd, k - 1))
  }

  /** From the initial index -1 the first step shows background 0. */
  lemma FirstNextShowsFirst(names: seq<string>, startIndex: int)
    requires |names| > 0
    ensures NextBackground(Fresh(Some(names), startIndex)).currentIndex == 0
  {
  }

  /** After `k` steps from a valid index the index has advanced by `k`,
      modulo the number of backgrounds. */
  lemma {:induction false} NextTimesAdvances(bd: Selection, k: nat)
    requires 0 <= bd.currentIndex < Count(bd)
    ensures NextTimes(bd, k).currentIndex == (bd.currentIndex + k) % Count(bd)
    ensures Count(NextTimes(bd, k)) == Count(bd)
  {
    if k > 0 {
      NextTimesAdvances(bd, k - 1);
      Util.RemStep(bd.currentIndex + k - 1, Count(bd));
    }
  }

  /** Stepping once per background comes back to the starting one. */
  lemma NextCyclesBack(bd: Selection)
    requires 0 <= bd.currentIndex < Count(bd)
    ensures NextTimes(bd, Count(bd)).currentIndex == bd.currentIndex
  {
    NextTimesAdvances(bd, Count(bd));
    Util.ModUnique(bd.currentIndex + Count(bd), Count(bd), 1, bd.currentIndex);
  }

  /** Index of the first non-empty name equal to `query` at or after `from`,
      or -1: the loop of `SetBackgroundByName`. */
  function FindName(names: seq<string>, query: string, from: nat): (i: int)
    requires from <= |names|
    ensures i == -1 || from <= i < |names|
    ensures i >= 0 ==> names[i] != "" && names[i] == query
    ensures i >= 0 ==> forall j :: from <= j < i ==> names[j] == "" || names[j] != query
    ensures i == -1 <==> forall j :: from <= j < |names| ==> names[j] == "" || names[j] != query
    decreases |names| - from
  {
    if from == |names| then -1
    else if names[from] != "" && names[from] == query then from
    else FindName(names, query, from + 1)
  }

  /** `SetBackgroundByName`: select the first entry named `query`; without
      one (or without an array) nothing changes. */
  function SetBackgroundByName(bd: Selection, query: string): (r: Selection)
    ensures bd.backgrounds.None? ==> r == bd
    ensures bd.backgrounds.Some? ==>
              var names := bd.backgrounds.value;
              ((forall j :: 0 <= j < |names| ==> names[j] == "" || names[j] != query) ==> r == bd)
    ensures bd.backgrounds.Some? ==>
              var names := bd.backgrounds.value;
              forall i :: 0 <= i < |names| && names[i] != "" && names[i] == query &&
                          (forall j :: 0 <= j < i ==> names[j] == "" || names[j] != query) ==>
                            r == bd.(currentIndex := i)
  {
    match bd.backgrounds
    case None => bd
    case Some(names) =>
      var i := FindName(names, query, 0);
      if i < 0 then bd else SetBackground(bd, i)
  }

  /** `OnEnable`: with backgrounds, the start index is clamped into range and
      shown; without, the indices stay as they are. */
  function OnEnable(bd: Selection): (r: Selection)
    ensures Count(bd) == 0 ==> r == bd
    ensures Count(bd) > 0 ==> 0 <= r.startIndex < Count(bd) && r.currentIndex == r.startIndex
    ensures Count(bd) > 0 && 0 <= bd.startIndex < Count(bd) ==> r.startIndex == bd.startIndex
    ensures Count(bd) > 0 && bd.startIndex < 0 ==> r.startIndex == 0
    ensures Count(bd) > 0 && bd.startIndex >= Count(bd) ==> r.startIndex == Count(bd) - 1
    ensures r.backgrounds == bd.backgrounds
  {
    if Count(bd) == 0 then bd
    else
      var start := Util.Clamp(bd.startIndex, 0, Count(bd) - 1);
      SetBackground(bd.(startIndex := start), start)
  }
}
