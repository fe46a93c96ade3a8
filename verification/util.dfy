/**
 * Integer helpers shared by the engine: C#'s truncating remainder, Unity's
 * `Mathf.Clamp` and `Random.Range`, and the two array helpers of `Util`.
 */
module Util {

  /** Dafny's `%` and `/` are the unique remainder and quotient with
      `0 <= r < n`. */
  lemma ModUnique(x: int, n: int, q: int, r: int)
    requires n > 0 && 0 <= r < n && x == n * q + r
    ensures x % n == r && x / n == q
  {
    var d := q - x / n;
    assert n * d == n * q - n * (x / n);
    assert n * d == x % n - r;
  }

  /** An index already in range is its own remainder. */
  lemma SmallRem(i: int, n: int)
    requires n > 0
    ensures 0 <= i < n ==> i % n == i
  {
    if 0 <= i < n {
      ModUnique(i, n, 0, i);
    }
  }

  /** Adding one before or after taking the remainder agrees. */
  lemma RemStep(x: int, n: int)
    requires n > 0
    ensures (x + 1) % n == (x % n + 1) % n
  {
    var q := x / n;
    var r := x % n;
    assert x == n * q + r;
    if r + 1 < n {
      ModUnique(x + 1, n, q, r + 1);
      SmallRem(r + 1, n);
    } else {
      ModUnique(x + 1, n, q + 1, 0);
      ModUnique(r + 1, n, 1, 0);
    }
  }

  /** C#'s `%` on `int` with a positive divisor: the quotient truncates toward
      zero, so a non-zero remainder takes the sign of the dividend (Dafny's
      own `%` never goes negative). */
  function CsRem(i: int, n: int): (r: int)
    requires n > 0
    ensures -n < r < n
    ensures 0 <= i ==> r == i % n
    ensures i < 0 ==> r <= 0
    ensures i < 0 ==> (r == 0 <==> i % n == 0)
  {
    if i >= 0 then i % n
    else
      var r := -((-i) % n);
      assert r == 0 <==> i % n == 0 by {
        var q := (-i) / n;
        assert -i == n * q + (-i) % n;
        if r == 0 {
          ModUnique(i, n, -q, 0);
        } else {
          ModUnique(i, n, -q - 1, n + r);
        }
      }
      r
  }

  /** Unity's integer `Mathf.Clamp`: below `lo` gives `lo`, above `hi` gives `hi`. */
  function Clamp(v: int, lo: int, hi: int): (r: int)
    requires lo <= hi
    ensures lo <= r <= hi
    ensures lo <= v <= hi ==> r == v
    ensures v < lo ==> r == lo
    ensures hi < v ==> r == hi
  {
    if v < lo then lo else if v > hi then hi else v
  }

  /** Unity's integer `Random.Range(lo, hi)`: a value in `[lo, hi)`, or `lo`
      when `hi == lo`.  Every call here has `lo <= hi`; Unity's behaviour
      for reversed bounds is not modelled.  The generator itself is not
      modelled: `roll` is whatever the generator produced, reduced into the
      range. */
  function RandomRange(roll: nat, lo: int, hi: int): (r: int)
    requires lo <= hi
    ensures lo < hi ==> lo <= r < hi
    ensures hi == lo ==> r == lo
  {
    if hi == lo then lo else lo + roll % (hi - lo)
  }

  /** Every value of a non-empty range is a possible draw. */
  lemma RandomRangeReachesAll(lo: int, hi: int, j: int)
    requires lo <= j < hi
    ensures RandomRange(j - lo, lo, hi) == j
  {
    assert (j - lo) % (hi - lo) == j - lo;
  }

  /** `Util.GetRandomInArray`: an element at a random index.  An empty
      array makes the source index out of bounds, hence the precondition. */
  function GetRandomInArray<T>(a: seq<T>, roll: nat): (r: T)
    requires |a| > 0
    ensures r in a
  {
    a[RandomRange(roll, 0, |a|)]
  }

  /** Any element of the array can be the one returned. */
  lemma GetRandomInArrayReachesAll<T>(a: seq<T>, j: nat)
    requires j < |a|
    ensures GetRandomInArray(a, j) == a[j]
  {
    RandomRangeReachesAll(0, |a|, j);
  }

  /** `Util.GetRepeatingElement`: `a[i % a.Length]` with C#'s remainder.  The
      source throws unless the array is non-empty and that remainder is a
      valid index, which the precondition states exactly. */
  function GetRepeatingElement<T>(a: seq<T>, i: int): (r: T)
    requires |a| > 0 && CsRem(i, |a|) >= 0
    ensures r in a
    ensures 0 <= i < |a| ==> r == a[i]
  {
    SmallRem(i, |a|);
    a[CsRem(i, |a|)]
  }

  /** Wherever it is defined, the element is the one Euclidean `%` selects. */
  lemma RepeatingIsEuclidean<T>(a: seq<T>, i: int)
    requires |a| > 0 && CsRem(i, |a|) >= 0
    ensures GetRepeatingElement(a, i) == a[i % |a|]
  {
    var n := |a|;
    if i < 0 {
      assert CsRem(i, n) == 0 && i % n == 0;
    } else {
      assert CsRem(i, n) == i % n;
    }
  }

  /** Which indices the source accepts: every non-negative one, and a
      negative one only when it is a multiple of the length (remainder 0). */
  lemma RepeatingDomain(n: int, i: int)
    requires n > 0
    ensures CsRem(i, n) >= 0 <==> (i >= 0 || i % n == 0)
  {
  }

  /** The element sequence repeats with period `|a|` over non-negative indices. */
  lemma RepeatingIsPeriodic<T>(a: seq<T>, i: int)
    requires |a| > 0 && i >= 0
    ensures GetRepeatingElement(a, i + |a|) == GetRepeatingElement(a, i)
  {
    var n := |a|;
    ModUnique(i + n, n, i / n + 1, i % n);
  }
}
