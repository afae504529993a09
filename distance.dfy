/** The distance a target record reports: round(sqrt(x*x + y*y)), computed
    exactly on integers. */
module Ld2450Distance {

  /** n * n, written as a sum of odd numbers so that the decoding lemmas stay
      within linear arithmetic. */
  function Sq(n: nat): nat
  {
    if n == 0 then 0 else Sq(n - 1) + 2 * n - 1
  }

  lemma {:induction false} SqIsProduct(n: nat)
    ensures Sq(n) == n * n
  {
    if n > 0 {
      SqIsProduct(n - 1);
    }
  }

  lemma {:induction false} SqOfDouble(n: nat)
    ensures Sq(2 * n) == 4 * Sq(n)
  {
    if n > 0 {
      SqOfDouble(n - 1);
      assert Sq(2 * n) == Sq(2 * n - 2) + 8 * n - 4;
    }
  }

  lemma {:induction false} SqMonotone(a: nat, b: nat)
    ensures a <= b ==> Sq(a) <= Sq(b)
    decreases b
  {
    if a < b {
      SqMonotone(a, b - 1);
    }
  }

  /** k is sqrt(n) rounded to the nearest integer: k - 1/2 <= sqrt(n) < k + 1/2,
      stated on squares. (sqrt(n) is never exactly halfway between two integers.) */
  predicate IsRoundedRoot(n: nat, k: nat)
  {
    (k == 0 || Sq(2 * k - 1) <= 4 * n) && 4 * n < Sq(2 * k + 1)
  }

  /** floor(sqrt(n)), by recursion on n / 4 (one level per pair of bits). */
  function FloorSqrt(n: nat): nat
    decreases n
  {
    if n < 4 then (if n == 0 then 0 else 1)
    else
      var r := 2 * FloorSqrt(n / 4);
      if Sq(r + 1) <= n then r + 1 else r
  }

  lemma {:induction false} FloorSqrtIsFloorRoot(n: nat)
    ensures Sq(FloorSqrt(n)) <= n < Sq(FloorSqrt(n) + 1)
    decreases n
  {
    if n >= 4 {
      FloorSqrtIsFloorRoot(n / 4);
      FloorRootStep(n, n / 4, FloorSqrt(n / 4));
    } else {
      assert Sq(2) == 4;
    }
  }

  /** From the floor root s of q = n / 4, the floor root of n is 2s or 2s + 1. */
  lemma FloorRootStep(n: nat, q: nat, s: nat)
    requires 4 * q <= n < 4 * q + 4
    requires Sq(s) <= q < Sq(s + 1)
    ensures Sq(2 * s) <= n < Sq(2 * s + 2)
  {
    SqOfDouble(s);
    SqOfDouble(s + 1);
  }

  /** round(sqrt(n)), computed exactly on integers. */
  function RoundSqrt(n: nat): nat
  {
    var r := FloorSqrt(n);
    if 4 * n >= Sq(2 * r + 1) then r + 1 else r
  }

  /** RoundSqrt(n) is the rounded square root of n. */
  lemma RoundSqrtIsRoundedRoot(n: nat)
    ensures IsRoundedRoot(n, RoundSqrt(n))
  {
    FloorSqrtIsFloorRoot(n);
    RoundingOfFloorRoot(n, FloorSqrt(n));
  }

  /** Rounding up from the floor root r exactly when sqrt(n) >= r + 1/2
      gives the rounded root. */
  lemma RoundingOfFloorRoot(n: nat, r: nat)
    requires Sq(r) <= n < Sq(r + 1)
    ensures IsRoundedRoot(n, if 4 * n >= Sq(2 * r + 1) then r + 1 else r)
  {
    SqOfDouble(r);
    SqOfDouble(r + 1);
    // Now Sq(2r) <= 4n < Sq(2r + 2).
    if 4 * n >= Sq(2 * r + 1) {
      SqStep(2 * r + 2);
    } else if r > 0 {
      SqStep(2 * r - 1);
    }
  }

  lemma SqStep(m: nat)
    ensures Sq(m) <= Sq(m + 1)
  {
  }

  /** The rounded root is unique, so RoundSqrt is the only function meeting its contract. */
  lemma RoundSqrtUnique(n: nat, k: nat)
    requires IsRoundedRoot(n, k)
    ensures RoundSqrt(n) == k
  {
    var r := RoundSqrt(n);
    RoundSqrtIsRoundedRoot(n);
    if r > 0 {
      SqMonotone(2 * k + 1, 2 * r - 1);
    }
    if k > 0 {
      SqMonotone(2 * r + 1, 2 * k - 1);
    }
  }

  /** |x| */
  function Abs(x: int): nat
  {
    if x < 0 then -x else x
  }

  lemma SqOfAbs(x: int)
    ensures Sq(Abs(x)) == x * x
  {
    SqIsProduct(Abs(x));
  }

  /** Distance of a point from the sensor, in mm: sqrt(x*x + y*y) rounded to
      the nearest integer. */
  function RoundedNorm(x: int, y: int): (d: nat)
    ensures IsRoundedRoot(x * x + y * y, d)
  {
    var n := Sq(Abs(x)) + Sq(Abs(y));
    SqOfAbs(x);
    SqOfAbs(y);
    assert n == x * x + y * y;
    RoundSqrtIsRoundedRoot(n);
    RoundSqrt(n)
  }

  /** Conversely, the integer within one half of sqrt(x*x + y*y) is the distance. */
  lemma RoundedNormIs(x: int, y: int, k: nat)
    requires k == 0 || (2 * k - 1) * (2 * k - 1) <= 4 * (x * x + y * y)
    requires 4 * (x * x + y * y) < (2 * k + 1) * (2 * k + 1)
    ensures RoundedNorm(x, y) == k
  {
    SqOfAbs(x);
    SqOfAbs(y);
    if k > 0 {
      SqIsProduct(2 * k - 1);
    }
    SqIsProduct(2 * k + 1);
    RoundSqrtUnique(x * x + y * y, k);
  }

  /** The distances of the targets in the three-slot frame of Ld2450Frame.ThreeSlotScenario. */
  lemma ScenarioDistances()
    ensures RoundedNorm(100, 50) == 112 && RoundedNorm(-20, 30) == 36 && RoundedNorm(0, 0) == 0
  {
    RoundedNormIs(100, 50, 112);
    RoundedNormIs(-20, 30, 36);
    RoundedNormIs(0, 0, 0);
  }
}
