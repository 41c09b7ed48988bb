/**
 The ejection time of an endpoint doubles with every ejection in a row, up to
 a maximum. Durations are 64-bit nanosecond counts and wrap around.
 */
module EjectBackoff {

  const SECOND: int := 1_000_000_000
  const HALF: int := 0x4000_0000_0000_0000
  const LIMIT: int := 0x8000_0000_0000_0000

  /** A 64-bit signed result. */
  function Wrap(x: int): (r: int)
    ensures -LIMIT <= x < LIMIT ==> r == x
    ensures LIMIT <= x < 2 * LIMIT ==> r == x - 2 * LIMIT
  {
    (x + LIMIT) % (2 * LIMIT) - LIMIT
  }

  function Pow2(n: nat): (r: nat)
    ensures 1 <= r
  {
    if n == 0 then 1 else 2 * Pow2(n - 1)
  }

  function Min(a: int, b: int): int { if a < b then a else b }

  /** What the ejection time is meant to be: the base doubled `n` times, capped. */
  function Backoff(base: int, max: int, n: nat): int { Min(max, base * Pow2(n)) }

  /** Each ejection in a row lasts twice as long as the one before, up to the maximum. */
  lemma BackoffDoubles(base: int, max: int, n: nat)
    requires 0 <= base && 0 <= max
    ensures Backoff(base, max, 0) == (if base < max then base else max)
    ensures Backoff(base, max, n + 1) == if 2 * Backoff(base, max, n) < max then 2 * Backoff(base, max, n) else max
  {
    assert base * Pow2(n + 1) == 2 * (base * Pow2(n));
  }

  /** What the doubling loop leaves in `duration` with `n` doublings to go. */
  function Doubled(duration: int, max: int, n: nat): int
    decreases n
  {
    if n == 0 then duration
    else if max <= Wrap(2 * duration) then max
    else Doubled(Wrap(2 * duration), max, n - 1)
  }

  /** The loop shared by active health checks and outlier detection. */
  method EjectDuration(configBase: int, configMax: int, count: nat) returns (duration: int)
    requires 1 <= count
    requires configBase < LIMIT && configMax < LIMIT
    ensures
      var base := if configBase <= 0 then SECOND else configBase;
      var max := if configMax <= 0 then base else configMax;
      && duration == Min(Doubled(base, max, count - 1), max)
      && (base < HALF && max <= TopDouble(base) ==> duration == Backoff(base, max, count - 1))
  {
    var base, max := configBase, configMax;
    if base <= 0 {
      base := SECOND;
    }
    if max <= 0 {
      max := base;
    }
    duration := base;
    var i := 1;
    while i < count
      invariant 1 <= i <= count
      invariant Doubled(duration, max, count - i) == Doubled(base, max, count - 1)
    {
      duration := Wrap(duration * 2);
      if duration >= max {
        duration := max;
        break;
      }
      i := i + 1;
    }
    if duration > max {
      duration := max;
    }
    if base < HALF && max <= TopDouble(base) {
      DoubledIsBackoff(base, max, count - 1);
    }
  }

  // ------------------------------------------------------------------
  // Exactly when the doubling does not wrap around
  // ------------------------------------------------------------------

  /** The largest doubling of `base` that still fits in a duration. */
  function TopDouble(base: int): (top: int)
    requires 0 < base < LIMIT
    ensures base <= top && HALF <= top < LIMIT
    ensures base < HALF ==> 2 * base <= top
    decreases LIMIT - base
  {
    if base < HALF then TopDouble(2 * base) else base
  }

  lemma {:induction false} DoubledIsBackoff(base: int, max: int, n: nat)
    requires 0 < base < HALF && 0 < max <= TopDouble(base)
    ensures Min(Doubled(base, max, n), max) == Backoff(base, max, n)
    decreases n
  {
    if n != 0 {
      ShiftPow2(base, n);
      if max <= 2 * base {
        GrowPow2(2 * base, n - 1);
      } else {
        DoubledIsBackoff(2 * base, max, n - 1);
      }
    }
  }

  lemma ShiftPow2(base: int, n: nat)
    requires n != 0
    ensures base * Pow2(n) == (2 * base) * Pow2(n - 1)
  {}

  lemma {:induction false} GrowPow2(base: int, n: nat)
    requires 0 < base
    ensures base <= base * Pow2(n)
  {
    if n != 0 {
      GrowPow2(base, n - 1);
      assert base * Pow2(n) == 2 * (base * Pow2(n - 1));
    }
  }

  /** Past that bound some number of doublings ends below zero. */
  lemma {:induction false} DoublingWraps(base: int, max: int) returns (n: nat)
    requires 0 < base < LIMIT && 0 < max < LIMIT
    requires HALF <= base || TopDouble(base) < max
    ensures Doubled(base, max, n) < 0
    decreases LIMIT - base
  {
    if HALF <= base {
      n := 1;
      assert Doubled(Wrap(2 * base), max, 0) == Wrap(2 * base);
    } else {
      n := DoublingWraps(2 * base, max);
      n := n + 1;
    }
  }

  /** The loop computes the capped doubling for every count if and only if the top doubling reaches the cap. */
  lemma DoublingExactly(base: int, max: int)
    requires 0 < base < LIMIT && 0 < max < LIMIT
    ensures (forall n: nat :: Min(Doubled(base, max, n), max) == Backoff(base, max, n))
       <==> base < HALF && max <= TopDouble(base)
  {
    if base < HALF && max <= TopDouble(base) {
      forall n: nat
        ensures Min(Doubled(base, max, n), max) == Backoff(base, max, n)
      {
        DoubledIsBackoff(base, max, n);
      }
    } else {
      var n := DoublingWraps(base, max);
      GrowPow2(base, n);
      assert Min(Doubled(base, max, n), max) != Backoff(base, max, n);
    }
  }
}
