/** Capped exponential backoff, in exact arithmetic. */
module Backoff {
  import opened Wrappers

  function Pow2(n: nat): (p: real)
    ensures p >= 1.0
  {
    if n == 0 then 1.0 else 2.0 * Pow2(n - 1)
  }

  /** The ceiling of the binary logarithm. */
  function CeilLog2(x: real): nat
    requires x >= 1.0
    decreases x.Floor
  {
    if x == 1.0 then 0 else if x <= 2.0 then 1 else 1 + CeilLog2(x / 2.0)
  }

  function Min(x: real, y: real): real {
    if x <= y then x else y
  }

  /** The delay after `failures` failures in a row: doubled each time and capped, without any exponents. */
  function Delay(initial: real, maximum: real, failures: nat): real {
    if failures == 0 then initial else Min(2.0 * Delay(initial, maximum, failures - 1), maximum)
  }

  /** What the exponent gives directly. */
  function Computed(initial: real, maximum: real, exponent: nat): real {
    Min(initial * Pow2(exponent), maximum)
  }

  class ExponentialBackoff {
    const initial: real
    const maximum: real
    var attempt: nat
    ghost var previous: Option<real>  // the delay given last since the last reset

    ghost predicate Valid()
      reads this
    {
      && 0.0 < initial <= maximum
      && previous == if attempt == 0 then None else Some(Delay(initial, maximum, attempt - 1))
    }

    constructor (initial: real, maximum: real)
      requires 0.0 < initial <= maximum
      ensures this.initial == initial && this.maximum == maximum && attempt == 0 && previous == None && Valid()
    {
      this.initial, this.maximum, attempt, previous := initial, maximum, 0, None;
    }

    static method Create(initial: real, maximum: real) returns (r: Result<ExponentialBackoff>)
      ensures r.Ok? <==> 0.0 < initial <= maximum
      ensures r.Ok? ==>
                && fresh(r.value) && r.value.initial == initial && r.value.maximum == maximum
                && r.value.attempt == 0 && r.value.previous == None && r.value.Valid()
    {
      if initial <= 0.0 || maximum <= 0.0 {
        return Err("backoff values must be positive");
      }
      if initial > maximum {
        return Err("initial backoff must not exceed maximum");
      }
      var backoff := new ExponentialBackoff(initial, maximum);
      return Ok(backoff);
    }

    /** The first delay after a reset is the initial one, each other twice the one before, up to the maximum. */
    method NextDelay() returns (delay: real)
      requires Valid()
      modifies this
      ensures Valid() && delay == Delay(initial, maximum, old(attempt))
      ensures attempt == old(attempt) + 1 && previous == Some(delay)
      ensures match old(previous)
              case None => delay == initial
              case Some(before) => delay == if 2.0 * before <= maximum then 2.0 * before else maximum
    {
      hide Computed, Pow2, CeilLog2;
      RatioAtLeastOne(initial, maximum);
      var maxExponent := CeilLog2(maximum / initial);
      var exponent := if attempt <= maxExponent then attempt else maxExponent;
      delay := Computed(initial, maximum, exponent);
      DoublingIsPower(initial, maximum, exponent);
      ClampingIsHarmless(initial, maximum, attempt);
      attempt := attempt + 1;
      previous := Some(delay);
    }

    method Reset()
      requires 0.0 < initial <= maximum
      modifies this
      ensures Valid() && attempt == 0 && previous == None
    {
      attempt := 0;
      previous := None;
    }
  }

  lemma PowerDoubles(x: real, n: nat)
    ensures x * Pow2(0) == x
    ensures x * Pow2(n + 1) == 2.0 * (x * Pow2(n))
  {
  }

  /** Doubling step by step and computing with the exponent are the same. */
  lemma {:induction false} DoublingIsPower(initial: real, maximum: real, failures: nat)
    requires 0.0 < initial <= maximum
    ensures Delay(initial, maximum, failures) == Computed(initial, maximum, failures)
  {
    hide Pow2;
    if failures == 0 {
      PowerDoubles(initial, 0);
    } else {
      PowerDoubles(initial, failures - 1);
      DoublingIsPower(initial, maximum, failures - 1);
      CappedTwice(initial * Pow2(failures - 1), maximum);
    }
  }

  lemma CappedTwice(x: real, maximum: real)
    requires 0.0 < maximum
    ensures Min(2.0 * Min(x, maximum), maximum) == Min(2.0 * x, maximum)
  {
  }

  lemma RatioAtLeastOne(initial: real, maximum: real)
    requires 0.0 < initial <= maximum
    ensures maximum / initial >= 1.0
  {
    assert maximum / initial >= initial / initial;
  }

  lemma {:induction false} Pow2Grows(m: nat, n: nat)
    requires m <= n
    ensures Pow2(m) <= Pow2(n)
    decreases n - m
  {
    if m < n {
      Pow2Grows(m, n - 1);
    }
  }

  /** The ceiling of the logarithm is the least exponent that reaches `x`. */
  lemma {:induction false} CeilLog2IsLeast(x: real, k: nat)
    requires x >= 1.0
    ensures k >= CeilLog2(x) <==> Pow2(k) >= x
    decreases k
  {
    if x > 2.0 && k > 0 {
      CeilLog2IsLeast(x / 2.0, k - 1);
    } else if x > 1.0 && k > 0 {
      Pow2Grows(1, k);
      assert Pow2(1) == 2.0;
    }
  }

  lemma Reaches(initial: real, maximum: real, power: real)
    requires 0.0 < initial <= maximum
    ensures initial * power >= maximum <==> power >= maximum / initial
  {
    var ratio := maximum / initial;
    assert initial * ratio == maximum;
    if power >= ratio {
      assert initial * power >= initial * ratio;
    } else {
      assert initial * power < initial * ratio;
    }
  }

  /** The cap is in force exactly from the ceil(log2(maximum / initial))-th failure on, and then for good. */
  lemma CapReachedExactly(initial: real, maximum: real, failures: nat)
    requires 0.0 < initial <= maximum
    ensures maximum / initial >= 1.0
    ensures Delay(initial, maximum, failures) == maximum <==> failures >= CeilLog2(maximum / initial)
  {
    hide Delay, Pow2, CeilLog2;
    RatioAtLeastOne(initial, maximum);
    DoublingIsPower(initial, maximum, failures);
    CeilLog2IsLeast(maximum / initial, failures);
    Reaches(initial, maximum, Pow2(failures));
  }

  lemma ClampingIsHarmless(initial: real, maximum: real, failures: nat)
    requires 0.0 < initial <= maximum
    ensures maximum / initial >= 1.0
    ensures var cap := CeilLog2(maximum / initial);
            Delay(initial, maximum, if failures <= cap then failures else cap) == Delay(initial, maximum, failures)
  {
    hide Delay, CeilLog2;
    RatioAtLeastOne(initial, maximum);
    CapReachedExactly(initial, maximum, failures);
    CapReachedExactly(initial, maximum, CeilLog2(maximum / initial));
  }

  /** Delays never shrink between resets and stay within the configured bounds. */
  lemma DelaysGrowWithinBounds(initial: real, maximum: real, m: nat, n: nat)
    requires 0.0 < initial <= maximum && m <= n
    ensures initial <= Delay(initial, maximum, m) <= Delay(initial, maximum, n) <= maximum
  {
    hide Delay, Pow2;
    DoublingIsPower(initial, maximum, m);
    DoublingIsPower(initial, maximum, n);
    Pow2Grows(m, n);
    ScaledGrows(initial, maximum, Pow2(m), Pow2(n));
  }

  lemma ScaledGrows(initial: real, maximum: real, x: real, y: real)
    requires 0.0 < initial <= maximum && 1.0 <= x <= y
    ensures initial <= Min(initial * x, maximum) <= Min(initial * y, maximum) <= maximum
  {
    assert initial * 1.0 <= initial * x <= initial * y;
  }
}
