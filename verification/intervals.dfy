/** The timing arithmetic of `resetIntervals`: frame k of n ends at the
    exact even share (k+1)·100/n rounded half-up to one decimal, and the last
    frame ends at exactly 100. Numbers are exact reals; `Math.round(v)` is
    `floor(v + 0.5)`. */
module Intervals {

  /** `r` is `x` rounded half-up to a whole number of tenths. */
  predicate IsTenthRoundingOf(r: real, x: real) {
    && x - 0.05 < r <= x + 0.05
    && (r * 10.0).Floor as real == r * 10.0
  }

  /** `Math.round(x * 10) / 10`. */
  function RoundTenth(x: real): (r: real)
    ensures IsTenthRoundingOf(r, x)
  {
    ((x * 10.0 + 0.5).Floor as real) / 10.0
  }

  /** Rounding to tenths has exactly one answer, so `IsTenthRoundingOf`
      determines `RoundTenth`. */
  lemma RoundTenthUnique(x: real, r: real)
    requires IsTenthRoundingOf(r, x)
    ensures r == RoundTenth(x)
  {
    var a := (r * 10.0).Floor;
    var b := (RoundTenth(x) * 10.0).Floor;
    assert a as real == r * 10.0;
    assert b as real == RoundTenth(x) * 10.0;
    assert x * 10.0 - 0.5 < a as real <= x * 10.0 + 0.5;
    assert x * 10.0 - 0.5 < b as real <= x * 10.0 + 0.5;
    assert a - b < 1 && b - a < 1;
  }

  /** Rounding preserves order. */
  lemma RoundTenthMonotone(x: real, y: real)
    requires x <= y
    ensures RoundTenth(x) <= RoundTenth(y)
  {
    var a := (x * 10.0 + 0.5).Floor;
    var b := (y * 10.0 + 0.5).Floor;
    assert a as real <= x * 10.0 + 0.5 <= y * 10.0 + 0.5 < b as real + 1.0;
    assert a <= b;
  }

  /** The exact, unrounded end of frame k's slice when n frames share the
      timeline evenly: (k+1) · (100/n). */
  function EqualShare(k: nat, n: nat): real
    requires 0 < n
  {
    (k + 1) as real * (100.0 / n as real)
  }

  /** The interval `resetIntervals` gives frame k of n. */
  function EvenInterval(k: nat, n: nat): real
    requires k < n
  {
    if k == n - 1 then 100.0 else RoundTenth(EqualShare(k, n))
  }

  /** Equal shares grow with the frame index and reach 100 at the last frame. */
  lemma EqualShareMonotone(j: nat, k: nat, n: nat)
    requires j <= k < n
    ensures EqualShare(j, n) <= EqualShare(k, n) <= 100.0
  {
    var q := 100.0 / n as real;
    assert q > 0.0;
    assert (n as real) * q == 100.0;
    assert (j + 1) as real <= (k + 1) as real <= n as real;
    assert (j + 1) as real * q <= (k + 1) as real * q <= (n as real) * q;
  }

  /** Every interval is the rounded even share except the last, which is 100. */
  lemma EvenIntervalIsRoundedShare(k: nat, n: nat)
    requires k < n
    ensures k == n - 1 ==> EvenInterval(k, n) == 100.0
    ensures k < n - 1 ==> IsTenthRoundingOf(EvenInterval(k, n), EqualShare(k, n))
  {
  }

  /** Intervals never decrease along the list, start at no less than 0 and end
      at no more than 100. */
  lemma {:induction false} EvenIntervalMonotone(j: nat, k: nat, n: nat)
    requires j <= k < n
    ensures 0.0 <= EvenInterval(j, n) <= EvenInterval(k, n) <= 100.0
  {
    EqualShareMonotone(j, k, n);
    EqualShareMonotone(j, n - 1, n);
    RoundTenthMonotone(0.0, EqualShare(j, n));
    assert RoundTenth(0.0) == 0.0;
    assert RoundTenth(100.0) == 100.0;
    if k < n - 1 {
      RoundTenthMonotone(EqualShare(j, n), EqualShare(k, n));
      RoundTenthMonotone(EqualShare(k, n), 100.0);
    } else if j < n - 1 {
      RoundTenthMonotone(EqualShare(j, n), 100.0);
    }
  }
}
