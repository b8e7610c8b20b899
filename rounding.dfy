/** round(x, 2), the rounding applied to every ratio and average. */
module Rounding {

  /** True when x has at most two decimal places. */
  predicate IsCents(x: real) {
    (x * 100.0).Floor as real == x * 100.0
  }

  /** Rounds to the nearest multiple of 0.01; an exact half goes to the even
      multiple, as Python 3's round does. */
  function Round2(x: real): (r: real)
    ensures IsCents(r)
    ensures -0.005 <= r - x <= 0.005
  {
    var scaled := x * 100.0;
    var n := scaled.Floor;
    var frac := scaled - n as real;
    var k := if frac < 0.5 then n
             else if frac > 0.5 then n + 1
             else if n % 2 == 0 then n else n + 1;
    assert -0.5 <= k as real - scaled <= 0.5;
    assert (k as real / 100.0) * 100.0 == k as real;
    assert k as real / 100.0 - x == (k as real - scaled) / 100.0;
    k as real / 100.0
  }

  /** A value that already has two decimal places is left alone. */
  lemma Round2OfCents(x: real)
    requires IsCents(x)
    ensures Round2(x) == x
  {
    var n := (x * 100.0).Floor;
    assert x * 100.0 - n as real == 0.0;
    assert n as real / 100.0 == x;
  }

  /** The half-way rule is half-to-even: 0.125 rounds down, 0.375 rounds up. */
  lemma Round2HalfToEven()
    ensures Round2(0.125) == 0.12
    ensures Round2(0.375) == 0.38
  {
    assert (0.125 * 100.0).Floor == 12;
    assert (0.375 * 100.0).Floor == 37;
  }
}
