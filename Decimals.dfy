/**
  Exact decimal arithmetic used by the widget (decimal.js in the source),
  with amounts modelled as Dafny's exact `real`.
  - FloorToStep: `decimal.div(step).floor().mul(step)`.
  - RoundHalfUp: `toFixed(d)` under decimal.js's default ROUND_HALF_UP mode,
    which rounds a tie away from zero.
 */
module Decimals {

  /** The number of fractional digits every amount of the widget fits in:
      the target field steps by 0.000001 and conversions round to 6 digits. */
  const AmountDigits: nat := 6

  function Pow10(k: nat): (p: nat)
    ensures p >= 1
  {
    if k == 0 then 1 else 10 * Pow10(k - 1)
  }

  /** x shifted k decimal places to the left: x * 10^k. */
  function Scale(x: real, k: nat): real {
    if k == 0 then x else 10.0 * Scale(x, k - 1)
  }

  /** The integer n shifted k decimal places to the right: n / 10^k. */
  function Unscale(n: int, k: nat): real {
    if k == 0 then n as real else Unscale(n, k - 1) / 10.0
  }

  /** How many times step fits in v. */
  function Ratio(v: real, step: real): real
    requires step > 0.0
  {
    v / step
  }

  predicate IsInteger(y: real) {
    y.Floor as real == y
  }

  /** x has at most k fractional decimal digits. */
  predicate IsScaled(x: real, k: nat) {
    IsInteger(Scale(x, k))
  }

  /** x is an integer multiple of step. */
  predicate IsMultipleOf(x: real, step: real)
    requires step > 0.0
  {
    IsInteger(Ratio(x, step))
  }

  // Facts of real arithmetic, each small enough for the solver on its own.

  lemma FloorBounds(y: real)
    ensures y.Floor as real <= y < y.Floor as real + 1.0
  {}

  lemma IntegerIsInteger(n: int)
    ensures IsInteger(n as real)
  {}

  lemma MulCast(a: int, b: int)
    ensures (a * b) as real == a as real * b as real
  {}

  lemma MulEqual(a: real, b: real, c: real)
    requires b == c
    ensures a * b == a * c
  {}

  lemma MulMono(a: real, b: real, c: real)
    requires a <= b && c > 0.0
    ensures a * c <= b * c
  {}

  lemma MulMonoNonneg(a: real, b: real, c: real)
    requires a <= b && c >= 0.0
    ensures a * c <= b * c
  {}

  lemma MulStrict(a: real, b: real, c: real)
    requires a < b && c > 0.0
    ensures a * c < b * c
  {}

  lemma DivMonoLe(a: real, b: real, p: real)
    requires a <= b && p > 0.0
    ensures a / p <= b / p
  {}

  lemma NearZeroInteger(n: int)
    requires -1.0 < n as real < 1.0
    ensures n == 0
  {}

  lemma MulCancel(a: real, b: real, c: real)
    requires a * c < b * c && c > 0.0
    ensures a < b
  {}

  lemma RatioMul(v: real, s: real)
    requires s > 0.0
    ensures Ratio(v, s) * s == v
  {}

  // Shifting by powers of ten, one decimal place at a time.

  lemma {:induction false} ScaleAdd(x: real, y: real, k: nat)
    ensures Scale(x + y, k) == Scale(x, k) + Scale(y, k)
  {
    if k > 0 {
      ScaleAdd(x, y, k - 1);
    }
  }

  lemma {:induction false} ScaleTimes(c: real, x: real, k: nat)
    ensures Scale(c * x, k) == c * Scale(x, k)
  {
    if k > 0 {
      ScaleTimes(c, x, k - 1);
    }
  }

  lemma {:induction false} ScaleNeg(x: real, k: nat)
    ensures Scale(-x, k) == -Scale(x, k)
  {
    if k > 0 {
      ScaleNeg(x, k - 1);
    }
  }

  /** Shifting preserves the sign. */
  lemma {:induction false} ScaleSign(z: real, k: nat)
    ensures z > 0.0 ==> Scale(z, k) > 0.0
    ensures z == 0.0 ==> Scale(z, k) == 0.0
    ensures z < 0.0 ==> Scale(z, k) < 0.0
  {
    if k > 0 {
      ScaleSign(z, k - 1);
    }
  }

  /** Shifting preserves and reflects order and equality. */
  lemma ScaleCompare(a: real, b: real, k: nat)
    ensures a < b <==> Scale(a, k) < Scale(b, k)
    ensures a == b <==> Scale(a, k) == Scale(b, k)
  {
    ScaleAdd(b, -a, k);
    ScaleNeg(a, k);
    assert b + -a == b - a;
    ScaleSign(b - a, k);
  }

  lemma {:induction false} ScaleInt(n: int, k: nat)
    ensures Scale(n as real, k) == (n * Pow10(k)) as real
  {
    if k > 0 {
      ScaleInt(n, k - 1);
      assert n * Pow10(k) == 10 * (n * Pow10(k - 1));
    }
  }

  lemma {:induction false} ScaleUnscale(n: int, k: nat)
    ensures Scale(Unscale(n, k), k) == n as real
  {
    if k > 0 {
      var u := Unscale(n, k - 1);
      ScaleUnscale(n, k - 1);
      ScaleTenth(u, k - 1);
      assert Scale(Unscale(n, k), k) == 10.0 * Scale(u / 10.0, k - 1);
    }
  }

  lemma {:induction false} ScaleTenth(x: real, k: nat)
    ensures Scale(x / 10.0, k) == Scale(x, k) / 10.0
  {
    if k > 0 {
      ScaleTenth(x, k - 1);
    }
  }

  /** Shifting by j and then by i is shifting by j + i. */
  lemma {:induction false} ScaleCompose(x: real, j: nat, i: nat)
    ensures Scale(x, j + i) == Scale(Scale(x, j), i)
  {
    if i > 0 {
      ScaleCompose(x, j, i - 1);
    }
  }

  lemma UnscaleNeg(n: int, k: nat)
    ensures Unscale(-n, k) == -Unscale(n, k)
  {
    var u := Unscale(n, k);
    ScaleUnscale(n, k);
    ScaleUnscale(-n, k);
    ScaleNeg(u, k);
    ScaleCompare(Unscale(-n, k), -u, k);
  }

  /** The integer part and the k-digit remainder, put back together. */
  lemma UnscaleSplit(q: int, r: int, k: nat)
    ensures Unscale(q * Pow10(k) + r, k) == q as real + Unscale(r, k)
  {
    ScaleUnscale(q * Pow10(k) + r, k);
    ScaleUnscale(r, k);
    ScaleInt(q, k);
    ScaleAdd(q as real, Unscale(r, k), k);
    ScaleCompare(Unscale(q * Pow10(k) + r, k), q as real + Unscale(r, k), k);
  }

  /** The digits of an amount with k fractional digits shift back to it. */
  lemma UnscaleOfScaled(x: real, k: nat)
    requires IsScaled(x, k)
    ensures Unscale(Scale(x, k).Floor, k) == x
  {
    var n := Scale(x, k).Floor;
    ScaleUnscale(n, k);
    ScaleCompare(Unscale(n, k), x, k);
  }

  lemma IntegerMultiple(n: int, step: real)
    requires step > 0.0
    ensures IsMultipleOf(n as real * step, step)
  {
    assert Ratio(n as real * step, step) == n as real;
    IntegerIsInteger(n);
  }

  lemma IntegerScaled(n: int, k: nat)
    ensures IsScaled(n as real, k)
  {
    ScaleInt(n, k);
    IntegerIsInteger(n * Pow10(k));
  }

  lemma ScaledWiden(x: real, j: nat, k: nat)
    requires j <= k && IsScaled(x, j)
    ensures IsScaled(x, k)
  {
    var n := Scale(x, j).Floor;
    ScaleCompose(x, j, k - j);
    ScaleInt(n, k - j);
    IntegerIsInteger(n * Pow10(k - j));
  }

  /** A multiple of a step with at most k fractional digits has at most k fractional digits. */
  lemma MultipleScaled(x: real, step: real, k: nat)
    requires step > 0.0 && IsMultipleOf(x, step) && IsScaled(step, k)
    ensures IsScaled(x, k)
  {
    var q := Ratio(x, step).Floor;
    var s := Scale(step, k).Floor;
    var c := q as real;
    RatioMul(x, step);
    assert x == c * step;
    ScaleTimes(c, step, k);
    MulEqual(c, Scale(step, k), s as real);
    MulCast(q, s);
    assert Scale(x, k) == (q * s) as real;
    IntegerIsInteger(q * s);
  }

  /** The largest multiple of step that does not exceed v. */
  function FloorToStep(v: real, step: real): (r: real)
    requires step > 0.0
    ensures IsMultipleOf(r, step)
    ensures r <= v < r + step
  {
    var q := Ratio(v, step).Floor;
    FloorBounds(Ratio(v, step));
    IntegerMultiple(q, step);
    MulMono(q as real, Ratio(v, step), step);
    MulStrict(Ratio(v, step), q as real + 1.0, step);
    RatioMul(v, step);
    assert (q as real + 1.0) * step == q as real * step + step;
    assert v < q as real * step + step;
    q as real * step
  }

  /** Of two step multiples less than one step apart, the lower is at most the upper. */
  lemma MultipleBelowNext(m: real, r: real, step: real)
    requires step > 0.0 && IsMultipleOf(m, step) && IsMultipleOf(r, step) && m < r + step
    ensures m <= r
  {
    var a, b := Ratio(m, step).Floor, Ratio(r, step).Floor;
    assert a as real == Ratio(m, step);
    assert b as real == Ratio(r, step);
    RatioMul(m, step);
    RatioMul(r, step);
    assert m == a as real * step;
    assert r == b as real * step;
    assert (b + 1) as real * step == r + step;
    assert a as real * step < (b + 1) as real * step;
    MulCancel(a as real, (b + 1) as real, step);
    assert a <= b;
    MulMono(a as real, b as real, step);
  }

  /** Every multiple of step not above v is at most FloorToStep(v, step). */
  lemma FloorToStepIsGreatest(v: real, step: real, m: real)
    requires step > 0.0 && IsMultipleOf(m, step) && m <= v
    ensures m <= FloorToStep(v, step)
  {
    MultipleBelowNext(m, FloorToStep(v, step), step);
  }

  /** The step multiple in (v - step, v] is FloorToStep(v, step). */
  lemma FloorToStepUnique(v: real, step: real, r: real)
    requires step > 0.0 && IsMultipleOf(r, step) && r <= v < r + step
    ensures r == FloorToStep(v, step)
  {
    FloorToStepIsGreatest(v, step, r);
    MultipleBelowNext(FloorToStep(v, step), r, step);
  }

  /** A value already on the step lattice is left where it is. */
  lemma FloorToStepOfMultiple(v: real, step: real)
    requires step > 0.0 && IsMultipleOf(v, step)
    ensures FloorToStep(v, step) == v
  {
    FloorToStepIsGreatest(v, step, v);
  }

  lemma FloorToStepIdempotent(v: real, step: real)
    requires step > 0.0
    ensures FloorToStep(FloorToStep(v, step), step) == FloorToStep(v, step)
  {
    FloorToStepOfMultiple(FloorToStep(v, step), step);
  }

  lemma FloorToStepMonotonic(v: real, w: real, step: real)
    requires step > 0.0 && v <= w
    ensures FloorToStep(v, step) <= FloorToStep(w, step)
  {
    FloorToStepIsGreatest(w, step, FloorToStep(v, step));
  }


  /** Half a unit in the d-th fractional place. */
  function HalfUnit(d: nat): real {
    0.5 * Unscale(1, d)
  }

  lemma ScaleHalfUnit(d: nat)
    ensures Scale(HalfUnit(d), d) == 0.5
  {
    assert HalfUnit(d) == 0.5 * Unscale(1, d);
    ScaleTimes(0.5, Unscale(1, d), d);
    ScaleUnscale(1, d);
  }

  /** decimal.js `toFixed(d)` with ROUND_HALF_UP: the nearest value with d
      fractional digits, a tie going away from zero. */
  function RoundHalfUp(x: real, d: nat): (r: real)
    ensures IsScaled(r, d)
    ensures x >= 0.0 ==> x - HalfUnit(d) < r <= x + HalfUnit(d)
    ensures x < 0.0 ==> x - HalfUnit(d) <= r < x + HalfUnit(d)
  {
    if x >= 0.0 then
      var n := (Scale(x, d) + 0.5).Floor;
      RoundedScaled(n, d);
      RoundedBounds(x, d, n);
      Unscale(n, d)
    else
      var n := (Scale(-x, d) + 0.5).Floor;
      RoundedScaled(-n, d);
      RoundedBounds(-x, d, n);
      UnscaleNeg(n, d);
      Unscale(-n, d)
  }

  lemma RoundedScaled(n: int, d: nat)
    ensures IsScaled(Unscale(n, d), d)
  {
    ScaleUnscale(n, d);
    IntegerIsInteger(n);
  }

  lemma RoundedBounds(y: real, d: nat, n: int)
    requires n == (Scale(y, d) + 0.5).Floor
    ensures y - HalfUnit(d) < Unscale(n, d) <= y + HalfUnit(d)
  {
    var h := HalfUnit(d);
    FloorBounds(Scale(y, d) + 0.5);
    ScaleHalfUnit(d);
    ScaleUnscale(n, d);
    ScaleAdd(y, -h, d);
    ScaleNeg(h, d);
    assert y + -h == y - h;
    ScaleAdd(y, h, d);
    ScaleCompare(y - h, Unscale(n, d), d);
    ScaleCompare(y + h, Unscale(n, d), d);
  }

  /** Two d-digit values less than one unit of the d-th place apart are equal. */
  lemma ScaledClose(y: real, r: real, d: nat)
    requires IsScaled(y, d) && IsScaled(r, d)
    requires -(2.0 * HalfUnit(d)) < y - r < 2.0 * HalfUnit(d)
    ensures y == r
  {
    var h := HalfUnit(d);
    var a, b := Scale(y, d).Floor, Scale(r, d).Floor;
    ScaleHalfUnit(d);
    ScaleTimes(2.0, h, d);
    ScaleNeg(2.0 * h, d);
    ScaleAdd(y, -r, d);
    ScaleNeg(r, d);
    assert y + -r == y - r;
    ScaleCompare(y - r, 2.0 * h, d);
    ScaleCompare(-(2.0 * h), y - r, d);
    assert (a - b) as real == Scale(y - r, d);
    NearZeroInteger(a - b);
    ScaleCompare(y, r, d);
  }

  /** Any d-digit value strictly closer than half a unit to x is the rounding of x. */
  lemma RoundHalfUpUnique(x: real, d: nat, y: real)
    requires IsScaled(y, d)
    requires x - HalfUnit(d) < y < x + HalfUnit(d)
    ensures y == RoundHalfUp(x, d)
  {
    ScaledClose(y, RoundHalfUp(x, d), d);
  }
}
