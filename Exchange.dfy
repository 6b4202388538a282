/**
  The exchange coordinator (`useExchange`): the quoted price and the two
  amounts. Committing one side sets that side and converts it into the
  other at the forward rate `price[0]`, rounded half-up with decimal.js
  `toFixed`: to 6 fractional digits for the target side, to an integer for
  the source side.
 */
module Exchange {
  import opened Wrappers
  import opened Decimals
  import opened DecimalText

  datatype Side = Left | Right

  function Other(side: Side): Side {
    if side == Left then Right else Left
  }

  /** `price` as the API sends it: the forward and the inverse rate, as text. */
  datatype Price = Price(forward: string, inverse: string)

  /** What the mount-time request resolves to. */
  datatype Response = Response(price: Option<Price>, outAmount: real)

  const InitialPrice: Price := Price("1", "1")

  /** decimal.js reads the forward rate as a finite, non-zero number:
      the divisions below are then defined. */
  predicate UsableRate(price: Price) {
    var r := ReadDecimal(price.forward);
    r.Value? && r.v != 0.0
  }

  /** `new Decimal(price[0])`: the forward rate, never zero. */
  function Rate(price: Price): (r: real)
    requires UsableRate(price)
    ensures r != 0.0 && ReadDecimal(price.forward) == Value(r)
  {
    ReadDecimal(price.forward).v
  }

  /** `new Decimal(val).div(rate).toFixed(6)`. */
  function LeftToRight(val: real, rate: real): (r: real)
    requires rate != 0.0
    ensures IsScaled(r, AmountDigits)
    ensures val / rate - HalfUnit(AmountDigits) <= r <= val / rate + HalfUnit(AmountDigits)
  {
    RoundHalfUp(val / rate, AmountDigits)
  }

  /** `new Decimal(val).mul(rate).toFixed(0)`. */
  function RightToLeft(val: real, rate: real): (r: real)
    ensures IsInteger(r)
    ensures val * rate - 0.5 <= r <= val * rate + 0.5
  {
    ScaledZero(RoundHalfUp(val * rate, 0));
    RoundHalfUp(val * rate, 0)
  }

  lemma ScaledZero(x: real)
    requires IsScaled(x, 0)
    ensures IsInteger(x)
  {
    assert Scale(x, 0) == x;
  }

  /** The value the other side gets when `from` commits val. */
  function Convert(from: Side, val: real, rate: real): (r: real)
    requires rate != 0.0
    ensures IsScaled(r, AmountDigits)
  {
    if from == Left then
      LeftToRight(val, rate)
    else
      RightToLeftScaled(val, rate);
      RightToLeft(val, rate)
  }

  /** A left amount is in particular an amount with 6 fractional digits. */
  lemma RightToLeftScaled(val: real, rate: real)
    ensures IsScaled(RightToLeft(val, rate), AmountDigits)
  {
    RightToLeftRounds(val, rate);
    ScaledWiden(RightToLeft(val, rate), 0, AmountDigits);
  }

  class Exchange {
    var price: Price
    var leftValue: real
    var rightValue: real
    var activeSide: Side

    ghost predicate Valid()
      reads this
    {
      UsableRate(price)
    }

    /** The state before any response: price ("1", "1"), 10000 on the
        left, 0 on the right, the left side active. */
    constructor ()
      ensures Valid()
      ensures price == InitialPrice && leftValue == 10000.0 && rightValue == 0.0 && activeSide == Left
    {
      price, leftValue, rightValue, activeSide := InitialPrice, 10000.0, 0.0, Left;
      new;
      InitialRate();
    }

    /** `handleLeftChange(val)` of the render whose price was `seen`: each
        render creates a new handler that reads the price of that render,
        which a callback created earlier may still hold. */
    method HandleLeftChange(val: real, seen: Price)
      requires Valid() && UsableRate(seen)
      modifies this
      ensures Valid() && price == old(price)
      ensures activeSide == Left && leftValue == val
      ensures rightValue == LeftToRight(val, Rate(seen))
    {
      activeSide := Left;
      leftValue := val;
      var rate := Rate(seen);
      rightValue := LeftToRight(val, rate);
    }

    /** `handleRightChange(val)` of the render whose price was `seen`. */
    method HandleRightChange(val: real, seen: Price)
      requires Valid() && UsableRate(seen)
      modifies this
      ensures Valid() && price == old(price)
      ensures activeSide == Right && rightValue == val
      ensures leftValue == RightToLeft(val, Rate(seen))
    {
      activeSide := Right;
      rightValue := val;
      var rate := Rate(seen);
      leftValue := RightToLeft(val, rate);
    }

    /** The update after the mount-time request: only a response that
        carries a price sets the price and the right amount. */
    method ApplyResponse(response: Option<Response>)
      requires Valid()
      requires response.Some? && response.value.price.Some? ==> UsableRate(response.value.price.value)
      modifies this
      ensures Valid()
      ensures leftValue == old(leftValue) && activeSide == old(activeSide)
      ensures response.Some? && response.value.price.Some? ==>
                price == response.value.price.value && rightValue == response.value.outAmount
      ensures !(response.Some? && response.value.price.Some?) ==>
                price == old(price) && rightValue == old(rightValue)
    {
      if response.Some? && response.value.price.Some? {
        price := response.value.price.value;
        rightValue := response.value.outAmount;
      }
    }
  }

  /** The initial price reads as the rate 1. */
  lemma InitialRate()
    ensures UsableRate(InitialPrice) && Rate(InitialPrice) == 1.0
  {
    NoExponent("1");
    MantissaInteger("1");
    assert "1"[..0] == "";
  }

  /** Converting an integer left amount to the right side and back gives
      it again, for any rate below 10^6 in magnitude: the right side keeps
      enough digits. */
  lemma LeftRoundTrip(val: int, rate: real)
    requires rate != 0.0 && -1000000.0 < rate < 1000000.0
    ensures RightToLeft(LeftToRight(val as real, rate), rate) == val as real
  {
    var r := LeftToRight(val as real, rate);
    RightToLeftRounds(r, rate);
    HalfUnitSix();
    ConvertBack(val as real, rate, r);
    RoundToInteger(r * rate, val);
  }

  lemma RightToLeftRounds(val: real, rate: real)
    ensures RightToLeft(val, rate) == RoundHalfUp(val * rate, 0)
  {}

  /** An integer strictly within half a unit of x is x rounded to an integer. */
  lemma RoundToInteger(x: real, n: int)
    requires x - 0.5 < n as real < x + 0.5
    ensures RoundHalfUp(x, 0) == n as real
  {
    IntegerScaled(n, 0);
    assert HalfUnit(0) == 0.5;
    RoundHalfUpUnique(x, 0, n as real);
  }

  /** A right amount within half a millionth of val / rate converts back
      to within half a unit of val. */
  lemma ConvertBack(val: real, rate: real, r: real)
    requires rate != 0.0 && -1000000.0 < rate < 1000000.0
    requires val / rate - 0.0000005 <= r <= val / rate + 0.0000005
    ensures r * rate - 0.5 < val < r * rate + 0.5
  {
    var e := r - val / rate;
    assert r == val / rate + e;
    DivBack(val, rate, e);
    ErrorTimesRate(e, rate, 0.0000005);
  }

  lemma HalfUnitSix()
    ensures HalfUnit(AmountDigits) == 0.0000005
  {
    assert Pow10(AmountDigits) == 1000000;
  }

  lemma DivBack(v: real, rate: real, e: real)
    requires rate != 0.0
    ensures (v / rate + e) * rate == v + e * rate
  {}

  lemma ErrorTimesRate(e: real, rate: real, h: real)
    requires h == 0.0000005 && -h <= e <= h && -1000000.0 < rate < 1000000.0
    ensures -0.5 < e * rate < 0.5
  {
    if rate >= 0.0 {
      MulMonoNonneg(e, h, rate);
      MulMonoNonneg(-h, e, rate);
    } else {
      MulMonoNonneg(e, h, -rate);
      MulMonoNonneg(-h, e, -rate);
    }
  }

  /** The target side is not clamped to its range: the largest left amount
      at the quoted rate 96.47 converts to more than the right maximum. */
  lemma NoClampRight()
    ensures LeftToRight(70000000.0, 96.47) > 700000.0
  {}

  /** The source side is not clamped either: the right minimum converts to
      less than the left minimum. */
  lemma NoClampLeft()
    ensures RightToLeft(100.0, 96.47) < 10000.0
  {}
}
