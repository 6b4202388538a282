/**
  One amount field of the converter: a text buffer (`localValue`) that the
  user edits, committed to a number on blur, on Enter and when the
  debounce timer fires, or replaced by a quick-select percentage of the
  maximum. The committed number is passed to the parent (`onChange`),
  which passes values back in as the `value` prop.
 */
module InputBlock {
  import opened Decimals
  import opened DecimalText

  /** The quick-select buttons: percentages of the field's maximum. */
  const PercentOptions: seq<real> := [25.0, 50.0, 75.0, 100.0]

  /** `new Decimal(localValue || 0)`: an empty buffer reads as 0. */
  function ReadBuffer(buffer: string): (r: Reading)
    ensures buffer == "" ==> r == Value(0.0) && ReadDecimal(buffer) == Rejected
    ensures buffer != "" ==> r == ReadDecimal(buffer)
  {
    if buffer == "" then Value(0.0) else ReadDecimal(buffer)
  }

  /** The buffer reads without decimal.js throwing. */
  predicate Readable(buffer: string) {
    ReadBuffer(buffer) != Rejected
  }

  /** The buffer reads as a finite number inside [min, max]. */
  predicate InRange(buffer: string, min: real, max: real) {
    var r := ReadBuffer(buffer);
    r.Value? && min <= r.v <= max
  }

  /** The number `validateAndApplyValue` emits for a buffer: NaN, an
      infinity or a number outside [min, max] falls back to min, and any
      other number is floored to a multiple of step. */
  function CommitValue(buffer: string, min: real, max: real, step: real): (r: real)
    requires step > 0.0 && Readable(buffer)
    ensures !InRange(buffer, min, max) ==> r == min
    ensures InRange(buffer, min, max) ==>
              var v := ReadBuffer(buffer).v;
              IsMultipleOf(r, step) && r <= v < r + step
  {
    match ReadBuffer(buffer)
    case Value(v) => if v < min || v > max then min else FloorToStep(v, step)
    case _ => min
  }

  /** The number `handlePercentClick(p)` emits: p percent of max, floored
      to the step, whatever the buffer holds and with no range check. */
  function QuickSelectValue(max: real, p: real, step: real): (r: real)
    requires step > 0.0
    ensures IsMultipleOf(r, step)
    ensures r <= max * p / 100.0 < r + step
  {
    FloorToStep(max * p / 100.0, step)
  }

  /** The `input-pending` style: shown while the other field is being
      edited, and never on the field being edited. */
  function Pending(isActive: bool, otherIsEditing: bool): (p: bool)
    ensures p ==> !isActive
    ensures !otherIsEditing ==> !p
  {
    !isActive && otherIsEditing
  }

  /** The text of an amount reads back as that amount. */
  lemma FormatReadsBack(x: real)
    requires IsScaled(x, AmountDigits)
    ensures ReadBuffer(Format(x, AmountDigits)) == Value(x)
  {
    FormatRoundTrip(x, AmountDigits);
  }

  /** A field: its buffer and the props of its last render. */
  class Block {
    const min: real
    const max: real
    const step: real
    var localValue: string
    var value: real
    var isActive: bool
    var otherIsEditing: bool

    ghost predicate Valid()
      reads this
    {
      step > 0.0 && IsScaled(step, AmountDigits) && IsScaled(min, AmountDigits)
      && IsScaled(value, AmountDigits) && Readable(localValue)
    }

    /** The first render: the buffer starts as `String(value)`. */
    constructor (min: real, max: real, step: real, value: real, isActive: bool, otherIsEditing: bool)
      requires step > 0.0 && IsScaled(step, AmountDigits) && IsScaled(min, AmountDigits)
      requires IsScaled(value, AmountDigits)
      ensures Valid()
      ensures this.min == min && this.max == max && this.step == step
      ensures this.value == value && this.isActive == isActive && this.otherIsEditing == otherIsEditing
      ensures localValue == Format(value, AmountDigits)
    {
      this.min, this.max, this.step := min, max, step;
      this.value, this.isActive, this.otherIsEditing := value, isActive, otherIsEditing;
      localValue := Format(value, AmountDigits);
      new;
      FormatReadsBack(value);
    }

    /** `handleInputChange`: the buffer takes the input's text. */
    method Type(text: string)
      requires Valid() && Readable(text)
      modifies this
      ensures Valid()
      ensures localValue == text
      ensures value == old(value) && isActive == old(isActive) && otherIsEditing == old(otherIsEditing)
    {
      localValue := text;
    }

    /** `validateAndApplyValue`: commits the buffer, rewrites it as the
        text of the number committed and returns that number. */
    method Commit() returns (emitted: real)
      requires Valid()
      modifies this
      ensures Valid()
      ensures emitted == CommitValue(old(localValue), min, max, step)
      ensures IsScaled(emitted, AmountDigits)
      ensures localValue == Format(emitted, AmountDigits)
      ensures value == old(value) && isActive == old(isActive) && otherIsEditing == old(otherIsEditing)
    {
      var reading := ReadBuffer(localValue);
      if !reading.Value? || reading.v < min || reading.v > max {
        emitted := min;
      } else {
        emitted := FloorToStep(reading.v, step);
        MultipleScaled(emitted, step, AmountDigits);
      }
      localValue := Format(emitted, AmountDigits);
      FormatReadsBack(emitted);
    }

    /** `handlePercentClick(p)`: replaces the buffer by the text of p
        percent of the maximum and returns that number. */
    method QuickSelect(p: real) returns (emitted: real)
      requires Valid()
      modifies this
      ensures Valid()
      ensures emitted == QuickSelectValue(max, p, step)
      ensures IsScaled(emitted, AmountDigits)
      ensures localValue == Format(emitted, AmountDigits)
      ensures value == old(value) && isActive == old(isActive) && otherIsEditing == old(otherIsEditing)
    {
      emitted := FloorToStep(max * p / 100.0, step);
      MultipleScaled(emitted, step, AmountDigits);
      localValue := Format(emitted, AmountDigits);
      FormatReadsBack(emitted);
    }

    /** A re-render with new props. The sync effect, whose dependencies are
        `value` and `isActive`, runs when one of them changed, and then
        overwrites the buffer with `String(value)` unless the field is active. */
    method Render(value: real, isActive: bool, otherIsEditing: bool)
      requires Valid() && IsScaled(value, AmountDigits)
      modifies this
      ensures Valid()
      ensures this.value == value && this.isActive == isActive && this.otherIsEditing == otherIsEditing
      ensures isActive ==> localValue == old(localValue)
      ensures !isActive && (value != old(this.value) || isActive != old(this.isActive)) ==>
                localValue == Format(value, AmountDigits)
      ensures value == old(this.value) && isActive == old(this.isActive) ==> localValue == old(localValue)
    {
      var depsChanged := value != this.value || isActive != this.isActive;
      this.value, this.isActive, this.otherIsEditing := value, isActive, otherIsEditing;
      if depsChanged && !isActive {
        localValue := Format(value, AmountDigits);
        FormatReadsBack(value);
      }
    }
  }

  /** With min on the step lattice and min <= max, every commit lands in
      [min, max] on the step lattice. */
  lemma CommitBounds(buffer: string, min: real, max: real, step: real)
    requires step > 0.0 && Readable(buffer)
    requires IsMultipleOf(min, step) && min <= max
    ensures var r := CommitValue(buffer, min, max, step);
            min <= r <= max && IsMultipleOf(r, step)
  {
    if InRange(buffer, min, max) {
      var v := ReadBuffer(buffer).v;
      FloorToStepIsGreatest(v, step, min);
    }
  }

  /** A commit result is the unique step multiple in (v - step, v] for an
      in-range reading v: the largest multiple not above v. */
  lemma CommitIsFloor(buffer: string, min: real, max: real, step: real, m: real)
    requires step > 0.0 && Readable(buffer) && InRange(buffer, min, max)
    requires IsMultipleOf(m, step) && m <= ReadBuffer(buffer).v
    ensures m <= CommitValue(buffer, min, max, step)
  {
    FloorToStepIsGreatest(ReadBuffer(buffer).v, step, m);
  }

  /** Committing the buffer a commit wrote emits the same number again,
      so the buffer is also unchanged. */
  lemma {:induction false} CommitIdempotent(buffer: string, min: real, max: real, step: real)
    requires step > 0.0 && IsScaled(step, AmountDigits) && Readable(buffer)
    requires IsMultipleOf(min, step) && IsScaled(min, AmountDigits)
    ensures var r := CommitValue(buffer, min, max, step);
            IsScaled(r, AmountDigits) &&
            Readable(Format(r, AmountDigits)) &&
            CommitValue(Format(r, AmountDigits), min, max, step) == r
  {
    var r := CommitValue(buffer, min, max, step);
    MultipleScaled(r, step, AmountDigits);
    FormatReadsBack(r);
    if min <= max {
      CommitBounds(buffer, min, max, step);
      FloorToStepOfMultiple(r, step);
    }
  }

  /** An empty buffer reads as 0, so with a positive minimum it commits to min. */
  lemma EmptyBufferCommitsMin(min: real, max: real, step: real)
    requires step > 0.0 && min > 0.0
    ensures ReadBuffer("") == Value(0.0)
    ensures CommitValue("", min, max, step) == min
  {}

  lemma DigitsValue10500()
    ensures DigitsValue("10500") == 10500
  {
    assert "10500"[..4] == "1050";
    assert "1050"[..3] == "105";
    assert "105"[..2] == "10";
    assert "10"[..1] == "1";
    assert "1"[..0] == "";
  }

  lemma DigitsValue5000()
    ensures DigitsValue("5000") == 5000
  {
    assert "5000"[..3] == "500";
    assert "500"[..2] == "50";
    assert "50"[..1] == "5";
    assert "5"[..0] == "";
  }

  /** A text of digits reads as the number they denote. */
  lemma ReadWholeNumber(s: string)
    requires |s| > 0 && AllDigits(s)
    ensures ReadBuffer(s) == Value(DigitsValue(s) as real)
  {
    NoExponent(s);
    MantissaInteger(s);
  }

  /** Typing "10500" into the left field (10000..70000000, step 100)
      commits 10500. */
  lemma CommitTyped10500()
    ensures Readable("10500")
    ensures CommitValue("10500", 10000.0, 70000000.0, 100.0) == 10500.0
  {
    DigitsValue10500();
    ReadWholeNumber("10500");
    IntegerMultiple(105, 100.0);
    FloorToStepOfMultiple(10500.0, 100.0);
  }

  /** Typing "5000" into the left field (minimum 10000) commits the minimum. */
  lemma CommitTyped5000()
    ensures Readable("5000")
    ensures CommitValue("5000", 10000.0, 70000000.0, 100.0) == 10000.0
  {
    DigitsValue5000();
    ReadWholeNumber("5000");
  }

  /** Committing the text of an amount x commits x itself: floored to the
      step when inside [min, max], min otherwise. */
  lemma CommitOfAmount(x: real, min: real, max: real, step: real)
    requires step > 0.0 && IsScaled(x, AmountDigits)
    ensures Readable(Format(x, AmountDigits))
    ensures CommitValue(Format(x, AmountDigits), min, max, step)
         == if min <= x <= max then FloorToStep(x, step) else min
  {
    FormatReadsBack(x);
  }

  /** The step-aligned minimum that idempotence needs cannot be dropped:
      with min off the step lattice, a buffer that falls back to min is
      rewritten as the text of min, and that text commits to a different,
      floored number. */
  lemma UnalignedMinNotIdempotent(buffer: string, min: real, max: real, step: real)
    requires step > 0.0 && IsScaled(min, AmountDigits) && Readable(buffer)
    requires min <= max && !IsMultipleOf(min, step) && !InRange(buffer, min, max)
    ensures CommitValue(buffer, min, max, step) == min
    ensures Readable(Format(min, AmountDigits))
    ensures CommitValue(Format(min, AmountDigits), min, max, step) != min
  {
    CommitOfAmount(min, min, max, step);
  }

  /** A quick-select of at most 100 percent of a non-negative maximum does
      not exceed the maximum. */
  lemma QuickSelectAtMostMax(max: real, p: real, step: real)
    requires step > 0.0 && max >= 0.0 && 0.0 <= p <= 100.0
    ensures QuickSelectValue(max, p, step) <= max
  {
    MulMonoNonneg(p, 100.0, max);
    DivMonoLe(max * p, max * 100.0, 100.0);
  }

  /** A quick-select reaches min when min is a step multiple not above p percent of max. */
  lemma QuickSelectAtLeastMin(min: real, max: real, p: real, step: real)
    requires step > 0.0 && IsMultipleOf(min, step) && min <= max * p / 100.0
    ensures min <= QuickSelectValue(max, p, step)
  {
    FloorToStepIsGreatest(max * p / 100.0, step, min);
  }

  /** The 100% button emits max itself when max is a step multiple. */
  lemma QuickSelectFull(max: real, step: real)
    requires step > 0.0 && IsMultipleOf(max, step)
    ensures QuickSelectValue(max, 100.0, step) == max
  {
    assert max * 100.0 / 100.0 == max;
    FloorToStepOfMultiple(max, step);
  }
}
