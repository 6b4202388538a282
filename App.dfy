/**
  The page: two amount fields wired to one exchange coordinator and one
  active-field slot. The left field holds RUB, the right field USDT.
  Each user event runs its handlers and then re-renders both fields with
  the new props, as React does once per event.
 */
module App {
  import opened Wrappers
  import opened Decimals
  import opened DecimalText
  import opened InputBlock
  import opened Exchange

  /** The range, step and currency label of a field. */
  datatype Config = Config(min: real, max: real, step: real, currency: string)

  const LeftConfig: Config := Config(10000.0, 70000000.0, 100.0, "RUB")
  const RightConfig: Config := Config(100.0, 700000.0, 0.000001, "USDT")

  function ConfigOf(side: Side): Config {
    if side == Left then LeftConfig else RightConfig
  }

  /** What the commit lemmas of a field need of its configuration. */
  predicate WellFormed(c: Config) {
    c.step > 0.0 && c.min < c.max && IsMultipleOf(c.min, c.step) && IsMultipleOf(c.max, c.step)
    && IsScaled(c.step, AmountDigits) && IsScaled(c.min, AmountDigits)
  }

  lemma ConfigsWellFormed()
    ensures WellFormed(LeftConfig) && WellFormed(RightConfig)
  {
    IntegerMultiple(100, 100.0);
    IntegerMultiple(700000, 100.0);
    IntegerMultiple(100000000, 0.000001);
    IntegerMultiple(700000000000, 0.000001);
    IntegerScaled(10000, AmountDigits);
    IntegerScaled(100, AmountDigits);
    IntegerScaled(1, AmountDigits);
    assert Pow10(AmountDigits) == 1000000;
    assert Scale(0.000001, AmountDigits) == 1.0;
    IntegerIsInteger(1);
  }

  /** `isActive={activeField === side}`. */
  function IsActive(activeField: Option<Side>, side: Side): (b: bool)
    ensures b ==> activeField.Some? && activeField.value == side
    ensures activeField == None ==> !b
  {
    activeField == Some(side)
  }

  /** `otherIsEditing={activeField === <the other side>}`. */
  function OtherIsEditing(activeField: Option<Side>, side: Side): (b: bool)
    ensures b ==> activeField.Some? && activeField.value != side
    ensures activeField == None ==> !b
  {
    activeField == Some(Other(side))
  }

  /** The two fields are never active together. */
  lemma AtMostOneActive(activeField: Option<Side>)
    ensures !(IsActive(activeField, Left) && IsActive(activeField, Right))
  {}

  /** A field is never both active and waiting on the other one. */
  lemma ActiveExcludesOtherEditing(activeField: Option<Side>, side: Side)
    ensures !(IsActive(activeField, side) && OtherIsEditing(activeField, side))
  {}

  /** A field shows as pending exactly when the other field has focus. */
  lemma PendingIffOtherFocused(activeField: Option<Side>, side: Side)
    ensures Pending(IsActive(activeField, side), OtherIsEditing(activeField, side))
            <==> activeField == Some(Other(side))
  {}

  /** Focusing a field makes it active and the other one pending. */
  lemma FocusFlags(side: Side)
    ensures IsActive(Some(side), side) && !OtherIsEditing(Some(side), side)
    ensures !IsActive(Some(side), Other(side)) && OtherIsEditing(Some(side), Other(side))
    ensures Pending(IsActive(Some(side), Other(side)), OtherIsEditing(Some(side), Other(side)))
  {}

  /** Before any focus neither field is active or pending. */
  lemma NothingActiveInitially(side: Side)
    ensures !IsActive(None, side) && !Pending(IsActive(None, side), OtherIsEditing(None, side))
  {}

  /** Every commit of a field lands inside its range on its step lattice. */
  lemma CommitInRange(side: Side, buffer: string)
    requires Readable(buffer)
    ensures var c := ConfigOf(side);
            var r := CommitValue(buffer, c.min, c.max, c.step);
            c.min <= r <= c.max && IsMultipleOf(r, c.step)
  {
    ConfigsWellFormed();
    var c := ConfigOf(side);
    CommitBounds(buffer, c.min, c.max, c.step);
  }

  /** Every quick-select button of a field gives a value inside its range. */
  lemma QuickSelectInRange(side: Side, p: real)
    requires p in PercentOptions
    ensures var c := ConfigOf(side);
            c.min <= QuickSelectValue(c.max, p, c.step) <= c.max
  {
    ConfigsWellFormed();
    var c := ConfigOf(side);
    assert 25.0 <= p <= 100.0;
    MulMonoNonneg(25.0, p, c.max);
    DivMonoLe(c.max * 25.0, c.max * p, 100.0);
    QuickSelectAtMostMax(c.max, p, c.step);
    QuickSelectAtLeastMin(c.min, c.max, p, c.step);
  }

  /** The active-field slot (`activeField`). */
  class ActiveField {
    var current: Option<Side>

    constructor ()
      ensures current == None
    {
      current := None;
    }

    /** `onFocus`: the focused field becomes the active one. */
    method Focus(side: Side)
      modifies this
      ensures current == Some(side)
    {
      current := Some(side);
    }

    /** `onBlur` of either field: the slot is cleared whichever field,
        if any, it named. */
    method Blur()
      modifies this
      ensures current == None
    {
      current := None;
    }
  }

  /** The debounce timer of the focused field (`timeoutRef`). When pending,
      it holds the price read by the `onChange` its callback captured in
      the render that armed it. Only a focused field arms a timer, so the
      page needs one. */
  class Timer {
    var pending: Option<Price>

    constructor ()
      ensures pending == None
    {
      pending := None;
    }

    /** The timer effect, whose dependencies are the buffer and `isActive`:
        when one of them changed, the old timer is cleared and, for a
        focused field, a new one is armed with the price of this render. */
    method Effect(depsChanged: bool, isActive: bool, price: Price)
      modifies this
      ensures depsChanged && isActive ==> pending == Some(price)
      ensures depsChanged && !isActive ==> pending == None
      ensures !depsChanged ==> pending == old(pending)
    {
      if depsChanged {
        pending := if isActive then Some(price) else None;
      }
    }

    /** The timeout elapses: the callback runs with the price it captured,
        and the timer is spent. */
    method Fire() returns (seen: Price)
      requires pending.Some?
      modifies this
      ensures seen == old(pending).value && pending == None
    {
      seen := pending.value;
      pending := None;
    }
  }

  /** The page state: the two fields, the coordinator, the slot and the
      active field's timer. */
  class ExchangeForm {
    const left: Block
    const right: Block
    const exchange: Exchange
    const tracker: ActiveField
    const timer: Timer

    function BlockOf(side: Side): Block
      reads this
    {
      if side == Left then left else right
    }

    /** The amount the coordinator holds for a side. */
    function ValueOf(side: Side): real
      reads this, exchange
    {
      if side == Left then exchange.leftValue else exchange.rightValue
    }

    /** The field of a side has its configuration, the coordinator's amount
        of that side has 6 digits, and a buffer the sync effect would skip
        already shows the amount. */
    ghost predicate Ready(side: Side)
      reads this, BlockOf(side), exchange
    {
      var b := BlockOf(side);
      var c := ConfigOf(side);
      b.Valid() && b.min == c.min && b.max == c.max && b.step == c.step
      && IsScaled(ValueOf(side), AmountDigits)
      && (b.value == ValueOf(side) && !b.isActive ==> b.localValue == Format(ValueOf(side), AmountDigits))
    }

    /** The field of a side was last rendered with the current props. */
    ghost predicate Rendered(side: Side)
      reads this, BlockOf(side), exchange, tracker
    {
      var b := BlockOf(side);
      b.value == ValueOf(side)
      && b.isActive == IsActive(tracker.current, side)
      && b.otherIsEditing == OtherIsEditing(tracker.current, side)
    }

    /** A pending timer belongs to a focused field and captured a usable price. */
    ghost predicate TimerSound()
      reads this, timer, tracker
    {
      timer.pending.Some? ==> tracker.current.Some? && UsableRate(timer.pending.value)
    }

    ghost predicate Valid()
      reads this, left, right, exchange, tracker, timer
    {
      left != right && exchange.Valid() && TimerSound()
      && Ready(Left) && Ready(Right) && Rendered(Left) && Rendered(Right)
    }

    /** The mounted page before the price request returns. */
    constructor ()
      ensures Valid()
      ensures tracker.current == None && timer.pending == None
      ensures exchange.price == InitialPrice && exchange.activeSide == Left
      ensures ValueOf(Left) == 10000.0 && ValueOf(Right) == 0.0
      ensures left.localValue == Format(10000.0, AmountDigits)
      ensures right.localValue == Format(0.0, AmountDigits)
      ensures !left.isActive && !Pending(left.isActive, left.otherIsEditing)
      ensures !right.isActive && !Pending(right.isActive, right.otherIsEditing)
    {
      ConfigsWellFormed();
      IntegerScaled(10000, AmountDigits);
      IntegerScaled(0, AmountDigits);
      var x := new Exchange();
      var t := new ActiveField();
      var d := new Timer();
      exchange, tracker, timer := x, t, d;
      left := new Block(LeftConfig.min, LeftConfig.max, LeftConfig.step, x.leftValue, false, false);
      right := new Block(RightConfig.min, RightConfig.max, RightConfig.step, x.rightValue, false, false);
    }

    /** An inactive field shows the text of its amount. */
    lemma InactiveShowsAmount(side: Side)
      requires Valid()
      ensures !IsActive(tracker.current, side) ==>
                BlockOf(side).localValue == Format(ValueOf(side), AmountDigits)
    {}

    /** The re-render after an event: both fields get the current props. A
        field whose props `value` and `isActive` are unchanged keeps its buffer. */
    method RenderAll()
      requires left != right && exchange.Valid() && TimerSound() && Ready(Left) && Ready(Right)
      modifies left, right
      ensures Valid()
      ensures IsActive(tracker.current, Left) ==> left.localValue == old(left.localValue)
      ensures IsActive(tracker.current, Right) ==> right.localValue == old(right.localValue)
      ensures exchange.leftValue == old(left.value) && IsActive(tracker.current, Left) == old(left.isActive) ==>
                left.localValue == old(left.localValue)
      ensures exchange.rightValue == old(right.value) && IsActive(tracker.current, Right) == old(right.isActive) ==>
                right.localValue == old(right.localValue)
    {
      left.Render(exchange.leftValue, IsActive(tracker.current, Left), OtherIsEditing(tracker.current, Left));
      right.Render(exchange.rightValue, IsActive(tracker.current, Right), OtherIsEditing(tracker.current, Right));
    }

    /** `onChange` of a side, as created by a render whose price was `seen`:
        the coordinator's handler for that side. */
    method Emit(side: Side, val: real, seen: Price)
      requires exchange.Valid() && UsableRate(seen)
      modifies exchange
      ensures exchange.Valid() && exchange.price == old(exchange.price)
      ensures exchange.activeSide == side
      ensures ValueOf(side) == val && ValueOf(Other(side)) == Convert(side, val, Rate(seen))
    {
      if side == Left {
        exchange.HandleLeftChange(val, seen);
      } else {
        exchange.HandleRightChange(val, seen);
      }
    }

    /** `validateAndApplyValue` of a side, with the `onChange` of a render
        whose price was `seen`, before the re-render. */
    method CommitSide(side: Side, seen: Price) returns (emitted: real)
      requires Valid() && UsableRate(seen)
      modifies BlockOf(side), exchange
      ensures left != right && exchange.Valid() && Ready(Left) && Ready(Right)
      ensures emitted == CommitValue(old(BlockOf(side).localValue), ConfigOf(side).min, ConfigOf(side).max, ConfigOf(side).step)
      ensures exchange.price == old(exchange.price) && exchange.activeSide == side
      ensures ValueOf(side) == emitted && ValueOf(Other(side)) == Convert(side, emitted, Rate(seen))
      ensures BlockOf(side).localValue == Format(emitted, AmountDigits)
      ensures BlockOf(side).isActive == old(BlockOf(side).isActive)
    {
      if side == Left {
        emitted := left.Commit();
      } else {
        emitted := right.Commit();
      }
      Emit(side, emitted, seen);
    }

    /** A quick-select button of a side and its `onChange`, before the re-render. */
    method QuickSelectSide(side: Side, p: real) returns (emitted: real)
      requires Valid()
      modifies BlockOf(side), exchange
      ensures left != right && exchange.Valid() && Ready(Left) && Ready(Right)
      ensures emitted == QuickSelectValue(ConfigOf(side).max, p, ConfigOf(side).step)
      ensures exchange.price == old(exchange.price) && exchange.activeSide == side
      ensures ValueOf(side) == emitted && ValueOf(Other(side)) == Convert(side, emitted, Rate(exchange.price))
      ensures BlockOf(side).localValue == Format(emitted, AmountDigits)
      ensures BlockOf(side).isActive == old(BlockOf(side).isActive)
    {
      if side == Left {
        emitted := left.QuickSelect(p);
      } else {
        emitted := right.QuickSelect(p);
      }
      Emit(side, emitted, exchange.price);
    }

    /** `onFocus` of a side. The field becomes active, which arms its timer
        unless it was active already. */
    method Focus(side: Side)
      requires Valid()
      modifies left, right, tracker, timer
      ensures Valid() && tracker.current == Some(side)
      ensures ValueOf(Left) == old(ValueOf(Left)) && ValueOf(Right) == old(ValueOf(Right))
      ensures BlockOf(side).localValue == old(BlockOf(side).localValue)
      ensures BlockOf(Other(side)).localValue == Format(ValueOf(Other(side)), AmountDigits)
      ensures timer.pending == if old(tracker.current) == Some(side) then old(timer.pending) else Some(exchange.price)
    {
      var wasActive := tracker.current == Some(side);
      tracker.Focus(side);
      timer.Effect(!wasActive, true, exchange.price);
      RenderAll();
      InactiveShowsAmount(Other(side));
    }

    /** Typing into the focused field: only its buffer changes, and a
        changed buffer re-arms the timer. The props stay the same, so the
        sync effect does not run. */
    method Type(side: Side, text: string)
      requires Valid() && IsActive(tracker.current, side) && Readable(text)
      modifies BlockOf(side), timer
      ensures Valid()
      ensures BlockOf(side).localValue == text
      ensures timer.pending == if text != old(BlockOf(side).localValue) then Some(exchange.price) else old(timer.pending)
    {
      var changed := text != BlockOf(side).localValue;
      BlockOf(side).Type(text);
      timer.Effect(changed, true, exchange.price);
    }

    /** Leaving a field: the slot and the timer are cleared and the field
        commits. All updates land in the same re-render. */
    method Blur(side: Side) returns (emitted: real)
      requires Valid()
      modifies left, right, exchange, tracker, timer
      ensures Valid() && tracker.current == None && timer.pending == None
      ensures emitted == CommitValue(old(BlockOf(side).localValue), ConfigOf(side).min, ConfigOf(side).max, ConfigOf(side).step)
      ensures exchange.price == old(exchange.price) && exchange.activeSide == side
      ensures ValueOf(side) == emitted && ValueOf(Other(side)) == Convert(side, emitted, Rate(exchange.price))
      ensures BlockOf(side).localValue == Format(emitted, AmountDigits)
      ensures BlockOf(Other(side)).localValue == Format(ValueOf(Other(side)), AmountDigits)
    {
      emitted := CommitSide(side, exchange.price);
      timer.Effect(true, false, exchange.price);
      ClearSlot();
    }

    /** The slot is cleared and both fields re-render inactive: each shows
        the text of its amount. */
    method ClearSlot()
      requires left != right && exchange.Valid() && Ready(Left) && Ready(Right) && timer.pending == None
      modifies left, right, tracker
      ensures Valid() && tracker.current == None
      ensures left.localValue == Format(exchange.leftValue, AmountDigits)
      ensures right.localValue == Format(exchange.rightValue, AmountDigits)
    {
      tracker.Blur();
      RenderAll();
      InactiveShowsAmount(Left);
      InactiveShowsAmount(Right);
    }

    /** Enter in a field: a commit, then `blur()`, whose handler clears
        the slot and commits again from the same captured buffer, so it
        emits the same value and leaves the same state. */
    method PressEnter(side: Side) returns (emitted: real)
      requires Valid()
      modifies left, right, exchange, tracker, timer
      ensures Valid() && tracker.current == None && timer.pending == None
      ensures emitted == CommitValue(old(BlockOf(side).localValue), ConfigOf(side).min, ConfigOf(side).max, ConfigOf(side).step)
      ensures exchange.price == old(exchange.price) && exchange.activeSide == side
      ensures ValueOf(side) == emitted && ValueOf(Other(side)) == Convert(side, emitted, Rate(exchange.price))
      ensures BlockOf(side).localValue == Format(emitted, AmountDigits)
      ensures BlockOf(Other(side)).localValue == Format(ValueOf(Other(side)), AmountDigits)
    {
      emitted := Blur(side);
    }

    /** The pending timer of the focused field fires. Its callback commits
        the buffer, which no keystroke has changed since the timer was
        armed, and converts at the price it captured then, which a price
        response may since have replaced. The field stays active and keeps
        its own buffer; the other field shows the converted amount. A
        commit that rewrites the buffer arms a new timer. */
    method TimerFires(side: Side) returns (emitted: real)
      requires Valid() && IsActive(tracker.current, side) && timer.pending.Some?
      modifies left, right, exchange, timer
      ensures Valid() && tracker.current == Some(side)
      ensures emitted == CommitValue(old(BlockOf(side).localValue), ConfigOf(side).min, ConfigOf(side).max, ConfigOf(side).step)
      ensures exchange.price == old(exchange.price) && exchange.activeSide == side
      ensures ValueOf(side) == emitted && ValueOf(Other(side)) == Convert(side, emitted, Rate(old(timer.pending).value))
      ensures BlockOf(side).localValue == Format(emitted, AmountDigits)
      ensures BlockOf(Other(side)).localValue == Format(ValueOf(Other(side)), AmountDigits)
      ensures timer.pending == if BlockOf(side).localValue != old(BlockOf(side).localValue) then Some(exchange.price) else None
    {
      var seen := timer.Fire();
      var changed;
      emitted, changed := CommitFocused(side, seen);
      timer.Effect(changed, true, exchange.price);
    }

    /** The focused field commits with the `onChange` of a render whose
        price was `seen`, and both fields re-render; `changed` tells
        whether the commit rewrote the field's buffer. */
    method CommitFocused(side: Side, seen: Price) returns (emitted: real, changed: bool)
      requires Valid() && IsActive(tracker.current, side) && UsableRate(seen)
      modifies left, right, exchange
      ensures Valid()
      ensures emitted == CommitValue(old(BlockOf(side).localValue), ConfigOf(side).min, ConfigOf(side).max, ConfigOf(side).step)
      ensures exchange.price == old(exchange.price) && exchange.activeSide == side
      ensures ValueOf(side) == emitted && ValueOf(Other(side)) == Convert(side, emitted, Rate(seen))
      ensures BlockOf(side).localValue == Format(emitted, AmountDigits)
      ensures BlockOf(Other(side)).localValue == Format(ValueOf(Other(side)), AmountDigits)
      ensures changed == (BlockOf(side).localValue != old(BlockOf(side).localValue))
    {
      var before := BlockOf(side).localValue;
      emitted := CommitSide(side, seen);
      RenderAll();
      InactiveShowsAmount(Other(side));
      changed := BlockOf(side).localValue != before;
    }

    /** A quick-select button of a side. The other field's buffer is
        rewritten with the converted amount unless that field is active.
        When the side is focused, a rewritten buffer re-arms its timer. */
    method QuickSelect(side: Side, p: real) returns (emitted: real)
      requires Valid() && p in PercentOptions
      modifies left, right, exchange, timer
      ensures Valid() && tracker.current == old(tracker.current)
      ensures emitted == QuickSelectValue(ConfigOf(side).max, p, ConfigOf(side).step)
      ensures ConfigOf(side).min <= emitted <= ConfigOf(side).max
      ensures exchange.price == old(exchange.price) && exchange.activeSide == side
      ensures ValueOf(side) == emitted && ValueOf(Other(side)) == Convert(side, emitted, Rate(exchange.price))
      ensures BlockOf(side).localValue == Format(emitted, AmountDigits)
      ensures IsActive(tracker.current, Other(side)) ==>
                BlockOf(Other(side)).localValue == old(BlockOf(Other(side)).localValue)
      ensures !IsActive(tracker.current, Other(side)) ==>
                BlockOf(Other(side)).localValue == Format(ValueOf(Other(side)), AmountDigits)
      ensures timer.pending == if IsActive(tracker.current, side) && BlockOf(side).localValue != old(BlockOf(side).localValue)
                               then Some(exchange.price) else old(timer.pending)
    {
      var changed;
      emitted, changed := QuickSelectRender(side, p);
      var active := IsActive(tracker.current, side);
      timer.Effect(active && changed, true, exchange.price);
    }

    /** A quick-select button of a side and the re-render of both fields;
        `changed` tells whether the side's buffer was rewritten. */
    method QuickSelectRender(side: Side, p: real) returns (emitted: real, changed: bool)
      requires Valid() && p in PercentOptions
      modifies left, right, exchange
      ensures Valid()
      ensures emitted == QuickSelectValue(ConfigOf(side).max, p, ConfigOf(side).step)
      ensures ConfigOf(side).min <= emitted <= ConfigOf(side).max
      ensures exchange.price == old(exchange.price) && exchange.activeSide == side
      ensures ValueOf(side) == emitted && ValueOf(Other(side)) == Convert(side, emitted, Rate(exchange.price))
      ensures BlockOf(side).localValue == Format(emitted, AmountDigits)
      ensures IsActive(tracker.current, Other(side)) ==>
                BlockOf(Other(side)).localValue == old(BlockOf(Other(side)).localValue)
      ensures !IsActive(tracker.current, Other(side)) ==>
                BlockOf(Other(side)).localValue == Format(ValueOf(Other(side)), AmountDigits)
      ensures changed == (BlockOf(side).localValue != old(BlockOf(side).localValue))
    {
      var before := BlockOf(side).localValue;
      emitted := QuickSelectSide(side, p);
      QuickSelectInRange(side, p);
      RenderAll();
      InactiveShowsAmount(side);
      InactiveShowsAmount(Other(side));
      changed := BlockOf(side).localValue != before;
    }

    /** The price response arrives: it may set the price and the right
        amount, which the right field shows unless it is active. The left
        amount is not recomputed, so the left buffer stays; a pending
        timer keeps the price it captured. */
    method ReceiveResponse(response: Option<Response>)
      requires Valid()
      requires response.Some? && response.value.price.Some? ==>
                 UsableRate(response.value.price.value) && IsScaled(response.value.outAmount, AmountDigits)
      modifies left, right, exchange
      ensures Valid() && tracker.current == old(tracker.current)
      ensures ValueOf(Left) == old(ValueOf(Left)) && exchange.activeSide == old(exchange.activeSide)
      ensures response.Some? && response.value.price.Some? ==>
                exchange.price == response.value.price.value && ValueOf(Right) == response.value.outAmount
      ensures !(response.Some? && response.value.price.Some?) ==>
                exchange.price == old(exchange.price) && ValueOf(Right) == old(ValueOf(Right))
      ensures left.localValue == old(left.localValue)
      ensures right.localValue == if IsActive(tracker.current, Right) then old(right.localValue)
                                  else Format(ValueOf(Right), AmountDigits)
    {
      exchange.ApplyResponse(response);
      RenderAll();
      InactiveShowsAmount(Right);
    }
  }

  /** A timer armed before a price response converts at the price it
      captured: focus the left field, type, let a response set a new price,
      and the firing timer converts the commit at the old price, while the
      coordinator now holds the new one. */
  method StalePrice(f: ExchangeForm, text: string, response: Response) returns (emitted: real)
    requires f.Valid() && f.tracker.current != Some(Left) && Readable(text)
    requires response.price.Some? && UsableRate(response.price.value) && IsScaled(response.outAmount, AmountDigits)
    modifies f.left, f.right, f.exchange, f.tracker, f.timer
    ensures f.Valid() && f.exchange.price == response.price.value
    ensures emitted == CommitValue(text, LeftConfig.min, LeftConfig.max, LeftConfig.step)
    ensures f.ValueOf(Left) == emitted
    ensures f.ValueOf(Right) == Convert(Left, emitted, Rate(old(f.exchange.price)))
  {
    f.Focus(Left);
    f.Type(Left, text);
    f.ReceiveResponse(Some(response));
    emitted := f.TimerFires(Left);
  }
}
