# Currency converter: value synchronisation

This project models the two-field currency converter of the
test-exchange-form application. The left field holds RUB and the right
field USDT. Each field keeps a text buffer that the user edits. The buffer
is committed to a number on blur, on Enter and when a 3-second debounce
timer fires. Committing reads the buffer as a decimal. A NaN, or a number
outside the field's range, falls back to the minimum. Any other number is
floored to the field's step. A quick-select button replaces the buffer by
25, 50, 75 or 100 percent of the maximum. The committed number goes to the
exchange hook. The hook stores that side's amount and converts it into the
other side at the quoted rate. The other field's buffer then shows the
converted amount, unless that field has focus.

Modules:

- Decimals: exact decimal arithmetic on `real`. It covers floor-to-step
  (`div(step).floor().mul(step)`) and half-up rounding (`toFixed(d)`).
- DecimalText: what decimal.js reads from a string, and the text
  `String(x)` gives an amount. Its main fact is the round trip: the text of
  an amount reads back as that amount.
- InputBlock: one field, as a class `Block`. It holds the buffer and the
  props of its last render. `CommitValue` and `QuickSelectValue` specify
  what the field emits.
- Exchange: the exchange hook, as a class `Exchange` holding the price,
  the two amounts and the active side.
- App: the page. It has the two field configurations, the
  active-field slot (class `ActiveField`) and the focused field's debounce
  timer (class `Timer`). The timer keeps the price that the render arming
  it saw, because its callback holds that render's `onChange`. Class
  `ExchangeForm` composes the two fields, the hook, the slot and the timer.
  Each page event runs its handlers, then re-renders both fields with the
  new props.

## Model

| member | source | states |
|---|---|---|
| Decimals.FloorToStep | src/components/InputBlock.tsx:67 | the result is a multiple of step, at most v, and more than v - step |
| Decimals.FloorToStepIsGreatest | src/components/InputBlock.tsx:67 | every multiple of step that is at most v is at most the floored value |
| Decimals.FloorToStepUnique | src/components/InputBlock.tsx:67 | the only multiple of step in (v - step, v] is the floored value |
| Decimals.FloorToStepOfMultiple | src/components/InputBlock.tsx:67 | flooring a value already on the step lattice leaves it unchanged |
| Decimals.FloorToStepIdempotent | src/components/InputBlock.tsx:67 | flooring twice gives the same value as flooring once |
| Decimals.FloorToStepMonotonic | src/components/InputBlock.tsx:67 | flooring preserves order: v <= w gives floor(v) <= floor(w) |
| Decimals.MultipleScaled | src/components/InputBlock.tsx:67 | a multiple of a 6-digit step has at most 6 fractional digits, so it has a finite text |
| Decimals.RoundHalfUp | src/hooks/useExchange.ts:32 | the result has d fractional digits and lies within half a unit of the d-th place of x; a tie goes away from zero |
| Decimals.RoundHalfUpUnique | src/hooks/useExchange.ts:32 | any d-digit value strictly within half a unit of x is the rounding of x |
| DecimalText.Places | src/components/InputBlock.tsx:68 | the number of fractional places is the fewest that still hold the amount |
| DecimalText.FormatShortest | src/components/InputBlock.tsx:68 | the text of an amount is its digits written with exactly those fewest places, with no trailing zeros |
| DecimalText.FormatRoundTrip | src/components/InputBlock.tsx:59 | reading the text of an amount gives the amount back |
| DecimalText.DigitsRoundTrip | src/components/InputBlock.tsx:59 | reading the signed digits of m with j fractional places gives m / 10^j |
| DecimalText.Format | src/components/InputBlock.tsx:68 | `String(x)` of an amount (also at lines 35, 40, 62 and 90) is a non-empty text; its digits are pinned down by FormatShortest and its reading by FormatRoundTrip |
| DecimalText.ReadDecimal | src/components/InputBlock.tsx:59 | `new Decimal(s)`: a sign, then a decimal literal with optional exponent, `NaN` or `Infinity`; the empty text makes decimal.js throw |
| InputBlock.FormatReadsBack | src/components/InputBlock.tsx:38-42 | the buffer the sync effect writes reads back as the prop's value |
| InputBlock.ReadBuffer | src/components/InputBlock.tsx:59 | `new Decimal` of the buffer, or of 0 when it is empty: the empty buffer, which decimal.js alone rejects, reads as 0; any other buffer reads as decimal.js reads it |
| InputBlock.Pending | src/components/InputBlock.tsx:84 | the `input-pending` style is never shown on the field being edited, and only while the other field is being edited |
| InputBlock.CommitValue | src/components/InputBlock.tsx:58-70 | an empty buffer reads as 0; NaN, an infinity or a reading outside [min, max] gives min; any other reading v gives the multiple of step in (v - step, v] |
| InputBlock.CommitBounds | src/components/InputBlock.tsx:58-70 | with min on the step lattice and min <= max, every commit lands in [min, max] on the step lattice |
| InputBlock.CommitIsFloor | src/components/InputBlock.tsx:67 | no multiple of step that is at most an in-range reading exceeds the commit |
| InputBlock.CommitIdempotent | src/components/InputBlock.tsx:58-70 | committing the buffer a commit wrote emits the same number again |
| InputBlock.UnalignedMinNotIdempotent | src/components/InputBlock.tsx:61-63 | with min off the step lattice, the text of min commits to a number other than min |
| InputBlock.EmptyBufferCommitsMin | src/components/InputBlock.tsx:59 | with a positive minimum, an empty buffer commits min |
| InputBlock.CommitOfAmount | src/components/InputBlock.tsx:58-70 | committing the text of an amount x gives floor-to-step of x inside [min, max], and min outside |
| InputBlock.CommitTyped10500 | src/components/InputBlock.test.tsx:47-50 | the left field commits "10500" as 10500 |
| InputBlock.CommitTyped5000 | src/components/InputBlock.test.tsx:73-76 | the left field commits "5000" as its minimum 10000 |
| InputBlock.ReadWholeNumber | src/components/InputBlock.tsx:59 | a text of digits reads as the number the digits denote |
| InputBlock.QuickSelectValue | src/components/InputBlock.tsx:87-92 | the result is the multiple of step in (max * p / 100 - step, max * p / 100], whatever the buffer holds |
| InputBlock.QuickSelectAtMostMax | src/components/InputBlock.tsx:87-92 | at most 100 percent of a non-negative maximum does not exceed the maximum |
| InputBlock.QuickSelectAtLeastMin | src/components/InputBlock.tsx:87-92 | a step-aligned min at most p percent of max is at most the quick-select value |
| InputBlock.QuickSelectFull | src/components/InputBlock.tsx:87-92 | the 100% button emits max itself when max is on the step lattice |
| InputBlock.Block.constructor | src/components/InputBlock.tsx:35 | the buffer starts as the text of the value prop |
| InputBlock.Block.Type | src/components/InputBlock.tsx:72-74 | the buffer becomes the input's text and nothing else changes |
| InputBlock.Block.Commit | src/components/InputBlock.tsx:58-70 | emits CommitValue of the old buffer and rewrites the buffer as the text of that number; the props stay |
| InputBlock.Block.QuickSelect | src/components/InputBlock.tsx:87-92 | emits QuickSelectValue and rewrites the buffer as the text of that number |
| InputBlock.Block.Render | src/components/InputBlock.tsx:38-42 | new props are stored; an active field keeps its buffer; an inactive field whose value or isActive prop changed shows the text of the value; with neither changed the buffer stays |
| Exchange.LeftToRight | src/hooks/useExchange.ts:31-33 | the right amount has 6 fractional digits and lies within half a millionth of val / rate |
| Exchange.RightToLeft | src/hooks/useExchange.ts:40-42 | the left amount is an integer within one half of val * rate |
| Exchange.Convert | src/hooks/useExchange.ts:27-43 | the converted amount of either side has 6 fractional digits |
| Exchange.Rate | src/hooks/useExchange.ts:31 | `new Decimal(price[0])` (also at line 40) is the non-zero number decimal.js reads from the forward price |
| Exchange.InitialRate | src/hooks/useExchange.ts:6 | the initial price ("1", "1") reads as the usable rate 1 |
| Exchange.LeftRoundTrip | src/hooks/useExchange.ts:27-43 | for a rate below 10^6 in magnitude, an integer left amount converted right and back is unchanged |
| Exchange.NoClampRight | src/hooks/useExchange.ts:32 | at the quoted rate 96.47, the left maximum converts to more than the right maximum: the target is not clamped |
| Exchange.NoClampLeft | src/hooks/useExchange.ts:41 | at the quoted rate 96.47, the right minimum converts to less than the left minimum |
| Exchange.Exchange.constructor | src/hooks/useExchange.ts:6-9 | the price is ("1", "1"), the amounts are 10000 and 0, and the left side is active |
| Exchange.Exchange.HandleLeftChange | src/hooks/useExchange.ts:27-34 | the left side becomes active with val; the right amount is val / rate rounded to 6 digits, at the rate of the price the calling render saw; the stored price stays |
| Exchange.Exchange.HandleRightChange | src/hooks/useExchange.ts:36-43 | the right side becomes active with val; the left amount is val * rate rounded to an integer, at the rate of the price the calling render saw; the stored price stays |
| Exchange.Exchange.ApplyResponse | src/hooks/useExchange.ts:12-25 | a response with a price sets the price and the right amount; any other response leaves both; the left amount never changes |
| App.ConfigsWellFormed | src/App.tsx:15-27 | both configurations have a positive 6-digit step, min < max, and min and max on the step lattice |
| App.IsActive | src/App.tsx:39 | `activeField === side` (also at line 53): a field is active only when the slot names that field, and never with an empty slot |
| App.OtherIsEditing | src/App.tsx:40 | `activeField === other side` (also at line 54): a field is told the other is editing only when the slot names the other field, and never with an empty slot |
| App.AtMostOneActive | src/App.tsx:39 | the two fields are never active together |
| App.ActiveExcludesOtherEditing | src/App.tsx:39-40 | a field is never both active and told that the other field is editing |
| App.PendingIffOtherFocused | src/components/InputBlock.tsx:83-85 | a field shows as pending exactly when the other field holds the slot |
| App.FocusFlags | src/App.tsx:39-41 | focusing a field makes it active and the other field pending |
| App.NothingActiveInitially | src/App.tsx:13 | with the empty slot neither field is active or pending |
| App.CommitInRange | src/App.tsx:15-27 | every commit of either field lands in its range on its step lattice |
| App.QuickSelectInRange | src/components/InputBlock.tsx:20 | every quick-select button of either field gives a value in its range |
| App.ActiveField.constructor | src/App.tsx:13 | the slot starts empty |
| App.ActiveField.Focus | src/App.tsx:41 | the slot names the focused field |
| App.ActiveField.Blur | src/App.tsx:42 | the slot is cleared whichever field it named |
| App.ExchangeForm.constructor | src/App.tsx:5-57 | the mounted page: amounts 10000 and 0, each buffer the text of its amount, no field active or pending, no timer pending |
| App.ExchangeForm.InactiveShowsAmount | src/components/InputBlock.tsx:38-42 | a field without focus shows the text of its amount |
| App.ExchangeForm.Emit | src/App.tsx:38 | a side's onChange sets the active side, that side's amount and the other side's amount converted at the price its render saw |
| App.ExchangeForm.CommitSide | src/components/InputBlock.tsx:58-70 | `validateAndApplyValue` of a side with that side's onChange: CommitValue of the old buffer is emitted, the field shows its text, the hook records the side and converts it at the price the render saw |
| App.ExchangeForm.QuickSelectSide | src/components/InputBlock.tsx:87-92 | `handlePercentClick` of a side with that side's onChange: QuickSelectValue is emitted, the field shows its text, the hook records the side and converts it |
| App.ExchangeForm.Focus | src/App.tsx:41 | the slot names the field; its buffer stays; the other field shows the text of its amount; the timer is armed with the current price unless the field was already focused |
| App.ExchangeForm.Type | src/components/InputBlock.tsx:72-74 | typing into the focused field changes only its buffer; a changed buffer re-arms the timer with the current price |
| App.ExchangeForm.Blur | src/components/InputBlock.tsx:121-124 | the slot and the timer are cleared; the field emits CommitValue of its old buffer; the hook records the side and converts it; both buffers show the text of their amounts |
| App.ExchangeForm.ClearSlot | src/App.tsx:42 | with the slot cleared, both fields re-render inactive and show the text of their amounts |
| App.ExchangeForm.PressEnter | src/components/InputBlock.tsx:76-81 | Enter leaves the same state as a blur: one value emitted, the side recorded, slot and timer cleared, both buffers showing their amounts |
| App.ExchangeForm.TimerFires | src/components/InputBlock.tsx:44-56 | the focused field commits and keeps the focus; the other amount is converted at the price the timer captured when armed, not the current one; the other field shows it; a rewritten buffer re-arms the timer, otherwise none is pending |
| App.ExchangeForm.QuickSelect | src/components/InputBlock.tsx:87-92 | the field emits a value in its range; the hook records the side and converts it; the other buffer shows the converted amount unless that field has focus; a rewritten buffer of a focused field re-arms the timer |
| App.ExchangeForm.ReceiveResponse | src/hooks/useExchange.ts:12-25 | the price and right amount follow the response; the left amount, the active side and the left buffer stay; the right buffer shows the new amount unless the right field has focus; a pending timer keeps its price |
| App.ExchangeForm.RenderAll | src/components/InputBlock.tsx:38-42 | both fields get the current props; a field whose value and isActive props did not change keeps its buffer |
| App.ExchangeForm.CommitFocused | src/components/InputBlock.tsx:49-51 | the focused field commits with the onChange of a render that saw a given price, and both fields re-render |
| App.ExchangeForm.QuickSelectRender | src/components/InputBlock.tsx:87-92 | a quick-select of a side and the re-render of both fields |
| App.Timer.constructor | src/components/InputBlock.tsx:36 | no timer is pending at first |
| App.Timer.Effect | src/components/InputBlock.tsx:44-56 | when the buffer or isActive changed, the old timer is cleared and a focused field arms a new one holding the price of this render; otherwise the timer stays |
| App.Timer.Fire | src/components/InputBlock.tsx:49-51 | the elapsed timer yields the price it captured and is spent |
| App.StalePrice | src/components/InputBlock.tsx:44-56 | after focus, typing and a price response, the firing timer converts at the price from before the response while the coordinator holds the new price |

## Left out

- The timer: the model has no clock. `TimerFires` is the event of the
  3-second timeout (`setTimeout(…, 3000)`) elapsing while the field has
  focus and a timer is pending. One pending timer is kept for the page,
  since only the focused field arms one.
- The price request is asynchronous in the source. Its result is a
  parameter of `ReceiveResponse`, which can arrive between any two events.
  `src/api/exchangeApi.ts` is a mock and is not part of this model; only
  the rate 96.47 it quotes appears, in `NoClampRight` and `NoClampLeft`.
- Layout and styling are not modelled: the measured input width, the
  fill of the percentage buttons and the currency label.
- The `direction` and `disabled` props are not modelled, as they do not
  take part in the value flow.
- `String(x)` gives exponent notation for magnitudes of 10^21 and above.
  `DecimalText.Format` always writes plain digits, so it does not model
  that range.
- decimal.js accepts hexadecimal, binary and octal literals, and (from
  version 10.4) digits with `_` numeric separators such as `1_000`.
  `ReadDecimal` rejects all of these, as if decimal.js had thrown.
- decimal.js works to 20 significant digits by default. Here division and
  floor-to-step are exact, so rounding at that precision is not modelled.
- `toNumber()`, `Number(result)` and `Number(outAmount)` convert to a
  64-bit float. The model treats every such conversion as exact.
- A buffer that decimal.js cannot read makes `new Decimal` throw. The model
  keeps such buffers out with the `Readable` precondition of
  `InputBlock.Block.Type` and `InputBlock.CommitValue`. No behaviour is
  given for the exception.
- Exchange.Exchange.ApplyResponse: the response's price must read as a
  non-zero number (`UsableRate`). With a zero rate, decimal.js divides to
  an infinity, which an amount cannot hold.
- App.ExchangeForm.ReceiveResponse: the response's `outAmount` must also
  have at most 6 fractional digits.
- App.ExchangeForm.PressEnter: the source commits twice. It commits once
  in the key handler, then `blur()` runs the blur handler, which commits
  again. Both commits read the same buffer captured in that render, so
  they emit the same number. The model performs that commit once.
- App.ExchangeForm.Blur: the source clears the slot first and then
  commits. Both state updates land in the same re-render, so the model
  commits first and then clears the slot.
- The blur handler clears the slot unconditionally (`src/App.tsx:42`). It
  does not check which field holds the slot, and the model follows that
  code.
