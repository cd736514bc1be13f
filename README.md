# AmountSlider, modelled in Dafny

`AmountSlider` is a UIKit control that draws a horizontally scrolling ruler of
`markCount + 1` marks. While the finger drags, the value moves against it by
one tick per tick spacing and is clamped to `minimumValue ... maximumValue`.
On release the value is eased (a quadratic ease-in over `animateDuration`,
driven by a repeating timer) to the nearest tick, clamped to the range. Every
assignment to `value` may report the value, rounded to a tick, to the
delegate.

The model has four modules:

- `SwiftNumerics` (`swift_numerics.dfy`) gives Swift's numeric primitives over
  Dafny's unbounded `real` and `int`:
  - `round`, which rounds halves away from zero;
  - `ceil`;
  - `truncatingRemainder`, which keeps the sign of the dividend;
  - `Int(_:)`, which truncates toward zero;
  - Int `/` and `%`, which truncate toward zero, whereas Dafny's are Euclidean.
- `Easing` (`easing.dfy`) is `nextAnimatedStep` and its endpoint, range and
  monotonicity facts.
- `MarkLayout` (`mark_layout.dfy`) is the per-mark geometry that `draw`
  computes, as pure functions of a `Geometry`:
  - the wrapped position;
  - the spotlight alpha and the gap near either end of the range;
  - the even, at-least-20 mark height.
- `Control` (`amount_slider.dfy`) is the class `AmountSlider`. Its fields are
  the control's fields, and its methods are `beginTracking`,
  `continueTracking`, `endTracking`, `animateWithValueUpdate`, `step`,
  `stopAnimation`, the `value` setter with `updateValue`, and the `draw` loop.
  Three outside effects are modelled as follows:
  - The delegate's optional callbacks and the haptic pulse are appended, in
    order, to an `events` log.
  - The clock (`CACurrentMediaTime`) is a `now` argument.
  - The timer is a `timerActive` flag, and each timer firing is a call of
    `Step`.

Swift traps become preconditions:
- `Int(tick) != 0` for every assignment to `value`, because
  `Int(roundedValue) % Int(tick)` traps on a zero divisor.
- In `draw`, every closed range it builds must have ordered bounds, and the
  modulus `markCount * Int(tick) / 2` must be non-zero in the band that
  evaluates it. The predicate `MarkLayout.Drawable` states these conditions.

## Behaviour worth knowing

- Assigning `value` does not clamp it. Only dragging and releasing keep the
  value within the range.
- `beginTracking` leaves a running snap timer running, so the ease can go on
  while the finger is down.
- With the defaults (range -100...100, tick 1, 20 marks) and value 0, the
  value lies in the low band `-100 ... 9`. The low cut-off is then 105, so
  the mark at the centre of the strip is hidden (alpha 0) even though the
  spotlight there is 1 (`MarkLayout.CentreMarkAtDefaults`).
- The `Int(roundedValue) % Int(tick) == 0` test of `updateValue` holds for every
  value when the tick is a whole number (`Control.WholeTickAlwaysNotifies`).
  It filters anything only for fractional ticks
  (`Control.FractionalTickSkipsSomeTicks`).

## Model

| member | source | states |
|---|---|---|
| SwiftNumerics.Trunc | AmountSlider.swift:89 | `Int(x)` drops the fractional part toward zero: within 1 of `x`, no larger in magnitude, same sign, exact on whole numbers |
| SwiftNumerics.Round | AmountSlider.swift:106 | `round` lands within 0.5, and a halfway case goes away from zero |
| SwiftNumerics.RoundMonotone | AmountSlider.swift:106 | `round` preserves order |
| SwiftNumerics.RoundIntegral | AmountSlider.swift:194 | `round` leaves whole numbers unchanged |
| SwiftNumerics.Ceil | AmountSlider.swift:105 | `ceil(x)` is the least integer not below `x` |
| SwiftNumerics.TruncatingRemainder | AmountSlider.swift:77-79 | `truncatingRemainder` is smaller than the divisor in magnitude, has the dividend's sign, and differs from the dividend by a whole multiple of the divisor |
| SwiftNumerics.Quot | AmountSlider.swift:87 | Int `/` has the magnitude of the quotient of the magnitudes and the product of the signs |
| SwiftNumerics.Rem | AmountSlider.swift:89 | Int `%` is smaller than the divisor in magnitude and has the dividend's sign |
| SwiftNumerics.QuotRemSplit | AmountSlider.swift:89 | `a == (a / b) * b + a % b` for Int `/` and `%` |
| SwiftNumerics.RemOfMultiple | AmountSlider.swift:247 | a multiple of `b` leaves Int remainder 0 |
| Easing.NextAnimatedStep | AmountSlider.swift:232-238 | the ease starts at `startValue`, ends exactly at `endValue`, and has covered a quarter of the way at half time |
| Easing.StepStaysBetween | AmountSlider.swift:232-238 | on `[0, duration]` the eased value stays between start and end |
| Easing.StepMonotone | AmountSlider.swift:232-238 | on `[0, duration]` the eased value only moves toward the end |
| MarkLayout.TickSpacing | AmountSlider.swift:73 | the spacing is positive, and `markCount` spacings fill the width |
| MarkLayout.Wrap | AmountSlider.swift:77-82 | the remainder, moved up by one width when negative, lies in `[0, width)` and is the raw position moved by a whole number of widths |
| MarkLayout.RelativePosition | AmountSlider.swift:73-82 | each mark's position is its raw position (`spacing * index + slidePosition - width / 2`) wrapped into `[0, width)` |
| MarkLayout.Spotlight | AmountSlider.swift:84-86 | the spotlight alpha lies in `[0.2, 1]` and is 1 at the centre |
| MarkLayout.SpotlightFallsOff | AmountSlider.swift:84-86 | a mark farther from the centre is never brighter |
| MarkLayout.Alpha | AmountSlider.swift:84-101 | a mark's alpha is either 0 or the spotlight value, and lies in `[0, 1]` |
| MarkLayout.AlphaCases | AmountSlider.swift:88-101 | alpha is 0 exactly when the mark is in the gap of the low band, or of the high band when the low band does not hold; otherwise it is the spotlight, at least 0.2 |
| MarkLayout.LowBandWins | AmountSlider.swift:88-94 | when the value is in both bands, only the low cut-off decides |
| MarkLayout.NoGapAwayFromEnds | AmountSlider.swift:88-101 | outside both bands no mark is hidden |
| MarkLayout.HeightFor | AmountSlider.swift:106-107 | a mark's height is an even whole number of at least 20 |
| MarkLayout.TallerNearCentre | AmountSlider.swift:105-107 | marks never grow with distance from the centre |
| MarkLayout.FullHeightAtCentre | AmountSlider.swift:106-107 | a mark whose rounded-up distance from the centre (`ceil(abs(markX - width / 2))`) is at most half a tick spacing, in a view of even height of at least 20, takes the full height |
| MarkLayout.DistanceFromMiddle | AmountSlider.swift:105 | the rounded-up distance from the centre is non-negative |
| MarkLayout.MarkAt | AmountSlider.swift:104-111 | a mark's rect starts within half a mark width of the strip, is vertically centred, is an even height of at least 20, and has alpha 0 or in `[0.2, 1]` |
| MarkLayout.CentreMarkAtDefaults | AmountSlider.swift:71-107 | with the defaults at value 0 in a 200 by 40 view, mark 10 is at the centre (spotlight 1) but is in the low-band gap (cut-off 105), so its alpha is 0; its height is 40 |
| Control.RoundedValue | AmountSlider.swift:246 | `tick * round(value / tick)` is a whole number of ticks, within half a tick of `value` |
| Control.WholeTickAlwaysNotifies | AmountSlider.swift:245-248 | with a whole-number tick, every assignment reports the rounded value |
| Control.FractionalTickSkipsSomeTicks | AmountSlider.swift:245-248 | with tick 2.5, value 2.5 is reported but 5.0 is not, because `Int(5.0) % Int(2.5)` is 1 |
| Control.Clamp | AmountSlider.swift:179-185 | the clamp of `continueTracking` stays in range, keeps an interior value, sends a value at or below the minimum to the minimum, and sends any other value at or above the maximum to the maximum |
| Control.DragDeltaSign | AmountSlider.swift:175-176 | with a positive tick, the value change has the sign of the finger movement |
| Control.DragDirection | AmountSlider.swift:174-185 | dragging right lowers the value (strictly, unless it is at the minimum), dragging left raises it, and the result stays in range |
| Control.DragExamples | AmountSlider.swift:174-185 | with the defaults, a 50-point drag right from 0 gives -5, and a 2000-point drag stops at -100 |
| Control.EndTrackingRound | AmountSlider.swift:194 | `round(value * (10 / tick) / 10) * (10 / (10 / tick))` equals `tick * round(value / tick)` |
| Control.SnapTarget | AmountSlider.swift:194-201 | the snap target is in range; it is the rounded value when that value is in range, the minimum when it is below, and otherwise the maximum when it is above |
| Control.SnapOnTickStays | AmountSlider.swift:194-201 | releasing exactly on an in-range tick targets the current value |
| Control.SnapExample | AmountSlider.swift:194-201 | releasing at 4.6 with tick 1 targets 5 |
| Control.AmountSlider.constructor | AmountSlider.swift:21-54 | the declared defaults, with no timer and an empty log |
| Control.AmountSlider.SetValue | AmountSlider.swift:23-27 | assigning `value` stores it unclamped and appends what `updateValue` reports |
| Control.AmountSlider.UpdateValue | AmountSlider.swift:245-248 | reports `tick * round(value / tick)` exactly when `Int` of it `% Int(tick)` is 0 |
| Control.AmountSlider.BeginTracking | AmountSlider.swift:163-169 | with tick 0 it returns false and changes nothing; otherwise it logs `beginTracking`, sets `animating`, records the touch and returns true, leaving the timer alone |
| Control.AmountSlider.ContinueTracking | AmountSlider.swift:171-188 | with tick 0 it returns false and changes nothing; otherwise the value becomes the clamped dragged value, the touch is recorded, the log gains the notification and then a haptic pulse, and the value range invariant is kept |
| Control.AmountSlider.EndTracking | AmountSlider.swift:190-202 | with tick 0 it changes nothing; otherwise it logs `endTracking`, clears `animating`, and animates from the value toward the snap target, keeping the value range invariant |
| Control.AmountSlider.AnimateWithValueUpdate | AmountSlider.swift:204-216 | records start and target; with target equal to value it touches neither timer nor clock, otherwise the timer runs from `now` |
| Control.AmountSlider.Step | AmountSlider.swift:218-230 | the value becomes the ease at the elapsed time capped at the duration, and the log gains the notification. Once the duration has passed, the value is the target and the timer stops. The value stays between start and target, and the range invariant is kept |
| Control.AmountSlider.StopAnimation | AmountSlider.swift:240-243 | the timer is no longer active |
| Control.AmountSlider.Draw | AmountSlider.swift:71-118 | `slidePosition` becomes the centring offset; without a context no mark is drawn and no range is built, otherwise mark `i`, for each `i` in `0...markCount`, is `MarkAt(g, i)` |
| Control.PlaceMark | AmountSlider.swift:77-111 | one loop pass computes exactly `MarkAt(g, index)` |
| Control.MarkAlpha | AmountSlider.swift:84-101 | the alpha statements compute exactly `Alpha(g, index)` |
| Control.QuarterSteps | AmountSlider.swift:232-238 | the ease from 4.6 to 5 over 0.2 passes 4.625, 4.7, 4.825 and ends at exactly 5 |
| Control.ReportsFive | AmountSlider.swift:245-248 | with tick 1, every value in `[4.5, 5.5)` reports 5 |
| Control.ReleasedAtFourPointSix | AmountSlider.swift:190-216 | a fresh control set to 4.6 and released starts easing from 4.6 toward 5 with the timer running |
| Control.SnapScenario | AmountSlider.swift:190-248 | release at 4.6 and four timer firings a quarter-duration apart: the value settles at exactly 5, the timer stops, and the log is one report, `endTracking`, then four reports of 5 |

## Left out

- Rendering: the graphics context, fill colours, rounded-rect paths and
  `fillPath`, and `setNeedsDisplay`. `Draw` returns each mark's rect and
  alpha instead. Without a graphics context it returns no marks.
- `drawStaticMark` and `drawMark`: they are private and never called.
- The timer's scheduling (`Timer.scheduledTimer` every `animateDuration / 4`)
  and the clock. The timer is the `timerActive` flag, each firing is a call of
  `Step(now)`, and `CACurrentMediaTime()` is the `now` argument.
- `triggerFeedback` and `Vibration`: they are outside this code. The haptic
  pulse is logged as the `Feedback` event, and the iOS-version choice of
  vibration style is not modelled.
- Delegate dispatch: a missing delegate, or one without the optional method,
  would make the call a no-op. The model logs every call the control makes.
- `@IBInspectable`/`@IBOutlet` wiring, the initialisers, `padding`,
  `markColor` and `markRadius` are not modelled: they do not affect the
  logic. The constructor sets the declared defaults.
- IEEE-754 behaviour is not modelled: no NaN or infinities, no rounding error,
  and `pow(x, 2)` is `x * x`. Because of this:
  - `Control.EndTrackingRound` proves the release rounding equal to
    `tick * round(value / tick)` in exact arithmetic only.
  - Divisions that produce infinity or NaN in Swift (a zero width, zero marks, a zero tick in `draw`)
    are excluded by preconditions.
- Integer overflow is not modelled: `Int(_:)` of a huge Double, and
  `markCount * Int(tick)`.
- `Control.AmountSlider.SetValue` requires `Int(tick) != 0`. In Swift, a
  tick strictly between -1 and 1 makes `updateValue` trap on `% 0` at every
  assignment. The model states the trap as a precondition and leaves the
  crash out.
- `Control.AmountSlider.ContinueTracking` requires a positive width and at
  least one mark when the tick is non-zero. With zero width the drag
  divides by zero, which gives infinity or NaN in Swift, and `real` cannot
  represent either. With zero marks the drag itself would leave the value
  unchanged, but `draw` then traps at the defaults: the high-band range is
  `101...100`. The model keeps the precondition for that reason.
- `Control.DragDirection` is stated for a positive tick. With a negative tick
  the direction flips; the model covers that case only through
  `DraggedValue`.
- Only the width is modelled for the view: `frame` and `bounds` are assumed
  to have the same width.
