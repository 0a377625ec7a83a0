# LCD clock with orientation stopwatch: controller model

This project is a Dafny model of the control logic of a battery-powered table clock. The clock has
two side buttons and a 128-pixel LCD. It shows the time in **Display** mode. In **Set** mode the
buttons adjust the hour and the minutes. Turning face 3 of the device up starts a **Stopwatch**, and
turning it away stops it. There are three display toggles: seconds, temperature and voltage. A
single render task redraws the screen and plans its own next run.

The firmware exists in two copies:

- `src/application.c`, for the current `twr_*` SDK;
- `app/application.c`, for the older `bc_*` SDK.

They match line for line apart from the vendor renaming. The differences that are not plain renames are these:

- The clock record is `struct tm` in the newer copy (`tm_hour`, `tm_min`, ...) and `bc_rtc_t` in the older one (`hours`, `minutes`, ...).
- The newer copy writes it back with `twr_rtc_set_datetime(&rtc, 0)`, the older one with `bc_rtc_set_date_time(&rtc)` (line 108).
- The stopwatch timestamp is a conversion call in the newer copy and the `rtc.timestamp` field in the older one (lines 267 and 451).
- The degree sign in the temperature format string is encoded differently (line 345).

None of these changes the logic, so the model is written once and covers both copies at the same line numbers. Each row below cites one copy. `ChangeTimeWraps`, `ToUint32`, `ToInt32` and the class methods cite the older one; all other rows cite the newer one.

Modules:

- `CArith` (c_arith.dfy): C's integer semantics where they differ from Dafny's.
  - `CDiv` and `CRem` are C's `/` and `%`, which truncate toward zero (section 6.5.5 of ISO/IEC 9899:2011).
  - `ToUint32` is conversion to `uint32_t`.
  - `ToInt32` is 32-bit two's-complement wrap-around.
- `TimeAdjust` (time_adjust.dfy): `rtc_change_time` as a pure function on the clock fields. It
  follows the source's branches literally, and lemmas relate it to the Euclidean modulus.
- `ClockState` (clock_state.dfy): the controller state as a record, with the invariant `Valid`.
  - `ButtonStep` specifies `lcd_event_handler`.
  - `AccelStep` specifies the orientation logic of `lis2dh12_event_handler`.
  - The scheduler is the single field `pending`, the delay of the latest plan. A later plan replaces
    an earlier one, and "plan now" is 0.
- `RenderPolicy` (render_policy.dfy): the choices the render task makes, as functions. These are
  the rotation, the next delay, the 50 ms back-off, the Set-mode underline geometry and the
  stopwatch minutes/seconds split. The widths of measured strings are integer parameters.
- `ClockProperties` (clock_properties.dfy): the lemmas. `Run` applies a sequence of inputs one at a
  time, each running to completion before the next, and `RunPreservesValid` proves that the
  invariant survives every such sequence.
- `Controller` (controller.dfy): class `Clock`. Its fields are the firmware's globals. Its methods
  update them step by step, as the C handlers do, and each method's postcondition ties the new
  state to the matching step function.

In three places the code behaves differently from what the clock's intended design suggests. The model follows the code:

- An orientation change might be expected to request a render only when the mode changes. The
  code plans a render whenever the face differs from the remembered one, even if the mode stays
  the same (src/application.c:254-274). See `AccelUpdateEffect`.
- The intended hour rule is `((h + d) mod 24 + 24) mod 24`. The code uses a
  branch on `> 23` and `< 0` with C's `%`. The two differ only when the sum is a negative multiple
  of the period, where the code yields 24 (or 60). The increments the buttons use never reach that
  case. See `WrapFieldExact`, `WrapFieldOutOfRange` and `ChangeTimeWraps`.
- Leaving Set mode does not reset the cursor. The next entry sets it to 2 (left hold) or to 0
  (right hold).

## Model

| member | source | states |
|---|---|---|
| `CArith.CDiv` | src/application.c:400 | C's `/` by a positive divisor: the Euclidean quotient for a non-negative dividend, and between the dividend and 0 for a negative one (truncation toward zero) |
| `CArith.CRem` | src/application.c:64-71 | C's `%` has the sign of the dividend and magnitude below the divisor; on a non-negative dividend it equals the Euclidean remainder |
| `CArith.DivRemRecombine` | src/application.c:453 | C's `diff / 60` and `diff % 60` recombine to `diff`; for `diff >= 0` the quotient is the Euclidean one and non-negative |
| `CArith.CRemNegative` | src/application.c:68-71 | for a negative dividend C's remainder is 0 on an exact multiple and otherwise the Euclidean remainder minus the divisor |
| `CArith.ToUint32` | app/application.c:265-267 | storing the clock's timestamp in the `uint32_t` anchor keeps it modulo 2^32 and leaves any in-range value unchanged |
| `CArith.ToInt32` | app/application.c:451 | the difference stored in an `int` lands in the 32-bit range, is congruent to the true difference modulo 2^32, and equals it when it is in range |
| `TimeAdjust.WrapField` | src/application.c:59-93 | the literal field step lands in `[0, period]`; it reaches `period` only for a negative sum; an in-range sum is kept as is |
| `TimeAdjust.WrapFieldExact` | src/application.c:59-73 | for every input, the literal branch code equals `(value + inc) mod period`, except at a negative multiple of the period, where it gives `period` |
| `TimeAdjust.WrapFieldEuclidean` | src/application.c:78-93 | when the sum is above minus one period, the result is Euclidean `(value + inc) mod period` and lies in `[0, period)` |
| `TimeAdjust.WrapFieldOutOfRange` | src/application.c:68-71 | the C form `period + (x % period)` leaves the range exactly at `x = -period`: it yields `period` |
| `TimeAdjust.ChangeTimeOf` | src/application.c:102-106 | the written-back time has second 0 and year 1; an hour change keeps the minute, and a minute change keeps the hour (no carry) |
| `TimeAdjust.ChangeTimeWraps` | app/application.c:59-93 | from a valid time, with the handler's increments (±1 hour, ±1 or ±10 minutes), the result is valid and the changed field is the Euclidean modulus of the sum |
| `TimeAdjust.MinuteDoesNotCarry` | src/application.c:78-93 | 23:58 plus 5 minutes is 23:03 with seconds 0 |
| `ClockState.Initial` | src/application.c:14-50 | start-up: Display mode, cursor 0, all toggles off, face 1, remembered face unknown |
| `ClockState.Adjust` | src/application.c:108-110 | an adjustment changes only the clock and plans the render now |
| `ClockState.SetClick` | src/application.c:163-203 | a Set-mode click keeps mode, cursor, toggles, face memory and anchor; with the cursor on a field it writes `ChangeTimeOf` of the hour (±1) or the minutes (±10 for cursor 1, ±1 for cursor 2) and plans the render now; any other cursor changes nothing |
| `ClockState.ButtonStep` | src/application.c:113-210 | after any gesture the latest plan is 10 ms or now; the face, the remembered face and the anchor are unchanged; only clicks change the clock |
| `ClockState.AccelStep` | src/application.c:235-275 | a successful read records the face as current and remembered, a failure keeps both; cursor, clock and toggles never change; the anchor changes only when Display becomes Stopwatch |
| `ClockProperties.SetClickKeepsValid` | src/application.c:163-203 | a Set-mode click keeps the state valid and changes only the clock and the plan |
| `ClockProperties.ButtonStepPreservesValid` | src/application.c:113-210 | every gesture keeps the cursor in [0,2] and the clock fields in range |
| `ClockProperties.AccelStepPreservesValid` | src/application.c:248-275 | every accelerometer event keeps the invariant, including "Stopwatch only while face 3 is remembered" |
| `ClockProperties.Step` | src/application.c:113-275 | only an accelerometer callback touches the face, the remembered face or the anchor, or enters or leaves Stopwatch; a render run changes only the plan, to a positive delay |
| `ClockProperties.Run` | src/application.c:113-275 | the empty sequence changes nothing; a sequence without accelerometer callbacks keeps the face memory, the anchor and whether the stopwatch runs |
| `ClockProperties.RunAppend` | src/application.c:113-275 | inputs are handled one after another: running `a` then `b` equals running `a + b` |
| `ClockProperties.RunPreservesValid` | src/application.c:113-275 | after any sequence of gestures, orientation events and renders, the invariant holds |
| `ClockProperties.ReachableValid` | src/application.c:49-50 | every state reachable from start-up satisfies the invariant |
| `ClockProperties.ButtonPlansRender` | src/application.c:110-115 | every gesture plans the render 10 ms ahead; exactly the Set-mode clicks on a field replan it for now |
| `ClockProperties.HoldFromDisplay` | src/application.c:122-150 | in Display, a left hold gives Set with cursor 2 and a right hold gives Set with cursor 0; nothing else changes |
| `ClockProperties.HoldInSet` | src/application.c:131-160 | in Set, a left hold goes to Display iff the cursor is 0 (cursor kept), else moves the cursor down by 1; a right hold does the same at 2 and moves it up |
| `ClockProperties.FourLeftHolds` | src/application.c:122-141 | four left holds from Display give Set(2), Set(1), Set(0), Display |
| `ClockProperties.ButtonsNeverTouchStopwatch` | src/application.c:113-210 | no gesture enters or leaves Stopwatch or touches the face memory or the anchor |
| `ClockProperties.BothHoldTogglesSeconds` | src/application.c:117-120 | both-hold flips show-seconds in every mode and changes nothing else but the plan |
| `ClockProperties.BothHoldTwiceRestores` | src/application.c:117-120 | two both-holds restore the state and the render cadence |
| `ClockProperties.ClicksInSet` | src/application.c:163-203 | in Set, clicks move the hour by ∓1, the minutes by ∓10 or ∓1 according to the cursor, with Euclidean wrap; no toggle, mode or cursor changes |
| `ClockProperties.ClicksInDisplay` | src/application.c:181-208 | in Display, a left click toggles temperature only and a right click toggles voltage only |
| `ClockProperties.ButtonsInStopwatch` | src/application.c:122-209 | in Stopwatch, clicks and single holds change nothing but the plan |
| `ClockProperties.AccelUpdateEffect` | src/application.c:248-275 | the face is always recorded; a repeated face changes nothing else and plans nothing; a new face is remembered, plans the render now, and switches Display to Stopwatch on face 3 (anchor = now) and Stopwatch to Display on any other face |
| `ClockProperties.AccelFailureInert` | src/application.c:235-240 | error events and failed reads leave the state unchanged |
| `ClockProperties.AccelRepeatIsNoop` | src/application.c:253-257 | delivering the same orientation event again, at any time, changes nothing |
| `ClockProperties.OrientationKeepsSet` | src/application.c:262-272 | orientation never enters or leaves Set |
| `ClockProperties.EnterStopwatch` | src/application.c:262-268 | from Display, a new face 3 starts the stopwatch anchored at now; the elapsed time at that instant is 0 |
| `ClockProperties.LeaveStopwatch` | src/application.c:269-272 | from Stopwatch, a face other than 3 returns to Display, and a later face other than 3 keeps it there |
| `ClockProperties.StopwatchNeedsFreshFace3` | src/application.c:254-262 | in Display with face 3 already remembered, face 3 again does not start the stopwatch |
| `RenderPolicy.CentredLeft` | src/application.c:347 | `64 - w / 2` centres a non-negative width on column 64 to within half a pixel |
| `RenderPolicy.DisplayRotation` | src/application.c:329-340 | the Display rotation is 270 exactly for face 2, 90 exactly for face 5, otherwise 0 |
| `RenderPolicy.Cadence` | src/application.c:317 | the next delay is one of 50, 330, 5000 or 2000 ms, always positive, and 50 exactly when the display was not ready |
| `RenderPolicy.LayoutOf` | src/application.c:406-412 | the three segments are contiguous apart from the separator, each as wide as its string, and together as wide as `H : MM` |
| `RenderPolicy.Underline` | src/application.c:414-433 | a bar exists exactly for cursor 0, 1 or 2; it lies at y 85 with height 2 and spans the hour, tens or units segment |
| `RenderPolicy.Elapsed` | src/application.c:451 | the stored difference is in the 32-bit range, congruent modulo 2^32 to `now - anchor`, and equal to it when it fits |
| `RenderPolicy.Split` | src/application.c:453 | minutes·60 + seconds = diff; for diff ≥ 0 the seconds are in [0,59] and the minutes non-negative; for diff < 0 the seconds are in [-59,0] |
| `RenderPolicy.RenderFrame` | src/application.c:313-465 | no frame exactly when the display is not ready; otherwise the frame kind follows the mode; the clock frame shows temperature, voltage and seconds exactly when toggled on; in Set the underline exists exactly for a cursor in [0,2] |
| `ClockProperties.NotReadyBacksOff` | src/application.c:315-319 | if the display is not ready, no frame is drawn and the task retries in 50 ms |
| `ClockProperties.RotationByMode` | src/application.c:329-449 | rotation is 270 for face 2, 90 for face 5, else 0 in Display; 0 in Set; 180 in Stopwatch |
| `ClockProperties.CadenceFollowsSeconds` | src/application.c:372-463 | the next render is under 1 s exactly when seconds are on screen (Stopwatch, or Display with seconds), and at least 2 s otherwise; it is always positive; Display uses 330 or 5000, Set 2000 and Stopwatch 330 |
| `ClockProperties.SetLayoutGeometry` | src/application.c:394-412 | the hour, tens and units spans are contiguous apart from the separator, start at `64 - total/2`, add up to the total width, and centre the text within half a pixel |
| `ClockProperties.UnderlineFollowsCursor` | src/application.c:414-433 | in Set, the underline bar covers exactly the span of the segment under the cursor |
| `ClockProperties.SetDigits` | src/application.c:400-404 | the tens and units digits measured in Set are in [0,5] and [0,9] and recompose the minute |
| `ClockProperties.ElapsedSinceCapture` | src/application.c:451 | with the 32-bit anchor and a 32-bit `int` difference, the elapsed value is the true count of seconds since capture whenever fewer than 2^31 seconds have passed |
| `ClockProperties.StopwatchShowsElapsed` | src/application.c:449-453 | the stopwatch frame shows minutes and seconds in [0,59] that add up to the seconds since the anchor |
| `ClockProperties.StopwatchEndToEnd` | src/application.c:262-268 | face 3 turned up in Display at `t0`, then any gestures and renders, then a render at `now`: the frame shows minutes and seconds in [0,59] that add up to `now - t0`, if fewer than 2^31 seconds passed |
| `Controller.Clock.constructor` | app/application.c:14-50 | the fields start at the globals' initial values and satisfy the invariant |
| `Controller.Clock.ChangeTime` | app/application.c:52-111 | the step-by-step update of a copy of the clock writes back exactly `Adjust` of the old state |
| `Controller.Clock.HandleButton` | app/application.c:113-209 | the handler's sequence of `if`s and early returns yields exactly `ButtonStep` of the old state and keeps the invariant |
| `Controller.Clock.HandleAccel` | app/application.c:248-275 | the handler yields exactly `AccelStep` of the old state and keeps the invariant |
| `Controller.Clock.RenderTask` | app/application.c:313-465 | the returned frame is `RenderFrame` of the state; only the planned delay changes, to `Cadence` of the mode and toggle |

## Left out

- Sensor drivers and their float readings. This covers `tmp112_event_handler`, `battery_event_handler`, the TMP112, battery and LIS2DH12 drivers, the cached temperature and voltage values and their `%.1f` text. The model records only where those strings are drawn.
- The dice-face classifier (`*_dice_feed_vectors`, `*_dice_get_face`). It is a foreign library over float vectors. Its output is an input of `AccelStep` and `HandleAccel`.
- The graphics library: clear, fonts, drawing, flushing, string formatting and width measurement. Frames carry positions, rotation and the numbers shown; widths are parameters.
- RTC persistence and timestamp conversion. The clock's fields live in the `rtc` field, which only adjustments change: the clock's own ticking is external. The timestamp `now` is a parameter. Which width the conversion returns does not matter, because the anchor is 32-bit and the difference is truncated to 32 bits (`ElapsedSinceCapture`).
- The scheduler, the PLL enable/disable around Set-mode rendering, the LED, `application_init` wiring and the 400 ms button hold time. These are hardware plumbing; only the latest planned delay is kept. The model's start-up state has the render due at once.
- The calendar date fields of the clock record (day, month, weekday). `rtc_change_time` writes them back unchanged and no handler reads them, so `DateTime` holds only the year, hour, minute and second.
- The `default: return` branch of `rtc_change_time`. The two-valued `Change` datatype makes it unreachable.
- `Controller.Clock.RenderTask`: it does not model the order of the graphics calls within one frame.
