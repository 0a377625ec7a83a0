/**
  What the controller promises, proved about the step functions of
  `ClockState` and the decisions of `RenderPolicy`.
 */
module ClockProperties {
  import opened CArith
  import opened TimeAdjust
  import opened ClockState
  import opened RenderPolicy

  // ---------------------------------------------------------------------
  // The invariant survives every event
  // ---------------------------------------------------------------------

  /** A Set-mode click keeps the clock valid and changes nothing but the clock and the plan. */
  lemma SetClickKeepsValid(s: State, sign: int)
    requires Valid(s)
    requires sign == 1 || sign == -1
    ensures Valid(SetClick(s, sign))
    ensures SetClick(s, sign) == s.(rtc := SetClick(s, sign).rtc, pending := SetClick(s, sign).pending)
  {
    if s.cursor == 0 {
      ChangeTimeWraps(s.rtc, Hours, sign);
    } else if s.cursor == 1 {
      ChangeTimeWraps(s.rtc, Minutes, 10 * sign);
    } else {
      ChangeTimeWraps(s.rtc, Minutes, sign);
    }
  }

  lemma ButtonStepPreservesValid(s: State, e: Button)
    requires Valid(s)
    ensures Valid(ButtonStep(s, e))
  {
    var t := s.(pending := ButtonSettleDelay);
    if e == LeftClick && s.mode == Set {
      SetClickKeepsValid(t, -1);
    } else if e == RightClick && s.mode == Set {
      SetClickKeepsValid(t, 1);
    }
  }

  lemma AccelStepPreservesValid(s: State, ev: AccelEvent, now: int)
    requires Valid(s)
    ensures Valid(AccelStep(s, ev, now))
  {
  }

  /** An input to the controller: a gesture, an accelerometer callback, or a run of the render task. */
  datatype Input = Press(button: Button) | Tilt(ev: AccelEvent, now: int) | Redraw(ready: bool)

  /**
    One input run to completion. Only an accelerometer callback can touch
    the orientation memory, the stopwatch anchor, or enter or leave
    Stopwatch mode; a render run only replans itself.
   */
  function Step(s: State, i: Input): (r: State)
    ensures !i.Tilt? ==>
      r.anchor == s.anchor && r.lastFace == s.lastFace && r.face == s.face &&
      (r.mode == Stopwatch <==> s.mode == Stopwatch)
    ensures i.Redraw? ==> r == s.(pending := r.pending) && r.pending > 0
  {
    match i
    case Press(b) => ButtonStep(s, b)
    case Tilt(ev, now) => AccelStep(s, ev, now)
    case Redraw(ready) => s.(pending := Cadence(ready, s.mode, s.showSeconds))
  }

  /** Whether a sequence of inputs holds no accelerometer callback. */
  predicate NoTilt(inputs: seq<Input>)
  {
    forall k :: 0 <= k < |inputs| ==> !inputs[k].Tilt?
  }

  /**
    The state after a sequence of inputs, each run to completion before the
    next. Without an accelerometer callback the orientation memory, the
    anchor and whether the stopwatch runs all stay as they were.
   */
  function Run(s: State, inputs: seq<Input>): (r: State)
    ensures inputs == [] ==> r == s
    ensures NoTilt(inputs) ==>
      r.anchor == s.anchor && r.lastFace == s.lastFace && r.face == s.face &&
      (r.mode == Stopwatch <==> s.mode == Stopwatch)
    decreases |inputs|
  {
    if inputs == [] then s else Run(Step(s, inputs[0]), inputs[1..])
  }

  /** Inputs are processed in order: running two sequences one after the other is running their concatenation. */
  lemma {:induction false} RunAppend(s: State, a: seq<Input>, b: seq<Input>)
    ensures Run(s, a + b) == Run(Run(s, a), b)
    decreases |a|
  {
    if a == [] {
      assert a + b == b;
    } else {
      assert (a + b)[0] == a[0];
      assert (a + b)[1..] == a[1..] + b;
      RunAppend(Step(s, a[0]), a[1..], b);
    }
  }

  /**
    No sequence of events makes an out-of-range cursor, hour or minute
    observable, and the stopwatch is never running while a face other than
    3 is remembered.
   */
  lemma {:induction false} RunPreservesValid(s: State, inputs: seq<Input>)
    requires Valid(s)
    ensures Valid(Run(s, inputs))
    decreases |inputs|
  {
    if inputs != [] {
      match inputs[0] {
        case Press(b) => ButtonStepPreservesValid(s, b);
        case Tilt(ev, now) => AccelStepPreservesValid(s, ev, now);
        case Redraw(_) =>
      }
      RunPreservesValid(Step(s, inputs[0]), inputs[1..]);
    }
  }

  /** Every state reachable from start-up satisfies the invariant. */
  lemma ReachableValid(rtc: DateTime, inputs: seq<Input>)
    requires ValidTime(rtc)
    ensures Valid(Run(Initial(rtc), inputs))
  {
    RunPreservesValid(Initial(rtc), inputs);
  }

  // ---------------------------------------------------------------------
  // Buttons
  // ---------------------------------------------------------------------

  /** Whether a gesture adjusts the clock: a click in Set mode with the cursor on a field. */
  predicate Adjusts(s: State, e: Button)
  {
    (e == LeftClick || e == RightClick) && s.mode == Set && 0 <= s.cursor <= 2
  }

  /**
    Every gesture plans the render 10 ms ahead; a clock adjustment then
    replans it for now, and the latest plan wins.
   */
  lemma ButtonPlansRender(s: State, e: Button)
    ensures ButtonStep(s, e).pending == if Adjusts(s, e) then PlanNow else ButtonSettleDelay
  {
  }

  /** In Display mode a hold enters Set: the left one on the minutes' units, the right one on the hours. */
  lemma HoldFromDisplay(s: State)
    requires s.mode == Display
    ensures ButtonStep(s, LeftHold) == s.(mode := Set, cursor := 2, pending := ButtonSettleDelay)
    ensures ButtonStep(s, RightHold) == s.(mode := Set, cursor := 0, pending := ButtonSettleDelay)
  {
  }

  /**
    In Set mode a hold moves the cursor one field; holding past either end
    returns to Display and leaves the cursor where it was.
   */
  lemma HoldInSet(s: State)
    requires s.mode == Set
    ensures var r := ButtonStep(s, LeftHold);
      (r.mode == Display <==> s.cursor == 0) && (r.mode == Set <==> s.cursor != 0) &&
      r.cursor == (if s.cursor == 0 then s.cursor else s.cursor - 1) &&
      r == s.(mode := r.mode, cursor := r.cursor, pending := ButtonSettleDelay)
    ensures var r := ButtonStep(s, RightHold);
      (r.mode == Display <==> s.cursor == 2) && (r.mode == Set <==> s.cursor != 2) &&
      r.cursor == (if s.cursor == 2 then s.cursor else s.cursor + 1) &&
      r == s.(mode := r.mode, cursor := r.cursor, pending := ButtonSettleDelay)
  {
  }

  /** Four left holds from Display visit Set with cursor 2, 1, 0 and return to Display. */
  lemma {:induction false} FourLeftHolds(s: State)
    requires s.mode == Display
    ensures var s1 := ButtonStep(s, LeftHold);
      var s2 := ButtonStep(s1, LeftHold);
      var s3 := ButtonStep(s2, LeftHold);
      var s4 := ButtonStep(s3, LeftHold);
      s1.mode == Set && s1.cursor == 2 &&
      s2.mode == Set && s2.cursor == 1 &&
      s3.mode == Set && s3.cursor == 0 &&
      s4.mode == Display && s4.cursor == 0
    ensures Run(s, [Press(LeftHold), Press(LeftHold), Press(LeftHold), Press(LeftHold)])
      == s.(cursor := 0, pending := ButtonSettleDelay)
  {
    var inputs := [Press(LeftHold), Press(LeftHold), Press(LeftHold), Press(LeftHold)];
    var s1 := ButtonStep(s, LeftHold);
    var s2 := ButtonStep(s1, LeftHold);
    var s3 := ButtonStep(s2, LeftHold);
    var s4 := ButtonStep(s3, LeftHold);
    assert Run(s, inputs) == Run(s1, inputs[1..]);
    assert inputs[1..][1..] == inputs[2..];
    assert inputs[2..][1..] == inputs[3..];
    assert inputs[3..][1..] == [];
    assert Run(s1, inputs[1..]) == Run(s2, inputs[2..]);
    assert Run(s2, inputs[2..]) == Run(s3, inputs[3..]);
    assert Run(s3, inputs[3..]) == Run(s4, []);
  }

  /**
    No gesture enters or leaves Stopwatch mode, and none touches the
    orientation memory or the stopwatch anchor.
   */
  lemma ButtonsNeverTouchStopwatch(s: State, e: Button)
    ensures var r := ButtonStep(s, e);
      (r.mode == Stopwatch <==> s.mode == Stopwatch) &&
      r.face == s.face && r.lastFace == s.lastFace && r.anchor == s.anchor
  {
  }

  /** Both-hold toggles the seconds in every mode, Stopwatch included, and does nothing else. */
  lemma BothHoldTogglesSeconds(s: State)
    ensures ButtonStep(s, BothHold) == s.(showSeconds := !s.showSeconds, pending := ButtonSettleDelay)
  {
  }

  /** Two both-holds leave the state and the render cadence as they were. */
  lemma BothHoldTwiceRestores(s: State, ready: bool)
    ensures var r := ButtonStep(ButtonStep(s, BothHold), BothHold);
      r == s.(pending := ButtonSettleDelay) &&
      Cadence(ready, r.mode, r.showSeconds) == Cadence(ready, s.mode, s.showSeconds)
  {
    BothHoldTogglesSeconds(s);
    BothHoldTogglesSeconds(ButtonStep(s, BothHold));
  }

  /**
    In Set mode the clicks adjust the field under the cursor — hours by
    one, tens of minutes by ten, units of minutes by one, down for the left
    button and up for the right one — and change no toggle, no mode and
    no cursor.
   */
  lemma ClicksInSet(s: State, e: Button)
    requires Valid(s) && s.mode == Set
    requires e == LeftClick || e == RightClick
    ensures var r := ButtonStep(s, e);
      var sign := if e == LeftClick then -1 else 1;
      r == s.(rtc := r.rtc, pending := PlanNow) &&
      ValidTime(r.rtc) && r.rtc.second == 0 && r.rtc.year == 1 &&
      (s.cursor == 0 ==> r.rtc.hour == (s.rtc.hour + sign) % 24 && r.rtc.minute == s.rtc.minute) &&
      (s.cursor == 1 ==> r.rtc.minute == (s.rtc.minute + 10 * sign) % 60 && r.rtc.hour == s.rtc.hour) &&
      (s.cursor == 2 ==> r.rtc.minute == (s.rtc.minute + sign) % 60 && r.rtc.hour == s.rtc.hour)
  {
    var sign := if e == LeftClick then -1 else 1;
    var t := s.(pending := ButtonSettleDelay);
    SetClickKeepsValid(t, sign);
    if s.cursor == 0 {
      ChangeTimeWraps(t.rtc, Hours, sign);
    } else if s.cursor == 1 {
      ChangeTimeWraps(t.rtc, Minutes, 10 * sign);
    } else {
      ChangeTimeWraps(t.rtc, Minutes, sign);
    }
  }

  /** In Display mode the left click toggles the temperature and the right click the voltage, nothing else. */
  lemma ClicksInDisplay(s: State)
    requires s.mode == Display
    ensures ButtonStep(s, LeftClick) == s.(showTemperature := !s.showTemperature, pending := ButtonSettleDelay)
    ensures ButtonStep(s, RightClick) == s.(showVoltage := !s.showVoltage, pending := ButtonSettleDelay)
  {
  }

  /** In Stopwatch mode, clicks and single holds only replan the render. */
  lemma ButtonsInStopwatch(s: State, e: Button)
    requires s.mode == Stopwatch && e != BothHold
    ensures ButtonStep(s, e) == s.(pending := ButtonSettleDelay)
  {
  }

  // ---------------------------------------------------------------------
  // Orientation
  // ---------------------------------------------------------------------

  /**
    The complete effect of a successful accelerometer read: the face is
    always recorded; a repeated face changes nothing else and plans
    nothing; a new face is remembered, plans the render now, and moves
    Display to Stopwatch on face 3 (anchoring at `now`) and Stopwatch to
    Display on any other face.
   */
  lemma AccelUpdateEffect(s: State, f: Face, now: int)
    ensures var r := AccelStep(s, AccelUpdate(true, f), now);
      r.face == f &&
      (s.lastFace == f ==> r == s.(face := f)) &&
      (s.lastFace != f ==>
        r.lastFace == f && r.pending == PlanNow &&
        r.mode == (if s.mode == Display && f == StopwatchFace then Stopwatch
                   else if s.mode == Stopwatch && f != StopwatchFace then Display
                   else s.mode) &&
        r.anchor == (if s.mode == Display && f == StopwatchFace then ToUint32(now) else s.anchor) &&
        r == s.(face := f, lastFace := f, mode := r.mode, anchor := r.anchor, pending := PlanNow))
  {
  }

  /** Error events and failed reads change nothing at all. */
  lemma AccelFailureInert(s: State, f: Face, now: int)
    ensures AccelStep(s, AccelError, now) == s
    ensures AccelStep(s, AccelUpdate(false, f), now) == s
  {
  }

  /** Debounce: delivering the same event again, at any time, is a no-op. */
  lemma AccelRepeatIsNoop(s: State, ev: AccelEvent, now1: int, now2: int)
    ensures var r := AccelStep(s, ev, now1);
      AccelStep(r, ev, now2) == r
  {
  }

  /** Set mode is neither entered nor left by orientation. */
  lemma OrientationKeepsSet(s: State, ev: AccelEvent, now: int)
    ensures (AccelStep(s, ev, now).mode == Set) <==> (s.mode == Set)
  {
  }

  /**
    From Display, turning face 3 up starts the stopwatch with the anchor at
    `now`, so that a render at the same instant shows zero elapsed time.
   */
  lemma EnterStopwatch(s: State, now: int)
    requires s.mode == Display && s.lastFace != StopwatchFace
    ensures var r := AccelStep(s, AccelUpdate(true, StopwatchFace), now);
      r.mode == Stopwatch && r.anchor == ToUint32(now) && r.pending == PlanNow &&
      Elapsed(now, r.anchor) == 0
  {
    ElapsedSinceCapture(now, now);
  }

  /**
    From a running stopwatch any other face returns to Display once; a
    further face other than 3 leaves Display in place.
   */
  lemma LeaveStopwatch(s: State, f: Face, g: Face, now1: int, now2: int)
    requires Valid(s) && s.mode == Stopwatch
    requires f != StopwatchFace && g != StopwatchFace
    ensures var r := AccelStep(s, AccelUpdate(true, f), now1);
      r.mode == Display && r.pending == PlanNow &&
      AccelStep(r, AccelUpdate(true, g), now2).mode == Display
  {
  }

  /**
    Leaving Set mode while face 3 is already remembered does not start the
    stopwatch: face 3 has to be turned away from and back up first.
   */
  lemma StopwatchNeedsFreshFace3(s: State, now: int)
    requires s.mode == Display && s.lastFace == StopwatchFace
    ensures AccelStep(s, AccelUpdate(true, StopwatchFace), now).mode == Display
  {
  }

  // ---------------------------------------------------------------------
  // Rendering
  // ---------------------------------------------------------------------

  /** A display that is not ready gets no frame and a 50 ms retry, in every mode. */
  lemma NotReadyBacksOff(s: State, now: int, w: Widths)
    ensures RenderFrame(s, false, now, w) == NotReady
    ensures Cadence(false, s.mode, s.showSeconds) == NotReadyDelay
  {
  }

  /** The rotation of each frame: by face in Display, upright in Set, upside down in Stopwatch. */
  lemma RotationByMode(s: State, now: int, w: Widths)
    ensures var f := RenderFrame(s, true, now, w);
      match s.mode
      case Display => f.ClockFrame? && f.rotation == (if s.face == 2 then 270 else if s.face == 5 then 90 else 0)
      case Set => f.SetFrame? && f.rotation == 0
      case Stopwatch => f.StopwatchFrame? && f.rotation == 180
  {
  }

  /**
    The cadence trade-off: when a ticking seconds field is on screen (the
    stopwatch, or the clock with seconds) the render repeats within a
    second, and otherwise it waits at least two seconds; a render is always
    replanned.
   */
  lemma CadenceFollowsSeconds(ready: bool, mode: Mode, showSeconds: bool)
    requires ready
    ensures var d := Cadence(ready, mode, showSeconds);
      (d < 1000 <==> mode == Stopwatch || (mode == Display && showSeconds)) &&
      (d >= 2000 <==> mode == Set || (mode == Display && !showSeconds)) &&
      d > 0
    ensures mode == Display ==> Cadence(ready, mode, showSeconds) == (if showSeconds then FastCadence else SlowCadence)
    ensures mode == Set ==> Cadence(ready, mode, showSeconds) == SetCadence
    ensures mode == Stopwatch ==> Cadence(ready, mode, showSeconds) == FastCadence
  {
  }

  /**
    Set-mode geometry: the three segments lie left to right with the
    separator between hours and tens, their spans add up to the total
    width, and the text is centred on column 64 to within half a pixel.
   */
  lemma SetLayoutGeometry(w: Widths)
    ensures var g := LayoutOf(w);
      var total := w.hours + w.colon + w.tens + w.units;
      g.hours.0 == g.left && g.hours.1 == g.hours.0 + w.hours &&
      g.tens.0 == g.hours.1 + w.colon && g.tens.1 == g.tens.0 + w.tens &&
      g.units.0 == g.tens.1 && g.units.1 == g.units.0 + w.units &&
      g.units.1 - g.left == total &&
      (total >= 0 ==> 2 * g.left + total == 2 * Centre || 2 * g.left + total == 2 * Centre + 1)
  {
    var total := w.hours + w.colon + w.tens + w.units;
    if total >= 0 {
      DivRemRecombine(total, 2);
    }
  }

  /** In Set mode the underline spans exactly the segment under the cursor. */
  lemma UnderlineFollowsCursor(s: State, now: int, w: Widths)
    requires Valid(s) && s.mode == Set
    ensures var f := RenderFrame(s, true, now, w);
      var g := LayoutOf(w);
      var span := if s.cursor == 0 then g.hours else if s.cursor == 1 then g.tens else g.units;
      f.SetFrame? && f.at.x == g.left &&
      f.underline == Some(Rect(span.0, UnderlineY, span.1, UnderlineY + UnderlineHeight))
  {
  }

  /** The digits measured in Set mode recompose the minute. */
  lemma SetDigits(s: State, now: int, w: Widths)
    requires Valid(s) && s.mode == Set
    ensures var f := RenderFrame(s, true, now, w);
      f.SetFrame? && f.hour == s.rtc.hour &&
      0 <= f.tens <= 5 && 0 <= f.units <= 9 && 10 * f.tens + f.units == s.rtc.minute
  {
    DivRemRecombine(s.rtc.minute, 10);
  }

  /**
    The elapsed time shown is the true number of seconds since the anchor
    was captured, as long as fewer than 2^31 seconds have passed, whatever
    the width of the clock's timestamp.
   */
  lemma ElapsedSinceCapture(t0: int, now: int)
    requires 0 <= now - t0 < Two31
    ensures Elapsed(now, ToUint32(t0)) == now - t0
  {
    var a := ToUint32(t0);
    var r := Elapsed(now, a);
    assert (a - t0) % Two32 == 0;
    assert (r - (now - a)) % Two32 == 0;
    var k := (a - t0) / Two32;
    var j := (r - (now - a)) / Two32;
    assert a - t0 == k * Two32;
    assert r - (now - a) == j * Two32;
    assert (j - k) * Two32 == j * Two32 - k * Two32;
    assert r - (now - t0) == (j - k) * Two32;
    if j - k > 0 {
      MulAtLeast(j - k, Two32);
    } else if j - k < 0 {
      MulAtLeast(k - j, Two32);
    }
  }

  /** Elapsed time rendered in Stopwatch mode. */
  lemma StopwatchShowsElapsed(s: State, now: int, w: Widths)
    requires s.mode == Stopwatch
    requires 0 <= now - s.anchor < Two31
    ensures var f := RenderFrame(s, true, now, w);
      f.StopwatchFrame? && f.minutes * 60 + f.seconds == now - s.anchor &&
      0 <= f.seconds < 60 && f.minutes >= 0
  {
    ElapsedSinceCapture(s.anchor, now);
  }

  /**
    The stopwatch end to end: turning face 3 up in Display at timestamp
    `t0`, then any gestures and renders, then a render at `now` shows
    exactly `now - t0` seconds as minutes and seconds, provided fewer than
    2^31 seconds have passed.
   */
  lemma StopwatchEndToEnd(s: State, t0: int, inputs: seq<Input>, now: int, w: Widths)
    requires s.mode == Display && s.lastFace != StopwatchFace
    requires NoTilt(inputs)
    requires 0 <= now - t0 < Two31
    ensures var r := Run(AccelStep(s, AccelUpdate(true, StopwatchFace), t0), inputs);
      var f := RenderFrame(r, true, now, w);
      f.StopwatchFrame? && f.minutes * 60 + f.seconds == now - t0 &&
      0 <= f.seconds < 60 && f.minutes >= 0
  {
    EnterStopwatch(s, t0);
    ElapsedSinceCapture(t0, now);
  }
}
