/**
  The controller's state and the specification of its two event handlers,
  as functions from the state before an event to the state after it.

  The scheduler is reduced to the one value that matters to the controller:
  the delay (ms) of the render task's latest plan. Every later plan
  supersedes the earlier one, and planning "now" is a delay of 0.
 */
module ClockState {
  import opened CArith
  import opened TimeAdjust

  /** `clock_mode_t`. */
  datatype Mode = Display | Set | Stopwatch

  /** A classified orientation: 0 is "unknown", 1..6 the face lying up. */
  type Face = f: int | 0 <= f <= 6

  /** The face that starts the stopwatch. */
  const StopwatchFace: Face := 3

  /** Delay of the render after a button gesture, and of "plan now". */
  const ButtonSettleDelay: nat := 10
  const PlanNow: nat := 0

  /** The five gestures the LCD module reports. */
  datatype Button = BothHold | LeftHold | RightHold | LeftClick | RightClick

  /**
    An accelerometer callback: an error event, or an update whose read may
    fail; when it succeeds the external classifier has produced `face`.
   */
  datatype AccelEvent = AccelError | AccelUpdate(readOk: bool, face: Face)

  /**
    Every global the controller touches. `rtc` is the real-time clock as
    the controller reads and writes it; `anchor` is the 32-bit stopwatch
    start `timestamp`; `lastFace` is the handler's static one-slot memory;
    `pending` is the latest planned render delay.
   */
  datatype State = State(
    mode: Mode,
    cursor: int,
    showSeconds: bool,
    showVoltage: bool,
    showTemperature: bool,
    face: Face,
    lastFace: Face,
    anchor: U32,
    rtc: DateTime,
    pending: nat)

  /** The state at start-up, with the render due at once. */
  function Initial(rtc: DateTime): (s: State)
    ensures s.mode == Display && s.cursor == 0 && s.lastFace == 0 && s.face == 1
    ensures !s.showSeconds && !s.showVoltage && !s.showTemperature
  {
    State(Display, 0, false, false, false, 1, 0, 0, rtc, PlanNow)
  }

  /**
    The invariant: the cursor stays in its three positions, the clock's
    fields stay in range, and the stopwatch runs only while face 3 is the
    remembered face.
   */
  ghost predicate Valid(s: State)
  {
    0 <= s.cursor <= 2 &&
    ValidTime(s.rtc) &&
    (s.mode == Stopwatch ==> s.lastFace == StopwatchFace)
  }

  /** `rtc_change_time`: write the adjusted time back and plan the render now. */
  function Adjust(s: State, change: Change, increment: int): (r: State)
    ensures r == s.(rtc := r.rtc, pending := PlanNow)
  {
    s.(rtc := ChangeTimeOf(s.rtc, change, increment), pending := PlanNow)
  }

  /**
    A click in Set mode: the cursor selects hours, tens of minutes or units
    of minutes; `sign` is -1 for the left button and +1 for the right one.
   */
  function SetClick(s: State, sign: int): (r: State)
    ensures r.mode == s.mode && r.cursor == s.cursor
    ensures r.showSeconds == s.showSeconds && r.showVoltage == s.showVoltage
    ensures r.showTemperature == s.showTemperature
    ensures r.face == s.face && r.lastFace == s.lastFace && r.anchor == s.anchor
    ensures !(0 <= s.cursor <= 2) ==> r == s
    ensures 0 <= s.cursor <= 2 ==>
      r.pending == PlanNow &&
      r.rtc == ChangeTimeOf(s.rtc, if s.cursor == 0 then Hours else Minutes,
                            if s.cursor == 1 then 10 * sign else sign)
  {
    if s.cursor == 0 then Adjust(s, Hours, sign)
    else if s.cursor == 1 then Adjust(s, Minutes, 10 * sign)
    else if s.cursor == 2 then Adjust(s, Minutes, sign)
    else s
  }

  /** `lcd_event_handler`: first plan the render 10 ms ahead, then act on the gesture. */
  function ButtonStep(s0: State, e: Button): (r: State)
    ensures r.pending == ButtonSettleDelay || r.pending == PlanNow
    ensures r.face == s0.face && r.lastFace == s0.lastFace && r.anchor == s0.anchor
    ensures r.rtc != s0.rtc ==> e.LeftClick? || e.RightClick?
  {
    var s := s0.(pending := ButtonSettleDelay);
    match e
    case BothHold => s.(showSeconds := !s.showSeconds)
    case LeftHold =>
      if s.mode == Display then s.(mode := Set, cursor := 2)
      else if s.mode == Set then
        (if s.cursor == 0 then s.(mode := Display) else s.(cursor := s.cursor - 1))
      else s
    case RightHold =>
      if s.mode == Display then s.(mode := Set, cursor := 0)
      else if s.mode == Set then
        (if s.cursor == 2 then s.(mode := Display) else s.(cursor := s.cursor + 1))
      else s
    case LeftClick =>
      if s.mode == Set then SetClick(s, -1)
      else if s.mode == Display then s.(showTemperature := !s.showTemperature)
      else s
    case RightClick =>
      if s.mode == Set then SetClick(s, 1)
      else if s.mode == Display then s.(showVoltage := !s.showVoltage)
      else s
  }

  /**
    The orientation part of `lis2dh12_event_handler`: the current face is
    always recorded; only a face different from the remembered one is acted
    upon. `now` is the clock's timestamp at the time of the event.
   */
  function AccelStep(s: State, ev: AccelEvent, now: int): (r: State)
    ensures r.lastFace == if ev.AccelUpdate? && ev.readOk then ev.face else s.lastFace
    ensures r.face == if ev.AccelUpdate? && ev.readOk then ev.face else s.face
    ensures r.cursor == s.cursor && r.rtc == s.rtc
    ensures r.showSeconds == s.showSeconds && r.showVoltage == s.showVoltage
    ensures r.showTemperature == s.showTemperature
    ensures r.anchor != s.anchor ==> r.mode == Stopwatch && s.mode == Display
  {
    match ev
    case AccelError => s
    case AccelUpdate(readOk, f) =>
      if !readOk then s
      else if s.lastFace == f then s.(face := f)
      else
        var t := s.(face := f, lastFace := f);
        var t :=
          if t.mode == Display && f == StopwatchFace then t.(mode := Stopwatch, anchor := ToUint32(now))
          else if t.mode == Stopwatch && f != StopwatchFace then t.(mode := Display)
          else t;
        t.(pending := PlanNow)
  }
}
