/**
  The decisions of the render task (`application_task`): what it would put
  on the 128-pixel-wide display and when it runs again. The graphics calls
  themselves are outside the model; string widths, which the graphics
  library measures, are parameters.
 */
module RenderPolicy {
  import opened CArith
  import opened TimeAdjust
  import opened ClockState

  datatype Option<T> = None | Some(value: T)

  /** Back-off while the display is busy and the redraw cadences, in ms. */
  const NotReadyDelay: nat := 50
  const FastCadence: nat := 330
  const SlowCadence: nat := 5000
  const SetCadence: nat := 2000

  /** Horizontal centre of the display; `64 - w / 2` centres a string of width `w`. */
  const Centre: int := 64

  /** Vertical positions of the drawn items. */
  const TemperatureY: int := 15
  const VoltageY: int := 100
  const TimeY: int := 50
  const UnderlineY: int := 85
  const UnderlineHeight: int := 2

  /**
    The widths the graphics library reports for the strings of one frame:
    temperature, voltage and time in Display mode, the four segments of
    `H : MM` in Set mode, and the elapsed time in Stopwatch mode.
   */
  datatype Widths = Widths(
    temperature: int, voltage: int, time: int,
    hours: int, colon: int, tens: int, units: int,
    elapsed: int)

  /** A string drawn at a position, its content left abstract. */
  datatype Placed = Placed(x: int, y: int)

  /** A filled rectangle from `(x0, y0)` to `(x1, y1)`. */
  datatype Rect = Rect(x0: int, y0: int, x1: int, y1: int)

  /** The clock text of Display mode: `H : MM`, or `H:MM:SS` when seconds are shown. */
  datatype ClockText = HourMinute(h: int, m: int) | HourMinuteSecond(h: int, m: int, s: int)

  /** One frame of the render task. */
  datatype Frame =
    | NotReady
    | ClockFrame(rotation: int, temperature: Option<Placed>, voltage: Option<Placed>,
                 text: ClockText, at: Placed)
    | SetFrame(rotation: int, hour: int, tens: int, units: int, at: Placed,
               underline: Option<Rect>)
    | StopwatchFrame(rotation: int, minutes: int, seconds: int, at: Placed)

  /** Left edge of a string of width `w` centred on the display. */
  function CentredLeft(w: int): (x: int)
    ensures w >= 0 ==> 2 * x + w == 2 * Centre || 2 * x + w == 2 * Centre + 1
  {
    Centre - CDiv(w, 2)
  }

  /** Rotation in Display mode follows the face: 270 for face 2, 90 for face 5, else 0. */
  function DisplayRotation(face: Face): (r: int)
    ensures r == 0 || r == 90 || r == 270
    ensures r == 270 <==> face == 2
    ensures r == 90 <==> face == 5
  {
    if face == 2 then 270 else if face == 5 then 90 else 0
  }

  /** The delay the render task plans for itself after a run. */
  function Cadence(ready: bool, mode: Mode, showSeconds: bool): (d: nat)
    ensures d == NotReadyDelay || d == FastCadence || d == SlowCadence || d == SetCadence
    ensures d == NotReadyDelay <==> !ready
    ensures d > 0
  {
    if !ready then NotReadyDelay
    else match mode
      case Display => if showSeconds then FastCadence else SlowCadence
      case Set => SetCadence
      case Stopwatch => FastCadence
  }

  /**
    Set-mode geometry: the left edge of `H : MM` and the horizontal extent of
    the three editable segments (hour, tens of minutes, units of minutes).
   */
  datatype SetLayout = SetLayout(left: int, hours: (int, int), tens: (int, int), units: (int, int))

  function LayoutOf(w: Widths): (g: SetLayout)
    ensures g.hours.0 == g.left && g.hours.1 - g.hours.0 == w.hours
    ensures g.tens.0 - g.hours.1 == w.colon && g.tens.1 - g.tens.0 == w.tens
    ensures g.units.0 == g.tens.1 && g.units.1 - g.units.0 == w.units
    ensures g.units.1 - g.left == w.hours + w.colon + w.tens + w.units
  {
    var total := w.hours + w.colon + w.tens + w.units;
    var left := Centre - CDiv(total, 2);
    SetLayout(left,
      (left, left + w.hours),
      (left + w.hours + w.colon, left + w.hours + w.colon + w.tens),
      (left + w.hours + w.colon + w.tens, left + w.hours + w.colon + w.tens + w.units))
  }

  /** The underline bar under the segment the cursor selects; none for any other cursor. */
  function Underline(g: SetLayout, cursor: int): (r: Option<Rect>)
    ensures r.Some? <==> 0 <= cursor <= 2
    ensures r.Some? ==> r.value.y0 == UnderlineY && r.value.y1 - r.value.y0 == UnderlineHeight
    ensures r.Some? ==> (r.value.x0, r.value.x1) == (if cursor == 0 then g.hours else if cursor == 1 then g.tens else g.units)
  {
    var span: Option<(int, int)> :=
      if cursor == 0 then Some(g.hours)
      else if cursor == 1 then Some(g.tens)
      else if cursor == 2 then Some(g.units)
      else None;
    match span
    case None => None
    case Some((x0, x1)) => Some(Rect(x0, UnderlineY, x1, UnderlineY + UnderlineHeight))
  }

  /**
    Seconds since the stopwatch anchor as the firmware computes them: the
    difference of the clock's timestamp and the 32-bit anchor, stored in a
    32-bit `int`.
   */
  function Elapsed(now: int, anchor: U32): (d: int)
    ensures -Two31 <= d < Two31
    ensures (d - (now - anchor)) % Two32 == 0
    ensures -Two31 <= now - anchor < Two31 ==> d == now - anchor
  {
    ToInt32(now - anchor)
  }

  /**
    The stopwatch text `M : SS`: C's `diff / 60` and `diff % 60`. Minutes
    and seconds recombine to the difference; for a non-negative difference
    the seconds lie in [0, 59], for a negative one C's `%` gives them in
    [-59, 0].
   */
  function Split(diff: int): (r: (int, int))
    ensures r.0 * 60 + r.1 == diff
    ensures diff >= 0 ==> 0 <= r.1 < 60 && r.0 >= 0
    ensures diff < 0 ==> -60 < r.1 <= 0 && r.0 <= 0
  {
    DivRemRecombine(diff, 60);
    (CDiv(diff, 60), CRem(diff, 60))
  }

  /**
    The frame a render produces from state `s`, given whether the display
    is ready, the clock's timestamp `now` and the measured widths.
   */
  function RenderFrame(s: State, ready: bool, now: int, w: Widths): (f: Frame)
    ensures f.NotReady? <==> !ready
    ensures ready ==> (f.ClockFrame? <==> s.mode == Display)
    ensures ready ==> (f.SetFrame? <==> s.mode == Set)
    ensures ready ==> (f.StopwatchFrame? <==> s.mode == Stopwatch)
    ensures f.ClockFrame? ==>
      (f.temperature.Some? <==> s.showTemperature) && (f.voltage.Some? <==> s.showVoltage) &&
      (f.text.HourMinuteSecond? <==> s.showSeconds)
    ensures f.SetFrame? ==> (f.underline.Some? <==> 0 <= s.cursor <= 2)
  {
    if !ready then NotReady
    else match s.mode
      case Display =>
        ClockFrame(
          DisplayRotation(s.face),
          if s.showTemperature then Some(Placed(CentredLeft(w.temperature), TemperatureY)) else None,
          if s.showVoltage then Some(Placed(CentredLeft(w.voltage), VoltageY)) else None,
          if s.showSeconds then HourMinuteSecond(s.rtc.hour, s.rtc.minute, s.rtc.second)
          else HourMinute(s.rtc.hour, s.rtc.minute),
          Placed(CentredLeft(w.time), TimeY))
      case Set =>
        var g := LayoutOf(w);
        SetFrame(0, s.rtc.hour, CDiv(s.rtc.minute, 10), CRem(s.rtc.minute, 10),
          Placed(g.left, TimeY), Underline(g, s.cursor))
      case Stopwatch =>
        var (m, sec) := Split(Elapsed(now, s.anchor));
        StopwatchFrame(180, m, sec, Placed(CentredLeft(w.elapsed), TimeY))
  }
}
