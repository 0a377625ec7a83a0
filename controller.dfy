/**
  The controller as the firmware runs it: the globals of the application
  become the fields of one object, and each callback becomes a method that
  updates them step by step. Each method is proved to realise the
  corresponding step function of `ClockState` or `RenderPolicy`.
 */
module Controller {
  import opened CArith
  import opened TimeAdjust
  import opened ClockState
  import opened RenderPolicy
  import ClockProperties

  class Clock {
    var mode: Mode
    var cursor: int
    var showSeconds: bool
    var showVoltage: bool
    var showTemperature: bool
    var face: Face
    var lastFace: Face
    var anchor: U32
    var rtc: DateTime
    var pending: nat

    /** The abstract value of the object. */
    function Snapshot(): State
      reads this
    {
      State(mode, cursor, showSeconds, showVoltage, showTemperature, face, lastFace, anchor, rtc, pending)
    }

    ghost predicate Valid()
      reads this
    {
      ClockState.Valid(Snapshot())
    }

    /** Start-up: the globals' initial values; the clock holds `rtc0`. */
    constructor (rtc0: DateTime)
      requires ValidTime(rtc0)
      ensures Valid()
      ensures Snapshot() == Initial(rtc0)
    {
      mode := Display;
      cursor := 0;
      showSeconds, showVoltage, showTemperature := false, false, false;
      face := 1;
      lastFace := 0;
      anchor := 0;
      rtc := rtc0;
      pending := PlanNow;
    }

    /** `rtc_change_time`: adjust one field of a copy of the clock and write it back. */
    method ChangeTime(change: Change, increment: int)
      modifies this`rtc, this`pending
      ensures Snapshot() == Adjust(old(Snapshot()), change, increment)
    {
      var t := rtc;
      match change {
        case Hours =>
          var hours := t.hour + increment;
          if hours > 23 {
            hours := CRem(hours, 24);
          } else if hours < 0 {
            hours := 24 + CRem(hours, 24);
          }
          t := t.(hour := hours);
        case Minutes =>
          var minutes := t.minute + increment;
          if minutes > 59 {
            minutes := CRem(minutes, 60);
          } else if minutes < 0 {
            minutes := 60 + CRem(minutes, 60);
          }
          t := t.(minute := minutes);
      }
      t := t.(year := 1);
      t := t.(second := 0);
      rtc := t;
      pending := PlanNow;
    }

    /** `lcd_event_handler`. */
    method HandleButton(e: Button)
      requires Valid()
      modifies this
      ensures Valid()
      ensures Snapshot() == ButtonStep(old(Snapshot()), e)
    {
      ghost var s0 := Snapshot();
      ClockProperties.ButtonStepPreservesValid(s0, e);
      pending := ButtonSettleDelay;

      if e == BothHold {
        showSeconds := !showSeconds;
      }

      if e == LeftHold {
        if mode == Display {
          mode := Set;
          cursor := 2;
          return;
        }
        if mode == Set {
          if cursor == 0 {
            mode := Display;
            return;
          }
          cursor := cursor - 1;
        }
      }

      if e == RightHold {
        if mode == Display {
          mode := Set;
          cursor := 0;
          return;
        }
        if mode == Set {
          if cursor == 2 {
            mode := Display;
            return;
          }
          cursor := cursor + 1;
        }
      }

      if e == LeftClick {
        if mode == Set {
          if cursor == 0 {
            ChangeTime(Hours, -1);
          } else if cursor == 1 {
            ChangeTime(Minutes, -10);
          } else if cursor == 2 {
            ChangeTime(Minutes, -1);
          }
        }
        if mode == Display {
          showTemperature := !showTemperature;
        }
      }

      if e == RightClick {
        if mode == Set {
          if cursor == 0 {
            ChangeTime(Hours, 1);
          } else if cursor == 1 {
            ChangeTime(Minutes, 10);
          } else if cursor == 2 {
            ChangeTime(Minutes, 1);
          }
        }
        if mode == Display {
          showVoltage := !showVoltage;
        }
      }
    }

    /** `lis2dh12_event_handler`, with the classifier's face and the clock's timestamp given. */
    method HandleAccel(ev: AccelEvent, now: int)
      requires Valid()
      modifies this
      ensures Valid()
      ensures Snapshot() == AccelStep(old(Snapshot()), ev, now)
    {
      ClockProperties.AccelStepPreservesValid(Snapshot(), ev, now);
      if ev.AccelUpdate? {
        if ev.readOk {
          face := ev.face;
          if lastFace != face {
            lastFace := face;
            if mode == Display && face == StopwatchFace {
              mode := Stopwatch;
              anchor := ToUint32(now);
            } else if mode == Stopwatch && face != StopwatchFace {
              mode := Display;
            }
            pending := PlanNow;
          }
        }
      }
    }

    /**
      `application_task`: decide the frame and plan the next run. Only the
      planned delay changes.
     */
    method RenderTask(ready: bool, now: int, w: Widths) returns (frame: Frame)
      modifies this`pending
      ensures frame == RenderFrame(old(Snapshot()), ready, now, w)
      ensures Snapshot() == old(Snapshot()).(pending := Cadence(ready, mode, showSeconds))
    {
      if !ready {
        pending := NotReadyDelay;
        return NotReady;
      }

      if mode == Display {
        var rotation := 0;
        if face == 2 {
          rotation := 270;
        } else if face == 5 {
          rotation := 90;
        }
        var temperature: Option<Placed> := None;
        if showTemperature {
          temperature := Some(Placed(Centre - CDiv(w.temperature, 2), TemperatureY));
        }
        var voltage: Option<Placed> := None;
        if showVoltage {
          voltage := Some(Placed(Centre - CDiv(w.voltage, 2), VoltageY));
        }
        var text: ClockText;
        if showSeconds {
          text := HourMinuteSecond(rtc.hour, rtc.minute, rtc.second);
        } else {
          text := HourMinute(rtc.hour, rtc.minute);
        }
        frame := ClockFrame(rotation, temperature, voltage, text, Placed(Centre - CDiv(w.time, 2), TimeY));
        if showSeconds {
          pending := FastCadence;
        } else {
          pending := SlowCadence;
        }
      } else if mode == Set {
        var widthTotal := w.hours + w.colon + w.tens + w.units;
        var offsetLeft := Centre - CDiv(widthTotal, 2);
        var hoursEnd := offsetLeft + w.hours;
        var tensStart := hoursEnd + w.colon;
        var tensEnd := tensStart + w.tens;
        var underline: Option<Rect> := None;
        if cursor == 0 {
          underline := Some(Rect(offsetLeft, UnderlineY, hoursEnd, UnderlineY + UnderlineHeight));
        } else if cursor == 1 {
          underline := Some(Rect(tensStart, UnderlineY, tensEnd, UnderlineY + UnderlineHeight));
        } else if cursor == 2 {
          underline := Some(Rect(tensEnd, UnderlineY, tensEnd + w.units, UnderlineY + UnderlineHeight));
        }
        frame := SetFrame(0, rtc.hour, CDiv(rtc.minute, 10), CRem(rtc.minute, 10),
          Placed(offsetLeft, TimeY), underline);
        pending := SetCadence;
      } else {
        var diff := ToInt32(now - anchor);
        frame := StopwatchFrame(180, CDiv(diff, 60), CRem(diff, 60), Placed(Centre - CDiv(w.elapsed, 2), TimeY));
        pending := FastCadence;
      }
    }
  }
}
