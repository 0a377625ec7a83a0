/**
  The time-field adjustment of the clock (`rtc_change_time`): the hour or the
  minute of the real-time clock is moved by an increment and folded back
  into its range with C's truncating `%`. The seconds are cleared and the
  year is set to a non-zero marker, so that the clock's start-up code does
  not reset the adjusted time to its default after a reset.
 */
module TimeAdjust {
  import opened CArith

  /**
    The fields of the real-time clock the controller reads or writes
    (`struct tm` in the current firmware, `bc_rtc_t` in the older one).
    The calendar date is not part of this model.
   */
  datatype DateTime = DateTime(year: int, hour: int, minute: int, second: int)

  /** Which field an adjustment targets (`rtc_change_t`). */
  datatype Change = Hours | Minutes

  ghost predicate ValidTime(t: DateTime)
  {
    0 <= t.hour < 24 && 0 <= t.minute < 60 && 0 <= t.second < 60
  }

  /** The period of a field: 24 hours, 60 minutes. */
  function Period(change: Change): (p: int)
    ensures p > 0
  {
    match change
    case Hours => 24
    case Minutes => 60
  }

  /**
    One field step as the source writes it: add the increment; above the
    largest valid value take C's `%`; below zero take `period + (x % period)`.
   */
  function WrapField(value: int, increment: int, period: int): (r: int)
    requires period > 0
    ensures 0 <= r <= period
    ensures r == period ==> value + increment < 0
    ensures 0 <= value + increment < period ==> r == value + increment
  {
    var x := value + increment;
    if x > period - 1 then CRem(x, period)
    else if x < 0 then period + CRem(x, period)
    else x
  }

  /**
    The exact meaning of `WrapField` for every input: it is the Euclidean
    `(value + increment) mod period`, except that a negative multiple of the
    period yields `period` itself, one past the range.
   */
  lemma WrapFieldExact(value: int, increment: int, period: int)
    requires period > 0
    ensures var x := value + increment;
      WrapField(value, increment, period)
        == if x < 0 && x % period == 0 then period else x % period
  {
    var x := value + increment;
    if x < 0 {
      CRemNegative(x, period);
    } else if x <= period - 1 {
      EuclidUnique(x, period, 0, x);
    }
  }

  /**
    Whenever the sum stays above minus one period, the C branches agree with
    the Euclidean modulus and land in `[0, period)`.
   */
  lemma WrapFieldEuclidean(value: int, increment: int, period: int)
    requires period > 0
    requires value + increment > -period
    ensures WrapField(value, increment, period) == (value + increment) % period
    ensures 0 <= WrapField(value, increment, period) < period
  {
    var x := value + increment;
    WrapFieldExact(value, increment, period);
    if x < 0 && x % period == 0 {
      EuclidUnique(x, period, -1, period + x);
    }
  }

  /**
    The C form can only leave the range at a negative multiple of the
    period: one period below zero the result is the period itself.
   */
  lemma WrapFieldOutOfRange(period: int)
    requires period > 0
    ensures WrapField(0, -period, period) == period
  {
    WrapFieldExact(0, -period, period);
    EuclidUnique(-period, period, -1, 0);
  }

  /** The increments the button handler passes: ±1 hour, ±1 or ±10 minutes. */
  predicate UsedIncrement(change: Change, increment: int)
  {
    match change
    case Hours => increment == 1 || increment == -1
    case Minutes => increment == 1 || increment == -1 || increment == 10 || increment == -10
  }

  /**
    The time written back to the clock by `rtc_change_time`: only the
    selected field moves (a minute overflow never carries into the hour),
    the seconds become 0 and the year becomes 1.
   */
  function ChangeTimeOf(t: DateTime, change: Change, increment: int): (r: DateTime)
    ensures r.second == 0 && r.year == 1
    ensures change == Hours ==> r.minute == t.minute
    ensures change == Minutes ==> r.hour == t.hour
  {
    match change
    case Hours => t.(hour := WrapField(t.hour, increment, Period(Hours)), second := 0, year := 1)
    case Minutes => t.(minute := WrapField(t.minute, increment, Period(Minutes)), second := 0, year := 1)
  }

  /**
    Starting from a valid time and an increment the handler uses, the
    adjusted field is the Euclidean modulus of the sum and the whole time
    remains valid.
   */
  lemma ChangeTimeWraps(t: DateTime, change: Change, increment: int)
    requires ValidTime(t)
    requires UsedIncrement(change, increment)
    ensures var r := ChangeTimeOf(t, change, increment);
      ValidTime(r) &&
      (change == Hours ==> r.hour == (t.hour + increment) % 24) &&
      (change == Minutes ==> r.minute == (t.minute + increment) % 60)
  {
    match change
    case Hours => WrapFieldEuclidean(t.hour, increment, 24);
    case Minutes => WrapFieldEuclidean(t.minute, increment, 60);
  }

  /** 23:58 plus five minutes is 23:03: the hour does not carry. */
  lemma MinuteDoesNotCarry()
    ensures var r := ChangeTimeOf(DateTime(1, 23, 58, 41), Minutes, 5);
      r.hour == 23 && r.minute == 3 && r.second == 0
  {
  }
}
