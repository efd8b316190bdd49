/**
  Schedule evaluation: whether a watch configuration is due (`is_configuration_due`) and when it
  would run next (`calculate_next_execution_time`).

  Instants are whole minutes on the UTC clock; the calendar date of instant `t` is `t / 1440`
  and its minute of the day `t % 1440`.
*/
module Schedule {
  import opened Wrappers
  import Text

  const MinutesPerHour: int := 60
  const MinutesPerDay: int := 1440
  const DefaultInterval: int := 60
  const DefaultTime: string := "09:00"
  const FallbackClock: (int, int) := (9, 0)

  /** The `time` field of a daily schedule. */
  datatype TimeField =
    | Absent              // no `time` key: `schedule.get('time', '09:00')`
    | Given(text: string)
    | NotText             // a value without `.split`, which raises AttributeError

  /** The schedule descriptor, after dispatch on its `type` field. */
  datatype Schedule =
    | Hourly
    | Daily(time: TimeField)
    | Custom(interval: Option<int>)   // None: no `interval` key, which reads as 60 minutes
    | Unrecognized                    // any other `type`, or none

  function Date(t: int): int { t / MinutesPerDay }

  function MinuteOfDay(t: int): int { t % MinutesPerDay }

  /** `hour, minute = map(int, text.split(':'))`, None where that raises ValueError. */
  function ParseTime(text: string): Option<(int, int)>
  {
    var parts := Text.Split(text, ':');
    if |parts| != 2 then None
    else
      match (Text.ParseInt(parts[0]), Text.ParseInt(parts[1]))
      case (Some(h), Some(m)) => Some((h, m))
      case _ => None
  }

  /**
    The hour and minute a daily schedule names, 09:00 when its `time` cannot be read. A missing
    `time` reads the default text, which `DefaultTimeIsFallback` shows to parse as 09:00.
  */
  function ScheduledClock(time: TimeField): (int, int)
  {
    match time
    case Absent => FallbackClock
    case Given(text) => ParseTime(text).GetOr(FallbackClock)
    case NotText => FallbackClock
  }

  /** What `datetime.replace(hour=h, minute=m)` accepts; anything else raises ValueError. */
  predicate ValidClock(hm: (int, int)) {
    0 <= hm.0 < 24 && 0 <= hm.1 < 60
  }

  function ClockMinutes(hm: (int, int)): int { hm.0 * MinutesPerHour + hm.1 }

  /** `now.replace(hour=h, minute=m, second=0, microsecond=0)`. */
  function TodayAt(now: int, hm: (int, int)): int {
    Date(now) * MinutesPerDay + ClockMinutes(hm)
  }

  function Interval(interval: Option<int>): int { interval.GetOr(DefaultInterval) }

  /**
    `is_configuration_due`. An out-of-range daily clock makes `replace` raise; the function's
    outer handler turns that into "not due", so the function never fails.
  */
  function IsDue(schedule: Schedule, lastExecuted: Option<int>, now: int): (due: bool)
    ensures lastExecuted.None? ==> due
    ensures schedule.Unrecognized? && lastExecuted.Some? ==> !due
  {
    match lastExecuted
    case None => true
    case Some(last) =>
      match schedule
      case Hourly => now >= last + MinutesPerHour
      case Daily(time) =>
        var hm := ScheduledClock(time);
        ValidClock(hm) && Date(last) < Date(now) && now >= TodayAt(now, hm)
      case Custom(interval) => now >= last + Interval(interval)
      case Unrecognized => false
  }

  /**
    `calculate_next_execution_time`: the next whole hour, the next occurrence of the daily
    clock time, or `now` plus the interval; None for an unknown type or an unusable clock.
  */
  function NextExecution(schedule: Schedule, now: int): (next: Option<int>)
    ensures schedule.Hourly? ==>
      next.Some? && next.value % MinutesPerHour == 0 && now < next.value <= now + MinutesPerHour
    ensures schedule.Daily? && ValidClock(ScheduledClock(schedule.time)) ==>
      next.Some? && now < next.value <= now + MinutesPerDay &&
      MinuteOfDay(next.value) == ClockMinutes(ScheduledClock(schedule.time))
    ensures schedule.Daily? && !ValidClock(ScheduledClock(schedule.time)) ==> next.None?
    ensures schedule.Custom? ==> next == Some(now + Interval(schedule.interval))
    ensures schedule.Unrecognized? ==> next.None?
  {
    match schedule
    case Hourly => Some(NextHour(now))
    case Daily(time) =>
      var hm := ScheduledClock(time);
      if !ValidClock(hm) then None else Some(NextDailyTime(now, hm))
    case Custom(interval) => Some(now + Interval(interval))
    case Unrecognized => None
  }

  /** The next whole hour: `now` with the minutes cleared, plus one hour. */
  function NextHour(now: int): (next: int)
    ensures next % MinutesPerHour == 0 && now < next <= now + MinutesPerHour
  {
    NextHourBounds(now);
    (now / MinutesPerHour) * MinutesPerHour + MinutesPerHour
  }

  /** Today's occurrence of clock time `hm`, or tomorrow's when today's is not after `now`. */
  function NextDailyTime(now: int, hm: (int, int)): (next: int)
    requires ValidClock(hm)
    ensures now < next <= now + MinutesPerDay && MinuteOfDay(next) == ClockMinutes(hm)
  {
    var candidate := TodayAt(now, hm);
    NextDailyBounds(now, hm);
    if candidate <= now then candidate + MinutesPerDay else candidate
  }

  lemma NextHourBounds(now: int)
    ensures var next := (now / MinutesPerHour) * MinutesPerHour + MinutesPerHour;
            next % MinutesPerHour == 0 && now < next <= now + MinutesPerHour
  {
    var q := now / MinutesPerHour;
    assert now == q * MinutesPerHour + now % MinutesPerHour;
    assert (q + 1) * MinutesPerHour % MinutesPerHour == 0;
  }

  lemma NextDailyBounds(now: int, hm: (int, int))
    requires ValidClock(hm)
    ensures var candidate := TodayAt(now, hm);
            var next := if candidate <= now then candidate + MinutesPerDay else candidate;
            now < next <= now + MinutesPerDay && MinuteOfDay(next) == ClockMinutes(hm)
  {
    var d := Date(now);
    var c := ClockMinutes(hm);
    assert 0 <= c < MinutesPerDay;
    assert now == d * MinutesPerDay + MinuteOfDay(now);
    assert (d * MinutesPerDay + c) % MinutesPerDay == c;
    assert ((d + 1) * MinutesPerDay + c) % MinutesPerDay == c;
  }

  /** A zero-padded `HH:MM` string parses to its hour and minute. */
  lemma ParseTimeOfClock(h: nat, m: nat)
    ensures ParseTime(Text.ZeroPad(h) + ":" + Text.ZeroPad(m)) == Some((h, m))
  {
    var a, b := Text.ZeroPad(h), Text.ZeroPad(m);
    assert Text.AllDigits(a) && Text.AllDigits(b);
    assert ':' !in a && ':' !in b;
    assert a + ":" + b == a + [':'] + b;
    Text.SplitPair(a, b, ':');
    Text.ParseIntOfZeroPad(h);
    Text.ParseIntOfZeroPad(m);
  }

  /** The default `time` text parses to the fallback clock, so a missing `time` means 09:00. */
  lemma DefaultTimeIsFallback()
    ensures ParseTime(DefaultTime) == Some(FallbackClock)
    ensures ScheduledClock(Absent) == ScheduledClock(Given(DefaultTime))
  {
    assert DefaultTime == Text.ZeroPad(9) + ":" + Text.ZeroPad(0);
    ParseTimeOfClock(9, 0);
  }

  /** A configuration that never ran is due whatever its schedule. */
  lemma NeverExecutedIsDue(schedule: Schedule, now: int)
    ensures IsDue(schedule, None, now)
  {
  }

  /** Hourly: due exactly when an hour has passed since the last run. */
  lemma HourlyDue(last: int, now: int)
    ensures IsDue(Hourly, Some(last), now) <==> now >= last + 60
  {
  }

  /** Custom: due exactly when the interval (60 minutes if absent) has passed since the last run. */
  lemma CustomDue(interval: Option<int>, last: int, now: int)
    ensures IsDue(Custom(interval), Some(last), now) <==> now >= last + Interval(interval)
    ensures IsDue(Custom(None), Some(last), now) == IsDue(Hourly, Some(last), now)
  {
  }

  /**
    Daily with a usable clock time: due exactly when the last run was on an earlier date and
    today's clock time has been reached.
  */
  lemma DailyDue(time: TimeField, last: int, now: int)
    requires ValidClock(ScheduledClock(time))
    ensures IsDue(Daily(time), Some(last), now) <==>
            Date(last) < Date(now) && MinuteOfDay(now) >= ClockMinutes(ScheduledClock(time))
  {
  }

  /** Daily with a clock time that parses but is out of range (say `25:00`): never due once it has run. */
  lemma DailyOutOfRangeNeverDue(time: TimeField, last: int, now: int)
    requires !ValidClock(ScheduledClock(time))
    ensures !IsDue(Daily(time), Some(last), now)
  {
  }

  /** After a daily run, no instant of the same calendar day is due: at most one run per day. */
  lemma DailyAtMostOncePerDay(time: TimeField, ran: int, later: int)
    requires Date(later) == Date(ran)
    ensures !IsDue(Daily(time), Some(ran), later)
  {
  }

  /**
    Recording a run at `now` makes the configuration not due at `now` any more, except for a
    custom interval that is zero or negative.
  */
  lemma RunClearsDue(schedule: Schedule, now: int)
    ensures IsDue(schedule, Some(now), now) <==> schedule.Custom? && Interval(schedule.interval) <= 0
  {
  }

  /** Once due, a configuration stays due as time passes (for a daily one, within the same day). */
  lemma StaysDue(schedule: Schedule, last: int, now: int, later: int)
    requires IsDue(schedule, Some(last), now)
    requires now <= later
    requires schedule.Daily? ==> Date(later) == Date(now)
    ensures IsDue(schedule, Some(last), later)
  {
  }

  /** Two instants at the same minute of the day lie a whole number of days apart. */
  lemma SameMinuteOfDayIsDaysApart(a: int, b: int)
    requires MinuteOfDay(a) == MinuteOfDay(b) && b < a
    ensures a - b >= MinutesPerDay
  {
    assert a == Date(a) * MinutesPerDay + MinuteOfDay(a);
    assert b == Date(b) * MinutesPerDay + MinuteOfDay(b);
    assert a - b == (Date(a) - Date(b)) * MinutesPerDay;
  }

  /** The daily next execution is the first instant after `now` at the scheduled minute of day. */
  lemma DailyNextIsFirstOccurrence(time: TimeField, now: int, t: int)
    requires ValidClock(ScheduledClock(time))
    requires now < t < NextExecution(Daily(time), now).value
    ensures MinuteOfDay(t) != ClockMinutes(ScheduledClock(time))
  {
    var next := NextExecution(Daily(time), now).value;
    if MinuteOfDay(t) == MinuteOfDay(next) {
      SameMinuteOfDayIsDaysApart(next, t);
    }
  }

  /** Custom: the next execution is exactly the first instant at which a run made now is due again. */
  lemma CustomNextIsFirstDue(interval: Option<int>, now: int, t: int)
    ensures IsDue(Custom(interval), Some(now), NextExecution(Custom(interval), now).value)
    ensures t < NextExecution(Custom(interval), now).value ==> !IsDue(Custom(interval), Some(now), t)
  {
  }

  /**
    Daily, when the run happened at or after today's clock time: the next execution is exactly
    the first instant at which the configuration is due again.
  */
  lemma DailyNextIsFirstDueAfterSlot(time: TimeField, now: int, t: int)
    requires ValidClock(ScheduledClock(time))
    requires MinuteOfDay(now) >= ClockMinutes(ScheduledClock(time))
    ensures IsDue(Daily(time), Some(now), NextExecution(Daily(time), now).value)
    ensures now <= t < NextExecution(Daily(time), now).value ==> !IsDue(Daily(time), Some(now), t)
  {
    var hm := ScheduledClock(time);
    var next := NextExecution(Daily(time), now).value;
    assert next == (Date(now) + 1) * MinutesPerDay + ClockMinutes(hm);
    assert Date(next) == Date(now) + 1;
    if now <= t < next && Date(t) != Date(now) {
      assert Date(t) == Date(now) + 1;
      assert t == Date(t) * MinutesPerDay + MinuteOfDay(t);
      assert MinuteOfDay(t) < ClockMinutes(hm);
    }
  }

  /**
    Daily, when the run happened before today's clock time: the reported next execution is
    today's clock time, yet a run made now is not due again until the next day.
  */
  lemma DailyNextBeforeSlotIsNotDue(time: TimeField, now: int)
    requires ValidClock(ScheduledClock(time))
    requires MinuteOfDay(now) < ClockMinutes(ScheduledClock(time))
    ensures !IsDue(Daily(time), Some(now), NextExecution(Daily(time), now).value)
  {
    var next := NextExecution(Daily(time), now).value;
    assert next == TodayAt(now, ScheduledClock(time));
    assert Date(next) == Date(now);
  }

  /**
    Hourly, when the run happened off the hour: the reported next execution, the next whole
    hour, comes before the run is due again.
  */
  lemma HourlyNextOffHourIsNotDue(now: int)
    requires now % MinutesPerHour != 0
    ensures !IsDue(Hourly, Some(now), NextExecution(Hourly, now).value)
  {
  }
}
