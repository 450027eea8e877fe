/**
 * The parts of .NET's `DateTime` and `TimeOnly` that the sync cycle relies on:
 * proleptic Gregorian calendar fields, hour and second arithmetic with
 * day, month and year rollover, and the range check that makes `AddHours`
 * and `AddSeconds` throw outside 0001-01-01 .. 9999-12-31.
 */
module Calendar {
  import opened Wrappers

  const TicksPerSecond: nat := 10_000_000
  const TicksPerDay: nat := 864_000_000_000

  /** `TimeOnly`: 100-nanosecond ticks since midnight. */
  type TimeOnly = t: nat | t < TicksPerDay

  /** A `DateTime` by its calendar fields; `fraction` is the 100 ns ticks within the second. */
  datatype DateTime = DateTime(year: nat, month: nat, day: nat,
                               hour: nat, minute: nat, second: nat, fraction: nat)
  {
    predicate Valid() {
      && 1 <= year <= 9999
      && 1 <= month <= 12
      && 1 <= day <= DaysInMonth(year, month)
      && hour < 24 && minute < 60 && second < 60
      && fraction < TicksPerSecond
    }
  }

  predicate IsLeapYear(y: nat) {
    y % 4 == 0 && (y % 100 != 0 || y % 400 == 0)
  }

  function DaysInYear(y: nat): nat {
    if IsLeapYear(y) then 366 else 365
  }

  function DaysInMonth(y: nat, m: nat): (n: nat)
    ensures 28 <= n <= 31
  {
    if m == 2 then (if IsLeapYear(y) then 29 else 28)
    else if m == 4 || m == 6 || m == 9 || m == 11 then 30
    else 31
  }

  /** Days from 0001-01-01 to the first day of year `y`. */
  function DaysBeforeYear(y: nat): nat {
    if y <= 1 then 0 else DaysBeforeYear(y - 1) + DaysInYear(y - 1)
  }

  /** Days from the first of January of `y` to the first day of month `m`. */
  function DaysBeforeMonth(y: nat, m: nat): nat {
    if m <= 1 then 0 else DaysBeforeMonth(y, m - 1) + DaysInMonth(y, m - 1)
  }

  /** Days since 0001-01-01 (day 0). */
  function DayNumber(dt: DateTime): int {
    DaysBeforeYear(dt.year) + DaysBeforeMonth(dt.year, dt.month) + dt.day - 1
  }

  /** Whole seconds since 0001-01-01 00:00:00. */
  function Seconds(dt: DateTime): int {
    DayNumber(dt) * 86400 + dt.hour * 3600 + dt.minute * 60 + dt.second
  }

  /** `DateTime.Ticks`: the quantity by which .NET orders and compares instants. */
  function Ticks(dt: DateTime): int {
    Seconds(dt) * TicksPerSecond + dt.fraction
  }

  /** `TimeOnly.FromDateTime`: the time of day, to the tick. */
  function TimeOfDay(dt: DateTime): (t: TimeOnly)
    requires dt.Valid()
    ensures t == Ticks(dt) - DayNumber(dt) * TicksPerDay
  {
    ((dt.hour * 60 + dt.minute) * 60 + dt.second) * TicksPerSecond + dt.fraction
  }

  /** `new DateTime(y, M, d, H, 0, 0)`: drops minutes, seconds and sub-second ticks. */
  function TruncateToHour(dt: DateTime): DateTime {
    dt.(minute := 0, second := 0, fraction := 0)
  }

  /** The same time of day one calendar day earlier; None before 0001-01-01. */
  function PreviousDay(dt: DateTime): Option<DateTime> {
    if dt.day > 1 then Some(dt.(day := dt.day - 1))
    else if dt.month > 1 then Some(dt.(month := dt.month - 1, day := DaysInMonth(dt.year, dt.month - 1)))
    else if dt.year > 1 then Some(dt.(year := dt.year - 1, month := 12, day := 31))
    else None
  }

  /** The same time of day one calendar day later (the year is not capped here). */
  function NextDay(dt: DateTime): DateTime {
    if dt.day < DaysInMonth(dt.year, dt.month) then dt.(day := dt.day + 1)
    else if dt.month < 12 then dt.(month := dt.month + 1, day := 1)
    else dt.(year := dt.year + 1, month := 1, day := 1)
  }

  /** `AddHours(1)`; None where .NET throws (past 9999-12-31 23:59:59). */
  function NextHour(dt: DateTime): Option<DateTime> {
    if dt.hour < 23 then Some(dt.(hour := dt.hour + 1))
    else
      var n := NextDay(dt.(hour := 0));
      if n.year > 9999 then None else Some(n)
  }

  /** `AddHours(-1)`; None where .NET throws (before 0001-01-01 00:00:00). */
  function PreviousHour(dt: DateTime): Option<DateTime> {
    if dt.hour > 0 then Some(dt.(hour := dt.hour - 1))
    else PreviousDay(dt.(hour := 23))
  }

  /** `AddSeconds(1)`. */
  function NextSecond(dt: DateTime): Option<DateTime> {
    if dt.second < 59 then Some(dt.(second := dt.second + 1))
    else if dt.minute < 59 then Some(dt.(minute := dt.minute + 1, second := 0))
    else NextHour(dt.(minute := 0, second := 0))
  }

  /** `AddSeconds(-1)`. */
  function PreviousSecond(dt: DateTime): Option<DateTime> {
    if dt.second > 0 then Some(dt.(second := dt.second - 1))
    else if dt.minute > 0 then Some(dt.(minute := dt.minute - 1, second := 59))
    else PreviousHour(dt.(minute := 59, second := 59))
  }

  /** `DateTime.AddHours(hours)` for whole hours, one hour at a time. */
  function AddHours(dt: DateTime, hours: int): Option<DateTime>
    decreases if hours < 0 then -hours else hours
  {
    if hours == 0 then Some(dt)
    else if hours > 0 then
      match NextHour(dt)
      case None => None
      case Some(n) => AddHours(n, hours - 1)
    else
      match PreviousHour(dt)
      case None => None
      case Some(p) => AddHours(p, hours + 1)
  }

  /** `DateTime.AddSeconds(seconds)` for whole seconds, one second at a time. */
  function AddSeconds(dt: DateTime, seconds: int): Option<DateTime>
    decreases if seconds < 0 then -seconds else seconds
  {
    if seconds == 0 then Some(dt)
    else if seconds > 0 then
      match NextSecond(dt)
      case None => None
      case Some(n) => AddSeconds(n, seconds - 1)
    else
      match PreviousSecond(dt)
      case None => None
      case Some(p) => AddSeconds(p, seconds + 1)
  }

  predicate IsFirstDay(dt: DateTime) {
    dt.year == 1 && dt.month == 1 && dt.day == 1
  }

  predicate IsLastDay(dt: DateTime) {
    dt.year == 9999 && dt.month == 12 && dt.day == 31
  }

  lemma DaysBeforeDecember(y: nat)
    ensures DaysBeforeMonth(y, 12) + 31 == DaysInYear(y)
  {
    assert DaysBeforeMonth(y, 2) == 31;
    assert DaysBeforeMonth(y, 3) == 31 + DaysInMonth(y, 2);
    assert DaysBeforeMonth(y, 4) == 62 + DaysInMonth(y, 2);
    assert DaysBeforeMonth(y, 5) == 92 + DaysInMonth(y, 2);
    assert DaysBeforeMonth(y, 6) == 123 + DaysInMonth(y, 2);
    assert DaysBeforeMonth(y, 7) == 153 + DaysInMonth(y, 2);
    assert DaysBeforeMonth(y, 8) == 184 + DaysInMonth(y, 2);
    assert DaysBeforeMonth(y, 9) == 215 + DaysInMonth(y, 2);
    assert DaysBeforeMonth(y, 10) == 245 + DaysInMonth(y, 2);
    assert DaysBeforeMonth(y, 11) == 276 + DaysInMonth(y, 2);
    assert DaysBeforeMonth(y, 12) == 306 + DaysInMonth(y, 2);
  }

  /** Stepping back one day is defined everywhere but on 0001-01-01, counts one day, and `NextDay` undoes it. */
  lemma PreviousDaySpec(dt: DateTime)
    requires dt.Valid()
    ensures PreviousDay(dt).Some? <==> !IsFirstDay(dt)
    ensures PreviousDay(dt).Some? ==>
      var p := PreviousDay(dt).value;
      && p.Valid()
      && DayNumber(p) == DayNumber(dt) - 1
      && p.hour == dt.hour && p.minute == dt.minute && p.second == dt.second && p.fraction == dt.fraction
      && NextDay(p) == dt
  {
    if dt.day == 1 && dt.month == 1 && dt.year > 1 {
      DaysBeforeDecember(dt.year - 1);
    }
  }

  /** Stepping forward one day counts one day and stays valid unless it leaves year 9999. */
  lemma NextDaySpec(dt: DateTime)
    requires dt.Valid()
    ensures var n := NextDay(dt);
      && DayNumber(n) == DayNumber(dt) + 1
      && (n.year > 9999 <==> IsLastDay(dt))
      && (n.year <= 9999 ==> n.Valid())
      && n.hour == dt.hour && n.minute == dt.minute && n.second == dt.second && n.fraction == dt.fraction
  {
    var n := NextDay(dt);
    if dt.day == DaysInMonth(dt.year, dt.month) && dt.month == 12 {
      DaysBeforeDecember(dt.year);
    }
  }

  /** `AddHours(-1)` throws only in the first hour of 0001-01-01, moves back 3600 seconds, and `AddHours(1)` undoes it. */
  lemma PreviousHourSpec(dt: DateTime)
    requires dt.Valid()
    ensures PreviousHour(dt).Some? <==> !(IsFirstDay(dt) && dt.hour == 0)
    ensures PreviousHour(dt).Some? ==>
      var p := PreviousHour(dt).value;
      && p.Valid()
      && Seconds(p) == Seconds(dt) - 3600
      && p.minute == dt.minute && p.second == dt.second && p.fraction == dt.fraction
      && NextHour(p) == Some(dt)
  {
    if dt.hour == 0 {
      var x := dt.(hour := 23);
      PreviousDaySpec(x);
      if PreviousDay(x).Some? {
        var p := PreviousDay(x).value;
        assert p.(hour := 0) == PreviousDay(dt).value by { PreviousDaySpec(dt); }
        PreviousDaySpec(dt);
      }
    }
  }

  /** `AddHours(1)` throws only in the last hour of 9999-12-31 and moves forward 3600 seconds. */
  lemma NextHourSpec(dt: DateTime)
    requires dt.Valid()
    ensures NextHour(dt).Some? <==> !(IsLastDay(dt) && dt.hour == 23)
    ensures NextHour(dt).Some? ==>
      var n := NextHour(dt).value;
      && n.Valid()
      && Seconds(n) == Seconds(dt) + 3600
      && n.minute == dt.minute && n.second == dt.second && n.fraction == dt.fraction
  {
    if dt.hour == 23 {
      NextDaySpec(dt.(hour := 0));
    }
  }

  /** `AddSeconds(-1)` throws only at 0001-01-01 00:00:00 and moves back one second. */
  lemma PreviousSecondSpec(dt: DateTime)
    requires dt.Valid()
    ensures PreviousSecond(dt).Some? <==> !(IsFirstDay(dt) && dt.hour == 0 && dt.minute == 0 && dt.second == 0)
    ensures PreviousSecond(dt).Some? ==>
      var p := PreviousSecond(dt).value;
      p.Valid() && Seconds(p) == Seconds(dt) - 1 && p.fraction == dt.fraction
  {
    if dt.second == 0 && dt.minute == 0 {
      PreviousHourSpec(dt.(minute := 59, second := 59));
    }
  }

  /** Truncating to the hour keeps the instant within the hour that starts at the result. */
  lemma TruncateToHourSpec(dt: DateTime)
    requires dt.Valid()
    ensures var t := TruncateToHour(dt);
      && t.Valid()
      && Seconds(t) <= Seconds(dt) < Seconds(t) + 3600
      && Ticks(t) <= Ticks(dt) < Ticks(t) + 3600 * TicksPerSecond
      && Seconds(t) % 3600 == 0
  {
  }
}
