/** The civil calendar behind std::localtime and std::mktime. Instants are ticks of the system clock since 1970. Days
    count from 1970-01-01, years from 1970 and months from January 1970, so that month `12 * y + m` is month `m` of
    year `y`. */
module Calendar {

  const SECOND := 1_000_000_000
  const DAY := 86400

  // Days of a year before its month `m`
  function DaysBefore(m: int, leapDay: int): int
    requires 0 <= m < 12
  {
    if m <= 1 then 31 * m
    else [59, 90, 120, 151, 181, 212, 243, 273, 304, 334][m - 2] + leapDay
  }

  /** A calendar by the days its months start with and its leap years. What is used of it is `Valid`. */
  datatype Calendar = Calendar(start: int -> int, leap: int -> bool) {
    function Length(n: int): int {
      start(n + 1) - start(n)
    }

    function LeapDay(y: int): int {
      if leap(y) then 1 else 0
    }

    function YearLength(y: int): int {
      start(12 * y + 12) - start(12 * y)
    }

    ghost predicate MonthInPlace(y: int, m: int)
      requires 0 <= m < 12
    {
      start(12 * y + m) == start(12 * y) + DaysBefore(m, LeapDay(y))
    }

    ghost predicate Valid() {
      && (forall n :: 28 <= Length(n) <= 31)
      && (forall y, m :: 0 <= m < 12 ==> MonthInPlace(y, m))
      && (forall y :: YearLength(y) == 365 + LeapDay(y))
    }

    lemma {:induction false} MonthsAscend(a: int, b: int)
      requires Valid() && a <= b
      ensures start(b) - start(a) >= 28 * (b - a)
      decreases b - a
    {
      if a == b {
      } else {
        MonthsAscend(a, b - 1);
        assert Length(b - 1) >= 28;
      }
    }

    // The month of a day, searched from month `n` on
    function MonthFrom(day: int, n: int): (m: int)
      requires Valid() && start(n) <= day
      ensures start(m) <= day < start(m + 1)
      decreases day - start(n)
    {
      assert Length(n) >= 28;
      if day < start(n + 1) then n else MonthFrom(day, n + 1)
    }

    function MonthOf(day: int): (m: int)
      requires Valid()
      ensures start(m) <= day < start(m + 1)
    {
      if day >= start(0) then MonthFrom(day, 0)
      else
        MonthsAscend(day - start(0), 0);
        MonthFrom(day, day - start(0))
    }

    lemma MonthBetween(day: int, a: int, b: int)
      requires Valid() && start(a) <= day < start(b)
      ensures a <= MonthOf(day) < b
    {
      var m := MonthOf(day);
      if m < a {
        MonthsAscend(m + 1, a);
      } else if m >= b {
        MonthsAscend(b, m);
      }
    }

    // Position of a day within its month, from 1, and within its year, from 0
    function DayOfMonth(day: int): int
      requires Valid()
    {
      day - start(MonthOf(day)) + 1
    }

    function DayOfYear(day: int): int
      requires Valid()
    {
      day - start(MonthOf(day) / 12 * 12)
    }

    lemma InMonth(day: int, n: int)
      requires Valid() && start(n) <= day < start(n + 1)
      ensures MonthOf(day) == n && DayOfMonth(day) == day - start(n) + 1
    {
      MonthBetween(day, n, n + 1);
    }

    lemma InYear(day: int, y: int)
      requires Valid() && start(12 * y) <= day < start(12 * y + 12)
      ensures MonthOf(day) / 12 == y && DayOfYear(day) == day - start(12 * y)
    {
      MonthBetween(day, 12 * y, 12 * y + 12);
    }

    // The same month a year later starts 365 or 366 days later
    lemma MonthNextYear(y: int, m: int)
      requires Valid() && 0 <= m < 12
      ensures start(12 * (y + 1) + m) - start(12 * y + m) == 365 + if m <= 1 then LeapDay(y) else LeapDay(y + 1)
    {
      assert MonthInPlace(y, m) && MonthInPlace(y + 1, m);
      assert YearLength(y) == 365 + LeapDay(y);
    }
  }

  // ---------- the Gregorian calendar ----------

  predicate Leap(y: int) {
    (1970 + y) % 4 == 0 && ((1970 + y) % 100 != 0 || (1970 + y) % 400 == 0)
  }

  function YearStart(y: int): int
    decreases if y < 0 then -y else y
  {
    if y == 0 then 0
    else if y > 0 then YearStart(y - 1) + 365 + if Leap(y - 1) then 1 else 0
    else YearStart(y + 1) - 365 - if Leap(y) then 1 else 0
  }

  function MonthStart(n: int): int {
    YearStart(n / 12) + DaysBefore(n % 12, if Leap(n / 12) then 1 else 0)
  }

  const GREGORIAN: Calendar := Calendar(n => MonthStart(n), y => Leap(y))

  lemma NextYear(y: int)
    ensures YearStart(y + 1) == YearStart(y) + 365 + if Leap(y) then 1 else 0
  {
  }

  lemma NextMonth(n: int)
    ensures 28 <= MonthStart(n + 1) - MonthStart(n) <= 31
  {
    if n % 12 == 11 {
      NextYear(n / 12);
      assert (n + 1) / 12 == n / 12 + 1;
    } else {
      assert (n + 1) / 12 == n / 12 && (n + 1) % 12 == n % 12 + 1;
    }
  }

  lemma MonthOfYear(y: int, m: int)
    requires 0 <= m < 12
    ensures MonthStart(12 * y + m) == YearStart(y) + DaysBefore(m, if Leap(y) then 1 else 0)
  {
    assert (12 * y + m) / 12 == y && (12 * y + m) % 12 == m;
  }

  lemma GregorianMonth(y: int, m: int)
    requires 0 <= m < 12
    ensures GREGORIAN.MonthInPlace(y, m)
  {
    MonthOfYear(y, m);
    MonthOfYear(y, 0);
  }

  lemma GregorianYear(y: int)
    ensures GREGORIAN.YearLength(y) == 365 + GREGORIAN.LeapDay(y)
  {
    MonthOfYear(y, 0);
    MonthOfYear(y + 1, 0);
    NextYear(y);
  }

  lemma GregorianIsValid()
    ensures GREGORIAN.Valid()
  {
    forall n
      ensures 28 <= GREGORIAN.Length(n) <= 31
    {
      NextMonth(n);
    }
    forall y, m | 0 <= m < 12
      ensures GREGORIAN.MonthInPlace(y, m)
    {
      GregorianMonth(y, m);
    }
    forall y
      ensures GREGORIAN.YearLength(y) == 365 + GREGORIAN.LeapDay(y)
    {
      GregorianYear(y);
    }
  }

  // Leap years up to the end of year `y` of the common era
  function LeapYears(y: int): int {
    y / 4 - y / 100 + y / 400
  }

  lemma OneYearOn(y: int)
    ensures LeapYears(1970 + y) == LeapYears(1969 + y) + if Leap(y) then 1 else 0
  {
    var x := 1969 + y;
    assert (x + 1) / 4 == x / 4 + if (x + 1) % 4 == 0 then 1 else 0;
    assert (x + 1) / 100 == x / 100 + if (x + 1) % 100 == 0 then 1 else 0;
    assert (x + 1) / 400 == x / 400 + if (x + 1) % 400 == 0 then 1 else 0;
  }

  /** The first day of a year: 365 days for each year since 1970, and one for each leap year, of which there are as many
      as multiples of 4, without those of 100, with those of 400. */
  lemma {:induction false} YearStartIs(y: int)
    ensures YearStart(y) == 365 * y + LeapYears(1969 + y) - LeapYears(1969)
    decreases if y < 0 then -y else y
  {
    if y > 0 {
      YearStartIs(y - 1);
      OneYearOn(y - 1);
    } else if y < 0 {
      YearStartIs(y + 1);
      OneYearOn(y);
    }
  }

  // The length of a month, from January on
  ghost predicate MonthHas(m: int, days: int, leapDay: int) {
    && (m in {0, 2, 4, 6, 7, 9, 11} ==> days == 31)
    && (m in {3, 5, 8, 10} ==> days == 30)
    && (m == 1 ==> days == 28 + leapDay)
  }

  lemma DaysBetween(m: int, leapDay: int)
    requires 0 <= m < 12
    ensures var next := if m == 11 then 365 + leapDay else DaysBefore(m + 1, leapDay);
      MonthHas(m, next - DaysBefore(m, leapDay), leapDay)
  {
  }

  // The month `n` after month `m` of a year starts so many days after the year
  lemma FollowingMonth(y: int, m: int, n: int, leapDay: int)
    requires 0 <= m < 12 && n == 12 * y + m + 1 && leapDay == if Leap(y) then 1 else 0
    ensures MonthStart(n) == YearStart(y) + if m == 11 then 365 + leapDay else DaysBefore(m + 1, leapDay)
  {
    if m == 11 {
      assert n == 12 * (y + 1) + 0;
      MonthOfYear(y + 1, 0);
      NextYear(y);
    } else {
      MonthOfYear(y, m + 1);
    }
  }

  /** The months of every year have the lengths they have in the Gregorian calendar. */
  lemma MonthLengths(y: int, m: int)
    requires 0 <= m < 12
    ensures MonthHas(m, GREGORIAN.Length(12 * y + m), if GREGORIAN.leap(y) then 1 else 0)
  {
    var leapDay := if Leap(y) then 1 else 0;
    MonthOfYear(y, m);
    FollowingMonth(y, m, 12 * y + m + 1, leapDay);
    DaysBetween(m, leapDay);
  }

  // ---------- the local time zone ----------

  /** A local time zone by the day of an instant and the start of a day. `Valid` says that all days have 24 hours. */
  datatype Zone = Zone(day: int -> int, midnight: int -> int) {
    function DayLength(d: int): int {
      midnight(d + 1) - midnight(d)
    }

    ghost predicate Valid() {
      && (forall t :: midnight(day(t)) <= t < midnight(day(t) + 1))
      && (forall d :: DayLength(d) == DAY * SECOND)
    }

    // The instant at which day `d` has `s` seconds
    function At(d: int, s: int): int {
      midnight(d) + s * SECOND
    }

    lemma {:induction false} MidnightsAscend(a: int, b: int)
      requires Valid() && a <= b
      ensures midnight(b) - midnight(a) == (b - a) * (DAY * SECOND)
      decreases b - a
    {
      if a == b {
      } else {
        MidnightsAscend(a, b - 1);
        assert DayLength(b - 1) == DAY * SECOND;
      }
    }

    lemma DaysCompare(a: int, b: int, s: int)
      requires Valid()
      ensures a <= b <==> At(a, s) <= At(b, s)
      ensures a < b <==> midnight(a) < midnight(b)
    {
      if a <= b {
        MidnightsAscend(a, b);
      } else {
        MidnightsAscend(b, a);
      }
    }

    lemma DayIs(t: int, d: int)
      requires Valid() && midnight(d) <= t < midnight(d + 1)
      ensures day(t) == d
    {
      DaysCompare(day(t), d + 1, 0);
      DaysCompare(d, day(t) + 1, 0);
      assert midnight(day(t)) <= t < midnight(day(t) + 1);
    }

    lemma DayOfAt(d: int, s: int)
      requires Valid() && 0 <= s < DAY
      ensures day(At(d, s)) == d
    {
      assert DayLength(d) == DAY * SECOND;
      DayIs(At(d, s), d);
    }

    // The first day that has `s` seconds not before `now`
    function FirstDay(now: int, s: int): int {
      if now <= At(day(now), s) then day(now) else day(now) + 1
    }

    lemma FirstDayIs(now: int, s: int, d: int)
      requires Valid() && 0 <= s < DAY
      ensures now <= At(d, s) <==> FirstDay(now, s) <= d
    {
      var today := day(now);
      assert midnight(today) <= now < midnight(today + 1) && DayLength(today - 1) == DAY * SECOND;
      DaysCompare(d, today - 1, s);
      DaysCompare(today, d, s);
      DaysCompare(today + 1, d, s);
    }

    // Strictly after `now` midnight comes with the next day
    lemma FirstDayAfter(now: int)
      requires Valid()
      ensures FirstDay(now + 1, 0) == day(now) + 1
    {
      FirstDayIs(now + 1, 0, day(now));
      FirstDayIs(now + 1, 0, day(now) + 1);
      assert midnight(day(now)) <= now < midnight(day(now) + 1);
    }

    /** `next` is the least instant not before `now` at which a day for which `holds` has `s` seconds. */
    ghost predicate IsNext(next: int, now: int, s: int, holds: int -> bool) {
      && next == At(day(next), s) && holds(day(next)) && now <= next
      && forall d :: holds(d) && now <= At(d, s) ==> next <= At(d, s)
    }

    // Instants are compared by their days
    lemma NextIfFirst(d: int, now: int, s: int, holds: int -> bool, ok: bool)
      requires Valid() && 0 <= s < DAY && (IsFirst(d, FirstDay(now, s), holds) <==> ok)
      ensures IsNext(At(d, s), now, s, holds) <==> ok
    {
      DayOfAt(d, s);
      FirstDayIs(now, s, d);
      forall k
        ensures now <= At(k, s) <==> FirstDay(now, s) <= k
        ensures At(d, s) <= At(k, s) <==> d <= k
      {
        FirstDayIs(now, s, k);
        DaysCompare(d, k, s);
      }
    }
  }

  ghost predicate IsFirst(d: int, first: int, holds: int -> bool) {
    holds(d) && first <= d && forall k :: first <= k < d ==> !holds(k)
  }

  // Local time is UTC plus a fixed number of seconds
  function FixedZone(offset: int): Zone {
    Zone(t => (t / SECOND + offset) / DAY, d => (d * DAY - offset) * SECOND)
  }

  lemma FixedZoneIsValid(offset: int)
    ensures FixedZone(offset).Valid()
  {
    var z := FixedZone(offset);
    forall t
      ensures z.midnight(z.day(t)) <= t < z.midnight(z.day(t) + 1)
    {
      DayContains(t, offset);
    }
  }

  lemma DayContains(t: int, offset: int)
    ensures var d := (t / SECOND + offset) / DAY;
      (d * DAY - offset) * SECOND <= t < ((d + 1) * DAY - offset) * SECOND
  {
  }

  // ---------- std::tm ----------

  /** The fields of std::tm that are used; `year` counts from 1900. */
  datatype Tm = Tm(year: int, mon: int, mday: int, hour: int, min: int, sec: int) {
    function Month(): int {
      12 * (year - 70) + mon
    }

    // The day the date stands for, with fields out of their range carried over
    function Day(cal: Calendar): int {
      cal.start(Month()) + mday - 1
    }

    // tm_wday: day 0 was a Thursday
    function Wday(cal: Calendar): int {
      (Day(cal) + 4) % 7
    }

    // The date is the one of day `d`, its fields in range
    ghost predicate IsDate(cal: Calendar, d: int) {
      Day(cal) == d && 0 <= mon < 12 && 1 <= mday <= cal.Length(Month())
    }
  }

  // The date of a day
  function DateOf(cal: Calendar, d: int): (tm: Tm)
    requires cal.Valid()
    ensures tm.IsDate(cal, d)
  {
    var n := cal.MonthOf(d);
    assert 12 * (n / 12 + 70 - 70) + n % 12 == n;
    Tm(n / 12 + 70, n % 12, cal.DayOfMonth(d), 0, 0, 0)
  }

  // std::localtime; hour, minute and second are always overwritten before they are used
  method LocalTime(cal: Calendar, zone: Zone, t: int) returns (tm: Tm)
    requires cal.Valid()
    ensures tm.IsDate(cal, zone.day(t))
  {
    tm := DateOf(cal, zone.day(t));
  }

  /** std::mktime, which accepts fields out of their range and carries them over in its argument. */
  method MkTime(cal: Calendar, zone: Zone, tm: Tm) returns (t: int, date: Tm)
    requires cal.Valid()
    ensures t == zone.At(tm.Day(cal), tm.hour * 3600 + tm.min * 60 + tm.sec)
    ensures tm.hour == tm.min == tm.sec == 0 ==> date.IsDate(cal, tm.Day(cal)) && date.hour == date.min == date.sec == 0
  {
    var seconds := tm.hour * 3600 + tm.min * 60 + tm.sec;
    t := zone.At(tm.Day(cal), seconds);
    date := DateOf(cal, tm.Day(cal) + seconds / DAY);
    date := date.(hour := seconds % DAY / 3600, min := seconds % 3600 / 60, sec := seconds % 60);
  }
}
