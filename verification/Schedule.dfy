/** When a time condition is looked at next: GetNextExecutionTime (backend/api/Rule.cpp) and NextExecutionTime
    (backend/events/RuleEventHandler.cpp). */
module Schedule {
  import opened Calendar
  import opened Conditions

  // C++ division and remainder
  function Quot(a: int, b: int): int
    requires b > 0
  {
    if a >= 0 then a / b else -((-a) / b)
  }

  function Rem(a: int, b: int): int
    requires b > 0
  {
    a - b * Quot(a, b)
  }

  // ---------- the days that are waited for ----------

  function AnyDay(): int -> bool {
    (d: int) => true
  }

  function WeekdayIs(w: int): int -> bool {
    (d: int) => (d + 4) % 7 == w
  }

  function DayOfMonthIs(cal: Calendar, n: int): int -> bool
    requires cal.Valid()
  {
    (d: int) => cal.DayOfMonth(d) == n
  }

  function DayOfYearIs(cal: Calendar, n: int): int -> bool
    requires cal.Valid()
  {
    (d: int) => cal.DayOfYear(d) == n
  }

  // The first day of month `m` of some year
  function StartsMonth(cal: Calendar, m: int): int -> bool
    requires cal.Valid()
  {
    (d: int) => cal.MonthOf(d) % 12 == m && cal.DayOfMonth(d) == 1
  }

  // The first day of year `y`, counted from 1900
  function StartsYear(cal: Calendar, y: int): int -> bool {
    (d: int) => d == cal.start(12 * (y - 70))
  }

  lemma NextIfFirst(zone: Zone, d: int, now: int, holds: int -> bool, first: int, ok: bool)
    requires zone.Valid() && first == zone.FirstDay(now, 0) && (IsFirst(d, first, holds) <==> ok)
    ensures zone.IsNext(zone.At(d, 0), now, 0, holds) <==> ok
  {
    zone.NextIfFirst(d, now, 0, holds, ok);
  }

  lemma FirstOfTomorrow(zone: Zone, d: int, now: int, holds: int -> bool)
    requires zone.Valid() && IsFirst(d, zone.day(now) + 1, holds)
    ensures zone.IsNext(zone.At(d, 0), now + 1, 0, holds)
  {
    zone.FirstDayAfter(now);
    zone.NextIfFirst(d, now + 1, 0, holds, true);
  }

  // ---------- times of day ----------

  lemma DayLater(zone: Zone, d: int, s: int)
    requires zone.Valid()
    ensures zone.At(d, s) + DAY * SECOND == zone.At(d + 1, s)
  {
    assert zone.DayLength(d) == DAY * SECOND;
  }

  lemma AnyDayNext(zone: Zone, now: int, s: int)
    requires zone.Valid() && 0 <= s < DAY
    ensures zone.IsNext(zone.At(zone.FirstDay(now, s), s), now, s, AnyDay())
    ensures zone.At(zone.FirstDay(now, s), s) < now + DAY * SECOND
  {
    DayLater(zone, zone.day(now), s);
    assert zone.midnight(zone.day(now)) <= now;
    zone.NextIfFirst(zone.FirstDay(now, s), now, s, AnyDay(), true);
  }

  lemma MidnightNext(zone: Zone, now: int)
    requires zone.Valid()
    ensures zone.IsNext(zone.At(zone.day(now) + 1, 0), now + 1, 0, AnyDay())
    ensures zone.At(zone.day(now) + 1, 0) <= now + DAY * SECOND
  {
    zone.FirstDayAfter(now);
    AnyDayNext(zone, now + 1, 0);
  }

  // Hour, minute and second set in today's date, then mktime, then 24 hours later if that is over
  method TodayOrTomorrow(cal: Calendar, zone: Zone, hour: int, min: int, sec: int, now: int) returns (next: int)
    requires cal.Valid() && zone.Valid()
    ensures var s := hour * 3600 + min * 60 + sec; next == zone.At(zone.FirstDay(now, s), s)
  {
    var tm := LocalTime(cal, zone, now);
    next, tm := MkTime(cal, zone, tm.(hour := hour, min := min, sec := sec));
    DayLater(zone, zone.day(now), hour * 3600 + min * 60 + sec);
    if next < now {
      next := next + DAY * SECOND;
    }
  }

  // Midnight today, 24 hours later
  method Tomorrow(cal: Calendar, zone: Zone, now: int) returns (next: int)
    requires cal.Valid() && zone.Valid()
    ensures next == zone.At(zone.day(now) + 1, 0)
  {
    var tm := LocalTime(cal, zone, now);
    next, tm := MkTime(cal, zone, tm.(hour := 0, min := 0, sec := 0));
    next := next + DAY * SECOND;
    DayLater(zone, zone.day(now), 0);
  }

  /** Case hourMinSec. Less waits for midnight, any other operator for the time of day itself. */
  method NextTimeOfDay(cal: Calendar, zone: Zone, time1: Int64, op: TimeOp, now: int) returns (next: int)
    requires cal.Valid() && zone.Valid()
    ensures op != TimeLess && 0 <= time1 < DAY ==>
      zone.IsNext(next, now, time1, AnyDay()) && next < now + DAY * SECOND
    ensures op == TimeLess ==> zone.IsNext(next, now + 1, 0, AnyDay()) && next <= now + DAY * SECOND
  {
    if op != TimeLess {
      next := TodayOrTomorrow(cal, zone, Quot(time1, 3600), Quot(Rem(time1, 3600), 60), Rem(time1, 60), now);
      if 0 <= time1 < DAY {
        SecondsOfDay(time1);
        AnyDayNext(zone, now, time1);
      }
    } else {
      next := Tomorrow(cal, zone, now);
      MidnightNext(zone, now);
    }
  }

  lemma SecondsOfDay(s: nat)
    ensures Quot(s, 3600) * 3600 + Quot(Rem(s, 3600), 60) * 60 + Rem(s, 60) == s
  {
    assert Rem(s, 3600) == s % 3600 && Rem(s, 60) == s % 60;
    assert s % 3600 % 60 == s % 60;
  }

  /** Case hour. */
  method NextHour(cal: Calendar, zone: Zone, time1: Int64, op: TimeOp, now: int) returns (next: int)
    requires cal.Valid() && zone.Valid()
    ensures op != TimeLess && 0 <= time1 < 24 ==>
      zone.IsNext(next, now, time1 * 3600, AnyDay()) && next < now + DAY * SECOND
    ensures op == TimeLess ==> zone.IsNext(next, now + 1, 0, AnyDay()) && next <= now + DAY * SECOND
  {
    if op != TimeLess {
      next := TodayOrTomorrow(cal, zone, time1, 0, 0, now);
      if 0 <= time1 < 24 {
        AnyDayNext(zone, now, time1 * 3600);
      }
    } else {
      next := Tomorrow(cal, zone, now);
      MidnightNext(zone, now);
    }
  }

  // ---------- weekdays ----------

  // Weekday `w` in the week of today, or in the next one if that is before the first day to come
  function WeekdayAhead(today: int, first: int, w: int): int {
    var inWeek := today - (today + 4) % 7 + w;
    if inWeek < first then inWeek + 7 else inWeek
  }

  lemma WeekdayFirst(today: int, first: int, w: int)
    requires 0 <= w < 7 && today <= first <= today + 1
    ensures IsFirst(WeekdayAhead(today, first, w), first, WeekdayIs(w))
    ensures WeekdayAhead(today, today + 1, 0) == today - (today + 4) % 7 + 7
  {
  }

  lemma WeekdayNear(zone: Zone, now: int, w: int)
    requires zone.Valid() && 0 <= w < 7
    ensures zone.At(WeekdayAhead(zone.day(now), zone.FirstDay(now, 0), w), 0) < now + 7 * DAY * SECOND
  {
    var today, day := zone.day(now), WeekdayAhead(zone.day(now), zone.FirstDay(now, 0), w);
    assert zone.midnight(today) <= now;
    if day <= today + 6 {
      zone.MidnightsAscend(today, today + 6);
      zone.DaysCompare(day, today + 6, 0);
    } else {
      zone.FirstDayIs(now, 0, day - 7);
      zone.MidnightsAscend(day - 7, day);
    }
  }

  lemma WeekdayNext(zone: Zone, now: int, w: int)
    requires zone.Valid() && 0 <= w < 7
    ensures zone.IsNext(zone.At(WeekdayAhead(zone.day(now), zone.FirstDay(now, 0), w), 0), now, 0, WeekdayIs(w))
    ensures zone.At(WeekdayAhead(zone.day(now), zone.FirstDay(now, 0), w), 0) < now + 7 * DAY * SECOND
  {
    WeekdayNear(zone, now, w);
    WeekdayFirst(zone.day(now), zone.FirstDay(now, 0), w);
    zone.NextIfFirst(WeekdayAhead(zone.day(now), zone.FirstDay(now, 0), w), now, 0, WeekdayIs(w), true);
  }

  lemma SundayNext(zone: Zone, now: int)
    requires zone.Valid()
    ensures zone.IsNext(zone.At(zone.day(now) - (zone.day(now) + 4) % 7 + 7, 0), now + 1, 0, WeekdayIs(0))
    ensures zone.At(zone.day(now) - (zone.day(now) + 4) % 7 + 7, 0) <= now + 7 * DAY * SECOND
  {
    WeekLater(zone, zone.day(now));
    zone.DaysCompare(zone.day(now) - (zone.day(now) + 4) % 7 + 7, zone.day(now) + 7, 0);
    assert zone.midnight(zone.day(now)) <= now;
    var today := zone.day(now);
    WeekdayFirst(today, today + 1, 0);
    zone.FirstDayAfter(now);
    zone.NextIfFirst(WeekdayAhead(today, today + 1, 0), now + 1, 0, WeekdayIs(0), true);
  }

  lemma WeekLater(zone: Zone, d: int)
    requires zone.Valid()
    ensures zone.At(d, 0) + 7 * DAY * SECOND == zone.At(d + 7, 0)
  {
    zone.MidnightsAscend(d, d + 7);
  }

  // The date moved within its week, and 7 days later if that is over
  method WithinWeek(cal: Calendar, zone: Zone, w: int, now: int) returns (next: int)
    requires cal.Valid() && zone.Valid()
    ensures next == zone.At(WeekdayAhead(zone.day(now), zone.FirstDay(now, 0), w), 0)
  {
    var tm := LocalTime(cal, zone, now);
    tm := tm.(mday := tm.mday - (tm.Wday(cal) - w), hour := 0, min := 0, sec := 0);
    WeekLater(zone, tm.Day(cal));
    zone.FirstDayIs(now, 0, tm.Day(cal));
    next, tm := MkTime(cal, zone, tm);
    if next < now {
      next := next + 7 * DAY * SECOND;
    }
  }

  // The start of this week, 7 days later
  method NextWeek(cal: Calendar, zone: Zone, now: int) returns (next: int)
    requires cal.Valid() && zone.Valid()
    ensures next == zone.At(zone.day(now) - (zone.day(now) + 4) % 7 + 7, 0)
  {
    var tm := LocalTime(cal, zone, now);
    tm := tm.(mday := tm.mday - tm.Wday(cal), hour := 0, min := 0, sec := 0);
    WeekLater(zone, tm.Day(cal));
    next, tm := MkTime(cal, zone, tm);
    next := next + 7 * DAY * SECOND;
  }

  /** Case dayWeek: weekday 0 is Sunday. Less waits for the next Sunday. */
  method NextWeekday(cal: Calendar, zone: Zone, time1: Int64, op: TimeOp, now: int) returns (next: int)
    requires cal.Valid() && zone.Valid()
    ensures op != TimeLess && 0 <= time1 < 7 ==>
      zone.IsNext(next, now, 0, WeekdayIs(time1)) && next < now + 7 * DAY * SECOND
    ensures op == TimeLess ==> zone.IsNext(next, now + 1, 0, WeekdayIs(0)) && next <= now + 7 * DAY * SECOND
  {
    if op != TimeLess {
      next := WithinWeek(cal, zone, time1, now);
      if 0 <= time1 < 7 {
        WeekdayNext(zone, now, time1);
      }
    } else {
      next := NextWeek(cal, zone, now);
      SundayNext(zone, now);
    }
  }

  // ---------- days of a month ----------

  // Day `n` of month `m`, carried over if the month is too short
  lemma DayOfMonthAt(cal: Calendar, m: int, n: int)
    requires cal.Valid() && 1 <= n <= 31
    ensures cal.DayOfMonth(cal.start(m) + n - 1) == if n <= cal.Length(m) then n else n - cal.Length(m)
  {
    assert cal.Length(m) >= 28 && cal.Length(m + 1) >= 28;
    if n <= cal.Length(m) {
      cal.InMonth(cal.start(m) + n - 1, m);
    } else {
      cal.InMonth(cal.start(m) + n - 1, m + 1);
    }
  }

  // In a month only day `n` has number `n`
  lemma OnlyDay(cal: Calendar, m: int, n: int, d: int)
    requires cal.Valid() && cal.start(m) <= d < cal.start(m + 1)
    ensures cal.DayOfMonth(d) == n <==> d == cal.start(m) + n - 1
  {
    cal.InMonth(d, m);
  }

  // The month that is looked at: the current one, or the next one if the day is before the first one to come
  function MonthLookedAt(cal: Calendar, today: int, first: int, n: int): int
    requires cal.Valid()
  {
    var m := cal.MonthOf(today);
    if cal.start(m) + n - 1 < first then m + 1 else m
  }

  lemma DayOfMonthFirst(cal: Calendar, today: int, first: int, n: int)
    requires cal.Valid() && 1 <= n <= 31 && today <= first <= today + 1
    ensures
      var m := MonthLookedAt(cal, today, first, n);
      IsFirst(cal.start(m) + n - 1, first, DayOfMonthIs(cal, n)) <==> n <= cal.Length(m)
  {
    var current := cal.MonthOf(today);
    var m := MonthLookedAt(cal, today, first, n);
    var day := cal.start(m) + n - 1;
    DayOfMonthAt(cal, m, n);
    assert cal.Length(current) >= 28 && cal.Length(current + 1) >= 28;
    if n <= cal.Length(m) {
      forall k | first <= k < day
        ensures cal.DayOfMonth(k) != n
      {
        if k < cal.start(current + 1) {
          OnlyDay(cal, current, n, k);
        } else {
          OnlyDay(cal, current + 1, n, k);
        }
      }
    }
  }

  lemma DayOfMonthNext(cal: Calendar, zone: Zone, now: int, n: int)
    requires cal.Valid() && zone.Valid() && 1 <= n <= 31
    ensures
      var m := MonthLookedAt(cal, zone.day(now), zone.FirstDay(now, 0), n);
      zone.IsNext(zone.At(cal.start(m) + n - 1, 0), now, 0, DayOfMonthIs(cal, n)) <==> n <= cal.Length(m)
  {
    var today, first := zone.day(now), zone.FirstDay(now, 0);
    var m := MonthLookedAt(cal, today, first, n);
    DayOfMonthFirst(cal, today, first, n);
    NextIfFirst(zone, cal.start(m) + n - 1, now, DayOfMonthIs(cal, n), first, n <= cal.Length(m));
  }

  lemma MonthFirst(cal: Calendar, today: int)
    requires cal.Valid()
    ensures IsFirst(cal.start(cal.MonthOf(today) + 1), today + 1, DayOfMonthIs(cal, 1))
  {
    var m := cal.MonthOf(today);
    DayOfMonthAt(cal, m + 1, 1);
    forall k | today + 1 <= k < cal.start(m + 1)
      ensures cal.DayOfMonth(k) != 1
    {
      OnlyDay(cal, m, 1, k);
    }
  }

  lemma MonthNext(cal: Calendar, zone: Zone, now: int)
    requires cal.Valid() && zone.Valid()
    ensures zone.IsNext(zone.At(cal.start(cal.MonthOf(zone.day(now)) + 1), 0), now + 1, 0, DayOfMonthIs(cal, 1))
  {
    MonthFirst(cal, zone.day(now));
    FirstOfTomorrow(zone, cal.start(cal.MonthOf(zone.day(now)) + 1), now, DayOfMonthIs(cal, 1));
  }

  // A date whose day was counted from month `m` and lies in it
  lemma SameMonth(cal: Calendar, tm: Tm, m: int, n: int)
    requires cal.Valid() && 1 <= n && tm.IsDate(cal, cal.start(m) + n - 1)
    requires n == 1 || n <= cal.Length(m)
    ensures tm.Month() == m && tm.mday == n
  {
    assert cal.Length(m) >= 28;
    cal.InMonth(cal.start(m) + n - 1, m);
    cal.InMonth(cal.start(m) + n - 1, tm.Month());
  }

  // The day set in today's date, and in the month after if that is over
  method WithinMonth(cal: Calendar, zone: Zone, n: int, now: int) returns (next: int)
    requires cal.Valid() && zone.Valid()
    ensures 1 <= n ==>
      next == zone.At(cal.start(MonthLookedAt(cal, zone.day(now), zone.FirstDay(now, 0), n)) + n - 1, 0)
  {
    var tm := LocalTime(cal, zone, now);
    ghost var today, m := zone.day(now), tm.Month();
    cal.InMonth(today, m);
    tm := tm.(mday := n, hour := 0, min := 0, sec := 0);
    ghost var day := tm.Day(cal);
    zone.FirstDayIs(now, 0, day);
    next, tm := MkTime(cal, zone, tm);
    if next < now {
      if 1 <= n {
        SameMonth(cal, tm, m, n);
      }
      next, tm := MkTime(cal, zone, tm.(mon := tm.mon + 1));
    }
  }

  // The first day of the month after
  method MonthAfter(cal: Calendar, zone: Zone, now: int) returns (next: int)
    requires cal.Valid() && zone.Valid()
    ensures next == zone.At(cal.start(cal.MonthOf(zone.day(now)) + 1), 0)
  {
    var tm := LocalTime(cal, zone, now);
    cal.InMonth(zone.day(now), tm.Month());
    next, tm := MkTime(cal, zone, tm.(mon := tm.mon + 1, mday := 1, hour := 0, min := 0, sec := 0));
  }

  /** Case dayMonth. The day it waits for is the next one with that number exactly if the month it looks at has such a
      day; otherwise it is a day at the start of the month after. Less waits for the next month. */
  method NextDayOfMonth(cal: Calendar, zone: Zone, time1: Int64, op: TimeOp, now: int) returns (next: int)
    requires cal.Valid() && zone.Valid()
    ensures op != TimeLess && 1 <= time1 <= 31 ==>
      var m := MonthLookedAt(cal, zone.day(now), zone.FirstDay(now, 0), time1);
      zone.IsNext(next, now, 0, DayOfMonthIs(cal, time1)) <==> time1 <= cal.Length(m)
    ensures op == TimeLess ==> zone.IsNext(next, now + 1, 0, DayOfMonthIs(cal, 1))
  {
    if op != TimeLess {
      next := WithinMonth(cal, zone, time1, now);
      if 1 <= time1 <= 31 {
        DayOfMonthNext(cal, zone, now, time1);
      }
    } else {
      next := MonthAfter(cal, zone, now);
      MonthNext(cal, zone, now);
    }
  }

  // ---------- months ----------

  // Month `m` of this year, or of the next one if that starts before the first day to come
  function MonthAhead(cal: Calendar, today: int, first: int, m: int): int
    requires cal.Valid()
  {
    var y := cal.MonthOf(today) / 12;
    if cal.start(12 * y + m) < first then 12 * (y + 1) + m else 12 * y + m
  }

  lemma MonthsByNumber(a: int, j: int, m: int)
    requires a % 12 == m && a < j < a + 12
    ensures j % 12 != m
  {
  }

  lemma MonthAheadFirst(cal: Calendar, today: int, first: int, m: int)
    requires cal.Valid() && 0 <= m < 12 && today <= first <= today + 1
    ensures IsFirst(cal.start(MonthAhead(cal, today, first, m)), first, StartsMonth(cal, m))
  {
    var y, target := cal.MonthOf(today) / 12, MonthAhead(cal, today, first, m);
    assert cal.Length(target) >= 28;
    cal.InMonth(cal.start(target), target);
    assert target % 12 == m;
    NotBeforeToday(cal, today, first, y, m);
    forall d | first <= d < cal.start(target)
      ensures !StartsMonth(cal, m)(d)
    {
      MonthOnTheWay(cal, today, first, m, d);
    }
  }

  // The month a year later starts after today
  lemma NotBeforeToday(cal: Calendar, today: int, first: int, y: int, m: int)
    requires cal.Valid() && 0 <= m && first <= today + 1 && y == cal.MonthOf(today) / 12
    ensures first <= cal.start(12 * (y + 1) + m)
  {
    cal.MonthsAscend(cal.MonthOf(today) + 1, 12 * (y + 1) + m);
  }

  lemma MonthOnTheWay(cal: Calendar, today: int, first: int, m: int, d: int)
    requires cal.Valid() && 0 <= m < 12 && today <= first <= d < cal.start(MonthAhead(cal, today, first, m))
    ensures !(cal.MonthOf(d) % 12 == m && cal.DayOfMonth(d) == 1)
  {
    var n, target, j := cal.MonthOf(today), MonthAhead(cal, today, first, m), cal.MonthOf(d);
    var a := if cal.start(12 * (n / 12) + m) < first then 12 * (n / 12) + m else 12 * (n / 12 - 1) + m;
    assert target == a + 12;
    cal.MonthBetween(d, n, target);
    if cal.DayOfMonth(d) == 1 {
      if j <= a {
        cal.MonthsAscend(j, a);
      } else {
        MonthsByNumber(a, j, m);
      }
    }
  }

  lemma MonthStartNext(cal: Calendar, zone: Zone, now: int, m: int)
    requires cal.Valid() && zone.Valid() && 0 <= m < 12
    ensures
      var target := MonthAhead(cal, zone.day(now), zone.FirstDay(now, 0), m);
      zone.IsNext(zone.At(cal.start(target), 0), now, 0, StartsMonth(cal, m))
  {
    var today, first := zone.day(now), zone.FirstDay(now, 0);
    MonthAheadFirst(cal, today, first, m);
    NextIfFirst(zone, cal.start(MonthAhead(cal, today, first, m)), now, StartsMonth(cal, m), first, true);
  }

  lemma YearStartFirst(cal: Calendar, today: int)
    requires cal.Valid()
    ensures IsFirst(cal.start(12 * (cal.MonthOf(today) / 12 + 1)), today + 1, StartsMonth(cal, 0))
  {
    var n := cal.MonthOf(today);
    cal.MonthsAscend(12 * (n / 12), n);
    MonthAheadFirst(cal, today, today + 1, 0);
  }

  lemma YearStartNext(cal: Calendar, zone: Zone, now: int)
    requires cal.Valid() && zone.Valid()
    ensures
      var y := cal.MonthOf(zone.day(now)) / 12;
      zone.IsNext(zone.At(cal.start(12 * (y + 1)), 0), now + 1, 0, StartsMonth(cal, 0))
  {
    YearStartFirst(cal, zone.day(now));
    FirstOfTomorrow(zone, cal.start(12 * (cal.MonthOf(zone.day(now)) / 12 + 1)), now, StartsMonth(cal, 0));
  }

  // The day with the same date a year later, carried over if there is none
  function YearLaterThan(cal: Calendar, d: int): int
    requires cal.Valid()
  {
    cal.start(cal.MonthOf(d) + 12) + d - cal.start(cal.MonthOf(d))
  }

  // The date, or the same a year later if that is over
  method ThisOrNextYear(cal: Calendar, zone: Zone, date: Tm, now: int) returns (next: int)
    requires cal.Valid() && zone.Valid() && date.hour == date.min == date.sec == 0
    ensures var d := date.Day(cal);
      next == zone.At(if d < zone.FirstDay(now, 0) then YearLaterThan(cal, d) else d, 0)
  {
    var tm;
    zone.FirstDayIs(now, 0, date.Day(cal));
    next, tm := MkTime(cal, zone, date);
    if next < now {
      cal.InMonth(date.Day(cal), tm.Month());
      next, tm := MkTime(cal, zone, tm.(year := tm.year + 1));
    }
  }

  lemma MonthAheadIs(cal: Calendar, today: int, first: int, m: int)
    requires cal.Valid()
    ensures
      var d := cal.start(12 * (cal.MonthOf(today) / 12) + m);
      cal.start(MonthAhead(cal, today, first, m)) == if d < first then YearLaterThan(cal, d) else d
  {
    var j := 12 * (cal.MonthOf(today) / 12) + m;
    assert cal.Length(j) >= 28;
    cal.InMonth(cal.start(j), j);
  }

  // The month set in today's date
  method WithinYear(cal: Calendar, zone: Zone, m: int, now: int) returns (next: int)
    requires cal.Valid() && zone.Valid()
    ensures 0 <= m < 12 ==> next == zone.At(cal.start(MonthAhead(cal, zone.day(now), zone.FirstDay(now, 0), m)), 0)
  {
    var tm := LocalTime(cal, zone, now);
    cal.InMonth(zone.day(now), tm.Month());
    tm := tm.(mon := m, mday := 1, hour := 0, min := 0, sec := 0);
    MonthAheadIs(cal, zone.day(now), zone.FirstDay(now, 0), m);
    next := ThisOrNextYear(cal, zone, tm, now);
  }

  // The first day of the year after
  method YearAfter(cal: Calendar, zone: Zone, now: int) returns (next: int)
    requires cal.Valid() && zone.Valid()
    ensures next == zone.At(cal.start(12 * (cal.MonthOf(zone.day(now)) / 12 + 1)), 0)
  {
    var tm := LocalTime(cal, zone, now);
    cal.InMonth(zone.day(now), tm.Month());
    next, tm := MkTime(cal, zone, tm.(year := tm.year + 1, mon := 0, mday := 1, hour := 0, min := 0, sec := 0));
  }

  /** Case month: month 0 is January. Less waits for the next year. */
  method NextMonthStart(cal: Calendar, zone: Zone, time1: Int64, op: TimeOp, now: int) returns (next: int)
    requires cal.Valid() && zone.Valid()
    ensures op != TimeLess && 0 <= time1 < 12 ==> zone.IsNext(next, now, 0, StartsMonth(cal, time1))
    ensures op == TimeLess ==> zone.IsNext(next, now + 1, 0, StartsMonth(cal, 0))
  {
    if op != TimeLess {
      next := WithinYear(cal, zone, time1, now);
      if 0 <= time1 < 12 {
        MonthStartNext(cal, zone, now, time1);
      }
    } else {
      next := YearAfter(cal, zone, now);
      YearStartNext(cal, zone, now);
    }
  }

  // ---------- years and absolute times ----------

  lemma YearNext(cal: Calendar, zone: Zone, now: int, y: int)
    requires zone.Valid() && now <= zone.At(cal.start(12 * (y - 70)), 0)
    ensures zone.IsNext(zone.At(cal.start(12 * (y - 70)), 0), now, 0, StartsYear(cal, y))
  {
    var d := cal.start(12 * (y - 70));
    zone.FirstDayIs(now, 0, d);
    zone.NextIfFirst(d, now, 0, StartsYear(cal, y), true);
  }

  /** Case year, counted from 1900: the start of the year, or never if that is over. */
  method NextYearStart(cal: Calendar, zone: Zone, time1: Int64, op: TimeOp, now: int) returns (next: int)
    requires cal.Valid() && zone.Valid()
    ensures op != TimeLess && (exists t :: zone.IsNext(t, now, 0, StartsYear(cal, time1))) ==>
      zone.IsNext(next, now, 0, StartsYear(cal, time1))
    ensures op == TimeLess || !(exists t :: zone.IsNext(t, now, 0, StartsYear(cal, time1))) ==> next == 0
  {
    if op == TimeLess {
      return 0;
    }
    var tm := LocalTime(cal, zone, now);
    next, tm := MkTime(cal, zone, tm.(year := time1, mon := 0, mday := 1, hour := 0, min := 0, sec := 0));
    assert next == zone.At(cal.start(12 * (time1 - 70)), 0);
    if next < now {
      next := 0;
    } else {
      YearNext(cal, zone, now, time1);
    }
  }

  // ---------- days of a year ----------

  // The day that is looked at: day `n` of this year, or, if that is over, the same date a year later
  function DayLookedAt(cal: Calendar, today: int, first: int, n: int): int
    requires cal.Valid()
  {
    var d := cal.start(12 * (cal.MonthOf(today) / 12)) + n;
    if d < first then YearLaterThan(cal, d) else d
  }

  /** When that is the next day with number `n`: this year has such a day, and if it is over, the leap days before it
      are the same in the next year. */
  predicate DayOfYearRight(cal: Calendar, today: int, first: int, n: int)
    requires cal.Valid()
  {
    var y := cal.MonthOf(today) / 12;
    if cal.start(12 * y) + n < first then n < 59 + cal.LeapDay(y) || cal.leap(y) == cal.leap(y + 1)
    else n < cal.YearLength(y)
  }

  lemma DayOfYearFirst(cal: Calendar, today: int, first: int, n: int)
    requires cal.Valid() && 0 <= n <= 365 && today <= first <= today + 1
    ensures IsFirst(DayLookedAt(cal, today, first, n), first, DayOfYearIs(cal, n)) <==>
      DayOfYearRight(cal, today, first, n)
  {
    var y := cal.MonthOf(today) / 12;
    YearHasDay(cal, today, y);
    if cal.start(12 * y) + n < first {
      DayOfNextYear(cal, today, first, n, y);
    } else {
      DayOfThisYear(cal, first, n, y);
    }
  }

  lemma YearHasDay(cal: Calendar, d: int, y: int)
    requires cal.Valid() && y == cal.MonthOf(d) / 12
    ensures cal.start(12 * y) <= d < cal.start(12 * y + 12)
    ensures cal.YearLength(y) == 365 + cal.LeapDay(y) && cal.YearLength(y + 1) == 365 + cal.LeapDay(y + 1)
  {
    cal.MonthsAscend(12 * y, cal.MonthOf(d));
    cal.MonthsAscend(cal.MonthOf(d) + 1, 12 * y + 12);
  }

  lemma DayOfThisYear(cal: Calendar, first: int, n: int, y: int)
    requires cal.Valid() && 0 <= n <= 365 && cal.start(12 * y) <= first <= cal.start(12 * y) + n
    requires cal.YearLength(y) == 365 + cal.LeapDay(y) && cal.YearLength(y + 1) == 365 + cal.LeapDay(y + 1)
    ensures IsFirst(cal.start(12 * y) + n, first, DayOfYearIs(cal, n)) <==> n < cal.YearLength(y)
  {
    var d := cal.start(12 * y) + n;
    if n < cal.YearLength(y) {
      cal.InYear(d, y);
      forall k | first <= k < d
        ensures cal.DayOfYear(k) != n
      {
        cal.InYear(k, y);
      }
    } else {
      cal.InYear(d, y + 1);
    }
  }

  lemma DayOfNextYear(cal: Calendar, today: int, first: int, n: int, y: int)
    requires cal.Valid() && 0 <= n && y == cal.MonthOf(today) / 12
    requires cal.start(12 * y) + n < first && today <= first <= today + 1 && today < cal.start(12 * y + 12)
    requires cal.YearLength(y) == 365 + cal.LeapDay(y) && cal.YearLength(y + 1) == 365 + cal.LeapDay(y + 1)
    requires cal.start(12 * y) <= first
    ensures IsFirst(DayLookedAt(cal, today, first, n), first, DayOfYearIs(cal, n)) <==>
      (n < 59 + cal.LeapDay(y) || cal.leap(y) == cal.leap(y + 1))
  {
    var d := cal.start(12 * y) + n;
    YearLater(cal, d, n, y);
    var later := DayLookedAt(cal, today, first, n);
    cal.InYear(later, y + 1);
    if cal.DayOfYear(later) == n {
      forall k | first <= k < later
        ensures cal.DayOfYear(k) != n
      {
        if k < cal.start(12 * y + 12) {
          cal.InYear(k, y);
        } else {
          cal.InYear(k, y + 1);
        }
      }
    }
  }

  // The same date a year later has the same number, or one more or less if the leap days before it differ
  lemma YearLater(cal: Calendar, d: int, n: int, y: int)
    requires cal.Valid() && 0 <= n < cal.YearLength(y) && d == cal.start(12 * y) + n
    requires cal.YearLength(y) == 365 + cal.LeapDay(y) && cal.YearLength(y + 1) == 365 + cal.LeapDay(y + 1)
    ensures
      var later := YearLaterThan(cal, d);
      && cal.start(12 * y + 12) <= later < cal.start(12 * y + 24)
      && (later - cal.start(12 * y + 12) == n <==> n < 59 + cal.LeapDay(y) || cal.leap(y) == cal.leap(y + 1))
  {
    var m := cal.MonthOf(d) - 12 * y;
    cal.MonthBetween(d, 12 * y, 12 * y + 12);
    cal.MonthNextYear(y, m);
    assert cal.MonthInPlace(y, 2);
    if m <= 1 {
      cal.MonthsAscend(12 * y + m + 1, 12 * y + 2);
    } else {
      cal.MonthsAscend(12 * y + 2, 12 * y + m);
    }
  }

  lemma DayOfYearNext(cal: Calendar, zone: Zone, now: int, n: int)
    requires cal.Valid() && zone.Valid() && 0 <= n <= 365
    ensures
      var today, first := zone.day(now), zone.FirstDay(now, 0);
      zone.IsNext(zone.At(DayLookedAt(cal, today, first, n), 0), now, 0, DayOfYearIs(cal, n)) <==>
      DayOfYearRight(cal, today, first, n)
  {
    var today, first := zone.day(now), zone.FirstDay(now, 0);
    DayOfYearFirst(cal, today, first, n);
    NextIfFirst(zone, DayLookedAt(cal, today, first, n), now, DayOfYearIs(cal, n), first,
                DayOfYearRight(cal, today, first, n));
  }

  // The day of the year set in today's date
  method DateOfYear(cal: Calendar, zone: Zone, n: int, now: int) returns (next: int)
    requires cal.Valid() && zone.Valid()
    ensures next == zone.At(DayLookedAt(cal, zone.day(now), zone.FirstDay(now, 0), n), 0)
  {
    var tm := LocalTime(cal, zone, now);
    cal.InMonth(zone.day(now), tm.Month());
    next := ThisOrNextYear(cal, zone, tm.(mday := n + 1, mon := 0, hour := 0, min := 0, sec := 0), now);
  }

  // Day 0 of January of the year after
  method LastDayOfYear(cal: Calendar, zone: Zone, now: int) returns (next: int)
    requires cal.Valid() && zone.Valid()
    ensures next == zone.At(cal.start(12 * (cal.MonthOf(zone.day(now)) / 12 + 1)) - 1, 0)
  {
    var tm := LocalTime(cal, zone, now);
    cal.InMonth(zone.day(now), tm.Month());
    next, tm := MkTime(cal, zone, tm.(year := tm.year + 1, mon := 0, mday := 0, hour := 0, min := 0, sec := 0));
  }

  /** Case dayYear: day 0 is January 1. The day it waits for is the next one with that number exactly under
      DayOfYearRight. Less waits for the day before the next year, which is over exactly during that day. */
  method NextDayOfYear(cal: Calendar, zone: Zone, time1: Int64, op: TimeOp, now: int) returns (next: int)
    requires cal.Valid() && zone.Valid()
    ensures op != TimeLess && 0 <= time1 <= 365 ==>
      (zone.IsNext(next, now, 0, DayOfYearIs(cal, time1)) <==>
       DayOfYearRight(cal, zone.day(now), zone.FirstDay(now, 0), time1))
    ensures op == TimeLess ==>
      && zone.IsNext(next + DAY * SECOND, now + 1, 0, StartsMonth(cal, 0))
      && (next < now <==> zone.At(zone.day(now), 0) == next && next != now)
  {
    if op != TimeLess {
      next := DateOfYear(cal, zone, time1, now);
      if 0 <= time1 <= 365 {
        DayOfYearNext(cal, zone, now, time1);
      }
    } else {
      next := LastDayOfYear(cal, zone, now);
      YearStartNext(cal, zone, now);
      LastDayIsOver(cal, zone, now);
    }
  }

  lemma LastDayIsOver(cal: Calendar, zone: Zone, now: int)
    requires cal.Valid() && zone.Valid()
    ensures
      var d := cal.start(12 * (cal.MonthOf(zone.day(now)) / 12 + 1)) - 1;
      && zone.At(d, 0) + DAY * SECOND == zone.At(d + 1, 0)
      && (zone.At(d, 0) < now <==> zone.At(zone.day(now), 0) == zone.At(d, 0) && zone.At(d, 0) != now)
  {
    var y := cal.MonthOf(zone.day(now)) / 12;
    var d := cal.start(12 * (y + 1)) - 1;
    YearHasDay(cal, zone.day(now), y);
    DayLater(zone, d, 0);
    zone.DaysCompare(zone.day(now), d, 0);
    assert zone.midnight(zone.day(now)) <= now < zone.midnight(zone.day(now) + 1);
    zone.DaysCompare(zone.day(now) + 1, d, 0);
  }

  // ---------- GetNextExecutionTime ----------

  // Case absolute: the instant itself, or never if it is over
  function NextAbsolute(time1: Int64, op: TimeOp, now: int): int {
    if op != TimeLess && now <= time1 * SECOND then time1 * SECOND else 0
  }

  // The values of time1 that name something
  predicate InRange(kind: TimeType, time1: Int64) {
    match kind
    case HourMinSec => 0 <= time1 < DAY
    case Hour => 0 <= time1 < 24
    case DayWeek => 0 <= time1 < 7
    case DayMonth => 1 <= time1 <= 31
    case DayYear => 0 <= time1 <= 365
    case Month => 0 <= time1 < 12
    case Year => true
    case Absolute => true
  }

  /** What an operator other than less waits for: the least instant not before now that has the named position, and
      never if there is none. */
  ghost predicate Awaits(cal: Calendar, zone: Zone, kind: TimeType, time1: Int64, now: int, next: int)
    requires cal.Valid()
  {
    match kind
    case HourMinSec => zone.IsNext(next, now, time1, AnyDay())
    case Hour => zone.IsNext(next, now, time1 * 3600, AnyDay())
    case DayWeek => zone.IsNext(next, now, 0, WeekdayIs(time1))
    case DayMonth => zone.IsNext(next, now, 0, DayOfMonthIs(cal, time1))
    case DayYear => zone.IsNext(next, now, 0, DayOfYearIs(cal, time1))
    case Month => zone.IsNext(next, now, 0, StartsMonth(cal, time1))
    case Year =>
      if exists t :: zone.IsNext(t, now, 0, StartsYear(cal, time1)) then
        zone.IsNext(next, now, 0, StartsYear(cal, time1))
      else next == 0
    case Absolute => next == if now <= time1 * SECOND then time1 * SECOND else 0
  }

  // Whether the date that is looked at has the named day
  predicate Right(cal: Calendar, zone: Zone, kind: TimeType, time1: Int64, now: int)
    requires cal.Valid()
  {
    var today, first := zone.day(now), zone.FirstDay(now, 0);
    match kind
    case DayMonth => time1 <= cal.Length(MonthLookedAt(cal, today, first, time1))
    case DayYear => DayOfYearRight(cal, today, first, time1)
    case _ => true
  }

  /** What less gives: the next start of the period in which it can hold again, strictly after now; for days of a year
      one day before that; never for years and absolute times, which do not come back. */
  ghost predicate AwaitsLess(cal: Calendar, zone: Zone, kind: TimeType, now: int, next: int)
    requires cal.Valid()
  {
    match kind
    case HourMinSec => zone.IsNext(next, now + 1, 0, AnyDay())
    case Hour => zone.IsNext(next, now + 1, 0, AnyDay())
    case DayWeek => zone.IsNext(next, now + 1, 0, WeekdayIs(0))
    case DayMonth => zone.IsNext(next, now + 1, 0, DayOfMonthIs(cal, 1))
    case DayYear =>
      && zone.IsNext(next + DAY * SECOND, now + 1, 0, StartsMonth(cal, 0))
      && (next < now <==> zone.At(zone.day(now), 0) == next && next != now)
    case Month => zone.IsNext(next, now + 1, 0, StartsMonth(cal, 0))
    case Year => next == 0
    case Absolute => next == 0
  }

  /** GetNextExecutionTime: for all eight types it is what the condition waits for exactly if the date that is looked
      at has the named day, which only days of a month and of a year can fail. */
  method GetNextExecutionTime(cal: Calendar, zone: Zone, c: Condition, now: int) returns (next: int)
    requires cal.Valid() && zone.Valid() && c.Time?
    ensures c.timeOp != TimeLess && InRange(c.timeType, c.time1) ==>
      (Awaits(cal, zone, c.timeType, c.time1, now, next) <==> Right(cal, zone, c.timeType, c.time1, now))
    ensures c.timeOp == TimeLess ==> AwaitsLess(cal, zone, c.timeType, now, next)
  {
    match c.timeType
    case HourMinSec => next := NextTimeOfDay(cal, zone, c.time1, c.timeOp, now);
    case Hour => next := NextHour(cal, zone, c.time1, c.timeOp, now);
    case DayWeek => next := NextWeekday(cal, zone, c.time1, c.timeOp, now);
    case DayMonth => next := NextDayOfMonth(cal, zone, c.time1, c.timeOp, now);
    case DayYear => next := NextDayOfYear(cal, zone, c.time1, c.timeOp, now);
    case Month => next := NextMonthStart(cal, zone, c.time1, c.timeOp, now);
    case Year => next := NextYearStart(cal, zone, c.time1, c.timeOp, now);
    case Absolute => next := NextAbsolute(c.time1, c.timeOp, now);
  }

  lemma TodayAt(zone: Zone, d: int)
    requires zone.Valid()
    ensures zone.day(zone.At(d, 0)) == d && zone.FirstDay(zone.At(d, 0), 0) == d
  {
    zone.DayOfAt(d, 0);
  }

  /** Both can fail: at the start of a month a condition for a day the month does not have, ... */
  lemma MonthTooShort(cal: Calendar, zone: Zone, m: int, n: Int64)
    requires cal.Valid() && zone.Valid() && 1 <= cal.Length(m) < n
    ensures !Right(cal, zone, DayMonth, n, zone.At(cal.start(m), 0))
  {
    TodayAt(zone, cal.start(m));
    cal.InMonth(cal.start(m), m);
  }

  /** ... and the day after it was due a condition for a day of the year from March on, when a leap year follows. */
  lemma LeapYearFollows(cal: Calendar, zone: Zone, y: int, n: Int64)
    requires cal.Valid() && zone.Valid() && !cal.leap(y) && cal.leap(y + 1) && 59 <= n < 364
    ensures !Right(cal, zone, DayYear, n, zone.At(cal.start(12 * y) + n + 1, 0))
  {
    var today := cal.start(12 * y) + n + 1;
    TodayAt(zone, today);
    assert cal.YearLength(y) == 365 + cal.LeapDay(y);
    cal.InYear(today, y);
  }

  // April 1970 has 30 days, and 1972 is a leap year
  lemma BothHappen()
    ensures GREGORIAN.Length(3) == 30 && !GREGORIAN.leap(1) && GREGORIAN.leap(2)
  {
  }

  // ---------- NextExecutionTime of a tree ----------

  ghost function TimeNodes(c: Condition): set<Condition> {
    match c
    case Time(_, _, _, _, _) => {c}
    case Compare(_, l, r, _) => TimeNodes(l) + TimeNodes(r)
    case _ => {}
  }

  // The const GetChilds: right before left
  function Children(c: Condition): seq<Condition> {
    if c.Compare? then
      (if c.right.Null? then [] else [c.right]) + if c.left.Null? then [] else [c.left]
    else []
  }

  /** IsConditionTimeBased: some node is a time condition. */
  method IsConditionTimeBased(c: Condition) returns (timed: bool)
    requires !c.Null?
    ensures timed <==> TimeNodes(c) != {}
    decreases c
  {
    if c.Type() == 2 {
      assert c in TimeNodes(c);
      return true;
    }
    var children := Children(c);
    for i := 0 to |children|
      invariant forall j :: 0 <= j < i ==> TimeNodes(children[j]) == {}
    {
      var t := IsConditionTimeBased(children[i]);
      if t {
        return true;
      }
    }
    if c.Compare? {
      assert c.right.Null? || children[0] == c.right;
      assert c.left.Null? || children[|children| - 1] == c.left;
    }
    return false;
  }

  // `next` is the smallest non-zero value of `at` on `nodes`, or 0 if there is none
  ghost predicate IsEarliest(next: int, nodes: set<Condition>, at: Condition -> int) {
    && (next != 0 ==> exists n :: n in nodes && at(n) == next)
    && forall n :: n in nodes && at(n) != 0 ==> next != 0 && next <= at(n)
  }

  /** NextExecutionTime: the earliest time any time condition in the tree asks for; zero, which stands for never,
      exactly when none asks for one. `at` gives GetNextExecutionTime of each. */
  method NextExecutionTime(c: Condition, at: Condition -> int) returns (next: int)
    requires !c.Null?
    ensures IsEarliest(next, TimeNodes(c), at)
    decreases c
  {
    if c.Type() == 2 {
      assert c in TimeNodes(c);
      return at(c);
    }
    next := 0;
    var children := Children(c);
    ghost var seen: set<Condition> := {};
    for i := 0 to |children|
      invariant IsEarliest(next, seen, at)
      invariant seen == if i == 0 then {} else if i == 1 then TimeNodes(children[0]) else TimeNodes(c)
    {
      var t := NextExecutionTime(children[i], at);
      if t != 0 {
        if next != 0 {
          next := if t < next then t else next;
        } else {
          next := t;
        }
      }
      seen := seen + TimeNodes(children[i]);
    }
    assert seen == TimeNodes(c);
  }

  lemma EarliestIsUnique(a: int, b: int, nodes: set<Condition>, at: Condition -> int)
    requires IsEarliest(a, nodes, at) && IsEarliest(b, nodes, at)
    ensures a == b
  {
  }
}
