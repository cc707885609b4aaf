/** The calendar of the cron search (packages/scheduler/src/ScheduleRepository.ts reads the
    getters of a date) against the rules by which one day follows another. */
module CalendarDays {
  import opened Calendar
  import opened Arithmetic

  datatype Day = Day(year: int, month: int, day: int, weekday: int)

  const LENGTHS: seq<int> := [31, 28, 31, 30, 31, 30, 31, 31, 30, 31, 30, 31]

  /** The day after, by the rules of the Gregorian calendar. */
  function Tomorrow(d: Day): Day
    requires 1 <= d.month <= 12
  {
    var leap := d.year % 400 == 0 || (d.year % 4 == 0 && d.year % 100 != 0);
    var length := if d.month == 2 && leap then 29 else LENGTHS[d.month - 1];
    var weekday := if d.weekday == 6 then 0 else d.weekday + 1;
    if d.day < length then Day(d.year, d.month, d.day + 1, weekday)
    else if d.month < 12 then Day(d.year, d.month + 1, 1, weekday)
    else Day(d.year + 1, 1, 1, weekday)
  }

  /** The fields shown at the start of day `d`, and its year. */
  function DayOf(d: int): Day {
    var f := At(1440 * d);
    Day(YearOf(d), f.month, f.day, f.weekday)
  }

  function Yearly(n: int, y: int): (int, int) {
    MonthDay(n, 1, LeapYear(y))
  }

  /** Day `d`, the `n`-th of year `y`. */
  function DayOn(n: int, y: int, d: int): Day {
    Day(y, Yearly(n, y).0, Yearly(n, y).1, (d + 4) % 7)
  }

  lemma {:induction false} DayIs(d: int, y: int)
    requires YearStart(y) <= d < YearStart(y + 1)
    ensures DayOf(d) == DayOn(d - YearStart(y), y, d)
  {
    MidnightFields(d);
    YearIsUnique(d, y);
  }

  /** `next` is the day after `now`: the next of its month, or the first of the next month. */
  predicate Follows(now: (int, int), next: (int, int), leap: bool) {
    next == if now.1 < DaysIn(now.0, leap) then (now.0, now.1 + 1) else (now.0 + 1, 1)
  }

  predicate YearsEnd(now: (int, int), leap: bool) {
    now.0 == 12 && now.1 == DaysIn(12, leap)
  }

  lemma {:induction false} AfterFirst(n: int, month: int, leap: bool)
    requires 1 <= month <= 12 && 0 <= n < DaysIn(month, leap)
    ensures MonthDay(n, month, leap) == (month, n + 1)
    ensures n + 1 == DaysLeft(month, leap) <==> YearsEnd((month, n + 1), leap)
    ensures n + 1 < DaysLeft(month, leap) ==> Follows((month, n + 1), MonthDay(n + 1, month, leap), leap)
  {
    DayOfFirst(n, month, leap);
    LeftIsNatural(month, leap);
    LeftIsNatural(month + 1, leap);
    if month < 12 {
      LaterMonths(month + 1, leap);
    }
    if n + 1 < DaysIn(month, leap) {
      DayOfFirst(n + 1, month, leap);
    } else if month < 12 {
      DayOfLater(n + 1, month, leap);
      DaysBound(month + 1, leap);
      DayOfFirst(0, month + 1, leap);
    }
  }

  lemma {:induction false} LaterMonths(month: int, leap: bool)
    requires 1 <= month <= 12
    ensures DaysLeft(month, leap) >= 28
  {
    LeftIsNatural(month, leap);
    LeftIsNatural(month + 1, leap);
    DaysBound(month, leap);
  }

  lemma {:induction false} DayAfter(n: int, month: int, leap: bool)
    requires 1 <= month <= 12 && 0 <= n < DaysLeft(month, leap)
    ensures var now := MonthDay(n, month, leap);
            && month <= now.0 <= 12
            && 1 <= now.1 <= DaysIn(now.0, leap)
            && (n + 1 == DaysLeft(month, leap) <==> YearsEnd(now, leap))
            && (n + 1 < DaysLeft(month, leap) ==> Follows(now, MonthDay(n + 1, month, leap), leap))
    decreases 12 - month
  {
    if n < DaysIn(month, leap) {
      AfterFirst(n, month, leap);
    } else {
      LeftIsNatural(month, leap);
      LeftIsNatural(month + 1, leap);
      DayOfLater(n, month, leap);
      DayOfLater(n + 1, month, leap);
      DayAfter(n - DaysIn(month, leap), month + 1, leap);
    }
  }

  lemma {:induction false} LengthsAgree(month: int, y: int)
    requires 1 <= month <= 12
    ensures var leap := y % 400 == 0 || (y % 4 == 0 && y % 100 != 0);
            && leap == LeapYear(y)
            && DaysIn(month, LeapYear(y)) == if month == 2 && leap then 29 else LENGTHS[month - 1]
  {
    Multiples(y);
  }

  lemma {:induction false} FirstOfYear(d: int, y: int)
    requires d == YearStart(y)
    ensures DayOf(d) == Day(y, 1, 1, (d + 4) % 7)
  {
    YearLength(y);
    DayIs(d, y);
    JanuaryFirst(d - YearStart(y), y);
  }

  lemma {:induction false} JanuaryFirst(n: int, y: int)
    requires n == 0
    ensures Yearly(n, y) == (1, 1)
  {
    DaysBound(1, LeapYear(y));
    DayOfFirst(n, 1, LeapYear(y));
  }

  lemma {:induction false} WeekdayAfter(d: int, e: int)
    requires e == d + 1
    ensures (e + 4) % 7 == if (d + 4) % 7 == 6 then 0 else (d + 4) % 7 + 1
  {
  }

  lemma {:induction false} TomorrowIs(today: Day, next: Day)
    requires 1 <= today.month <= 12
    requires next.weekday == if today.weekday == 6 then 0 else today.weekday + 1
    requires var now, leap := (today.month, today.day), LeapYear(today.year);
             if YearsEnd(now, leap) then next.year == today.year + 1 && next.month == 1 && next.day == 1
             else next.year == today.year && Follows(now, (next.month, next.day), leap)
    requires today.day <= DaysIn(today.month, LeapYear(today.year))
    ensures next == Tomorrow(today)
  {
    LengthsAgree(today.month, today.year);
  }

  /** Over all days, before the epoch too: each day follows the one before by the rules. */
  lemma {:induction false} DaysFollow(d: int)
    ensures 1 <= DayOf(d).month <= 12
    ensures DayOf(d + 1) == Tomorrow(DayOf(d))
  {
    FollowingDays(d, d + 1, YearOf(d), DayOf(d), DayOf(d + 1));
  }

  lemma {:induction false} NextIs(d: int, e: int, y: int, next: Day)
    requires e == d + 1 && YearStart(y) <= d < YearStart(y + 1) && next == DayOf(e)
    ensures next == if e < YearStart(y + 1) then DayOn(e - YearStart(y), y, e) else Day(y + 1, 1, 1, (e + 4) % 7)
  {
    if e < YearStart(y + 1) {
      DayIs(e, y);
    } else {
      FirstOfYear(e, y + 1);
    }
  }

  lemma {:induction false} FollowingDays(d: int, e: int, y: int, today: Day, next: Day)
    requires e == d + 1 && YearStart(y) <= d < YearStart(y + 1)
    requires today == DayOf(d) && next == DayOf(e)
    ensures 1 <= today.month <= 12 && next == Tomorrow(today)
  {
    DayIs(d, y);
    NextIs(d, e, y, next);
    YearLength(y);
    InYear(d - YearStart(y), y, d, e, today, next);
  }

  lemma {:induction false} InYear(n: int, y: int, d: int, e: int, today: Day, next: Day)
    requires 0 <= n < YearSize(LeapYear(y)) && e == d + 1 && today == DayOn(n, y, d)
    requires next == if n + 1 < YearSize(LeapYear(y)) then DayOn(n + 1, y, e) else Day(y + 1, 1, 1, (e + 4) % 7)
    ensures 1 <= today.month <= 12 && next == Tomorrow(today)
  {
    YearDays(LeapYear(y));
    DayAfter(n, 1, LeapYear(y));
    WeekdayAfter(d, e);
    TomorrowIs(today, next);
  }

  lemma {:induction false} YearOfDayZero(y: int)
    ensures YearStart(y) == 0 <==> y == 1970
  {
    if y < 1970 {
      YearStartsApart(y, 1970);
    } else if y > 1970 {
      YearStartsApart(1970, y);
    }
  }

  lemma {:induction false} DayZero(d: int, today: Day)
    requires d == 0 && today == DayOf(d)
    requires YearStart(today.year) == d
    ensures today == Day(today.year, 1, 1, 4)
  {
    FirstOfYear(d, today.year);
  }

  lemma {:induction false} EpochYear(d: int, y: int)
    requires d == YearStart(y)
    ensures YearOf(d) == y
  {
    YearLength(y);
    YearIsUnique(d, y);
  }

  /** The days are counted from Thursday, 1 January 1970. */
  lemma {:induction false} EpochIsThursday(d: int)
    ensures d == 0 <==> DayOf(d) == Day(1970, 1, 1, 4)
  {
    if d == 0 {
      YearOfDayZero(1970);
      EpochYear(d, 1970);
      DayZero(d, DayOf(d));
    }
  }

  /** `g` is shown a minute after `f`, which is shown at minute `t`. */
  predicate Ticks(f: Fields, g: Fields, t: int) {
    && 0 <= f.minute < 60 && 0 <= f.hour < 24
    && (if f.minute < 59 then g == f.(minute := f.minute + 1)
        else if f.hour < 23 then g == f.(minute := 0, hour := f.hour + 1)
        else g.minute == 0 && g.hour == 0 && (t + 1) / 1440 == t / 1440 + 1)
  }

  /** Over all minutes: each follows the one before as on a clock, and the date is that of the
      day. */
  lemma {:induction false} MinutesFollow(t: int)
    ensures Ticks(At(t), At(t + 1), t)
    ensures var f, d := At(t), DayOf(t / 1440); f.month == d.month && f.day == d.day && f.weekday == d.weekday
  {
    SameDay(t);
    SameDay(t + 1);
    FieldsTick(t, t + 1, At(t), At(t + 1), DayOf(t / 1440), DayOf((t + 1) / 1440));
  }

  /** What a clock shows of a minute of day `d`. */
  function Shown(t: int, d: Day): Fields {
    Fields(t % 60, t / 60 % 24, d.day, d.month, d.weekday)
  }

  lemma {:induction false} FieldsTick(t: int, u: int, f: Fields, g: Fields, d: Day, e: Day)
    requires u == t + 1 && f == Shown(t, d) && g == Shown(u, e) && (u / 1440 == t / 1440 ==> e == d)
    ensures Ticks(f, g, t)
  {
    MinuteParts(t);
  }

  lemma {:induction false} SameDay(t: int)
    ensures At(t) == Shown(t, DayOf(t / 1440))
  {
    MidnightFields(t / 1440);
  }

  lemma {:induction false} MinuteParts(t: int)
    ensures var m, h := t % 60, t / 60 % 24;
            if m < 59 then (t + 1) % 60 == m + 1 && (t + 1) / 60 == t / 60 && (t + 1) / 1440 == t / 1440
            else
              && (t + 1) % 60 == 0 && (t + 1) / 60 == t / 60 + 1
              && (if h < 23 then (t + 1) / 60 % 24 == h + 1 && (t + 1) / 1440 == t / 1440
                  else (t + 1) / 60 % 24 == 0 && (t + 1) / 1440 == t / 1440 + 1)
  {
    var q := t / 60;
    QuotientUnique(t, 1440, q / 24, 60 * (q % 24) + t % 60);
    if t % 60 < 59 {
      QuotientUnique(t + 1, 60, q, t % 60 + 1);
      QuotientUnique(t + 1, 1440, q / 24, 60 * (q % 24) + t % 60 + 1);
    } else {
      QuotientUnique(t + 1, 60, q + 1, 0);
      if q % 24 < 23 {
        QuotientUnique(q + 1, 24, q / 24, q % 24 + 1);
        QuotientUnique(t + 1, 1440, q / 24, 60 * (q % 24 + 1));
      } else {
        QuotientUnique(q + 1, 24, q / 24 + 1, 0);
        QuotientUnique(t + 1, 1440, q / 24 + 1, 0);
      }
    }
  }
}
