/** The Gregorian calendar in UTC, by minutes since 1970-01-01 00:00, as the getters of a
    JavaScript date read it. */
module Calendar {
  import opened Arithmetic

  datatype Fields = Fields(minute: int, hour: int, day: int, month: int, weekday: int)

  predicate LeapYear(y: int) {
    y % 4 == 0 && (y % 100 != 0 || y % 400 == 0)
  }

  /** Days from 1970-01-01 to 1 January of year `y`. */
  function YearStart(y: int): int {
    365 * (y - 1970) + ((y - 1) / 4 - (y - 1) / 100 + (y - 1) / 400) - 477
  }

  lemma {:induction false} YearLength(y: int)
    ensures YearStart(y + 1) - YearStart(y) == if LeapYear(y) then 366 else 365
  {
    Carry(y, 4);
    Carry(y, 100);
    Carry(y, 400);
    Multiples(y);
  }

  lemma {:induction false} Multiples(y: int)
    ensures (y % 100 == 0 ==> y % 4 == 0) && (y % 400 == 0 ==> y % 100 == 0)
  {
    if y % 400 == 0 {
      QuotientUnique(y, 100, 4 * (y / 400), 0);
    }
    if y % 100 == 0 {
      QuotientUnique(y, 4, 25 * (y / 100), 0);
    }
  }

  lemma {:induction false} Carry(y: int, p: int)
    requires p == 4 || p == 100 || p == 400
    ensures y / p - (y - 1) / p == if y % p == 0 then 1 else 0
  {
  }

  function YearUp(d: int, y: int): (r: int)
    requires YearStart(y) <= d
    ensures YearStart(r) <= d < YearStart(r + 1)
    decreases d - YearStart(y)
  {
    YearLength(y);
    if d < YearStart(y + 1) then y else YearUp(d, y + 1)
  }

  function YearDown(d: int, y: int): (r: int)
    requires d < YearStart(y)
    ensures YearStart(r) <= d < YearStart(r + 1)
    decreases YearStart(y) - d
  {
    YearLength(y - 1);
    if YearStart(y - 1) <= d then y - 1 else YearDown(d, y - 1)
  }

  /** The year that day `d` falls in. */
  function YearOf(d: int): (y: int)
    ensures YearStart(y) <= d < YearStart(y + 1)
  {
    if YearStart(1970) <= d then YearUp(d, 1970) else YearDown(d, 1970)
  }

  function DaysIn(month: int, leap: bool): int {
    if month == 2 then if leap then 29 else 28
    else if month == 4 || month == 6 || month == 9 || month == 11 then 30
    else 31
  }

  /** The month and day of the `n`-th day, counted from zero, after the first of `month`. */
  function MonthDay(n: int, month: int, leap: bool): (int, int)
    decreases 12 - month
  {
    if month >= 12 || n < DaysIn(month, leap) then (month, n + 1)
    else MonthDay(n - DaysIn(month, leap), month + 1, leap)
  }

  function At(t: int): Fields {
    var d := t / 1440;
    var y := YearOf(d);
    var (month, day) := MonthDay(d - YearStart(y), 1, LeapYear(y));
    Fields(t % 60, t / 60 % 24, day, month, (d + 4) % 7)
  }

  lemma {:induction false} YearStartsApart(y: int, z: int)
    requires y < z
    ensures YearStart(y) + 365 * (z - y) <= YearStart(z)
    decreases z - y
  {
    YearLength(z - 1);
    if y + 1 < z {
      YearStartsApart(y, z - 1);
    }
  }

  lemma {:induction false} YearIsUnique(d: int, y: int)
    requires YearStart(y) <= d < YearStart(y + 1)
    ensures YearOf(d) == y
  {
    var z := YearOf(d);
    if z < y {
      YearStartsApart(z + 1, y + 1);
    } else if y < z {
      YearStartsApart(y + 1, z + 1);
    }
  }

  lemma {:induction false} MidnightFields(d: int)
    ensures (1440 * d) / 1440 == d && (1440 * d) % 60 == 0 && (1440 * d) / 60 % 24 == 0
  {
    QuotientUnique(1440 * d, 1440, d, 0);
    QuotientUnique(1440 * d, 60, 24 * d, 0);
    QuotientUnique(24 * d, 24, d, 0);
  }

  /** 1 January is reached within 366 days, and not before the year ends. */
  lemma {:induction false} NextNewYear(d: int)
    ensures var e := YearStart(YearOf(d) + 1);
            && d < e <= d + 366
            && At(1440 * e).month == 1 && At(1440 * e).day == 1
            && (e == d + 366 <==> d == YearStart(YearOf(d)) && LeapYear(YearOf(d)))
  {
    var y := YearOf(d);
    YearLength(y);
    StartIsNewYear(y + 1);
  }

  lemma {:induction false} StartIsNewYear(y: int)
    ensures At(1440 * YearStart(y)).month == 1 && At(1440 * YearStart(y)).day == 1
  {
    YearLength(y);
    YearIsUnique(YearStart(y), y);
    MidnightFields(YearStart(y));
  }

  /** Only the first day of a year is 1 January. */
  lemma {:induction false} NewYearIsStart(t: int)
    requires At(t).month == 1 && At(t).day == 1
    ensures var d := t / 1440; d == YearStart(YearOf(d))
  {
    var d := t / 1440;
    var y := YearOf(d);
    MonthAfter(d - YearStart(y), 1, LeapYear(y));
  }

  lemma {:induction false} MonthAfter(n: int, month: int, leap: bool)
    requires n >= 0 && month >= 1
    ensures MonthDay(n, month, leap).0 >= month
    ensures MonthDay(n, month, leap).0 == month && MonthDay(n, month, leap).1 == 1 ==> n == 0
    decreases 12 - month
  {
    if month < 12 && n >= DaysIn(month, leap) {
      MonthAfter(n - DaysIn(month, leap), month + 1, leap);
    }
  }

  /** Days from the first of `month` to the end of the year. */
  function DaysLeft(month: int, leap: bool): int
    decreases 13 - month
  {
    if month > 12 then 0 else DaysIn(month, leap) + DaysLeft(month + 1, leap)
  }

  lemma {:induction false} YearDays(leap: bool)
    ensures DaysLeft(1, leap) == if leap then 366 else 365
  {
    assert DaysLeft(10, leap) == 92;
    assert DaysLeft(7, leap) == 184;
    assert DaysLeft(4, leap) == 275;
  }

  lemma {:induction false} LeftIsNatural(month: int, leap: bool)
    ensures DaysLeft(month, leap) >= 0
    ensures month >= 13 ==> DaysLeft(month, leap) == 0
    ensures month <= 12 ==> DaysLeft(month, leap) == DaysIn(month, leap) + DaysLeft(month + 1, leap)
    decreases 13 - month
  {
    if month <= 12 { LeftIsNatural(month + 1, leap); }
  }

  /** The day on which the month of day `n` is over. */
  function MonthOver(n: int, month: int, leap: bool): int {
    n - MonthDay(n, month, leap).1 + 1 + DaysIn(MonthDay(n, month, leap).0, leap)
  }

  lemma {:induction false} DaysBound(month: int, leap: bool)
    ensures 28 <= DaysIn(month, leap) <= 31
  {
  }

  lemma {:induction false} DayOfFirst(n: int, month: int, leap: bool)
    requires 1 <= month <= 12 && 0 <= n < DaysIn(month, leap)
    ensures MonthDay(n, month, leap) == (month, n + 1) && MonthOver(n, month, leap) == DaysIn(month, leap)
  {
  }

  lemma {:induction false} DayOfLater(n: int, month: int, leap: bool)
    requires 1 <= month < 12 && n >= DaysIn(month, leap)
    ensures MonthDay(n, month, leap) == MonthDay(n - DaysIn(month, leap), month + 1, leap)
    ensures MonthOver(n, month, leap) == MonthOver(n - DaysIn(month, leap), month + 1, leap) + DaysIn(month, leap)
  {
  }

  /** It is the first of the next month, or the end of the year. */
  lemma {:induction false} MonthEnd(n: int, month: int, leap: bool)
    requires 1 <= month <= 12 && 0 <= n < DaysLeft(month, leap)
    ensures n < MonthOver(n, month, leap) <= n + 31 && MonthOver(n, month, leap) <= DaysLeft(month, leap)
    ensures MonthOver(n, month, leap) < DaysLeft(month, leap) ==>
              MonthDay(MonthOver(n, month, leap), month, leap).1 == 1
    decreases 12 - month
  {
    var k := DaysIn(month, leap);
    LeftIsNatural(month, leap);
    LeftIsNatural(month + 1, leap);
    DaysBound(month, leap);
    if n < k {
      DayOfFirst(n, month, leap);
      if month < 12 { FirstOfNext(month, leap); }
    } else {
      DayOfLater(n, month, leap);
      MonthEnd(n - k, month + 1, leap);
      DayOfLater(MonthOver(n, month, leap), month, leap);
    }
  }

  lemma {:induction false} FirstOfNext(month: int, leap: bool)
    requires 1 <= month < 12
    ensures MonthDay(DaysIn(month, leap), month, leap).1 == 1
  {
    DayOfLater(DaysIn(month, leap), month, leap);
    DaysBound(month + 1, leap);
    DayOfFirst(0, month + 1, leap);
  }

  /** Later days of one month. */
  lemma {:induction false} MonthRun(n: int, month: int, leap: bool, j: int, m: int, day: int)
    requires 1 <= month <= 12 && 0 <= n < DaysLeft(month, leap) && j >= 0
    requires MonthDay(n, month, leap) == (m, day) && day + j <= DaysIn(m, leap)
    ensures MonthDay(n + j, month, leap) == (m, day + j) && n + j < DaysLeft(month, leap) && day >= 1
    decreases 12 - month
  {
    LeftIsNatural(month, leap);
    LeftIsNatural(month + 1, leap);
    if n < DaysIn(month, leap) {
      DayOfFirst(n, month, leap);
      DayOfFirst(n + j, month, leap);
    } else {
      DayOfLater(n, month, leap);
      MonthRun(n - DaysIn(month, leap), month + 1, leap, j, m, day);
      DayOfLater(n + j, month, leap);
    }
  }

  /** Between a day and the end of its month there is no first. */
  lemma {:induction false} MonthMiddle(n: int, month: int, leap: bool, k: int)
    requires 1 <= month <= 12 && 0 <= n < DaysLeft(month, leap) && n < k < MonthOver(n, month, leap)
    ensures k < DaysLeft(month, leap) && MonthDay(k, month, leap).1 > 1
  {
    var (m, day) := MonthDay(n, month, leap);
    MonthRun(n, month, leap, k - n, m, day);
  }

  /** The first day of the month after day `d`. */
  function NextFirst(d: int): int {
    var y := YearOf(d);
    YearStart(y) + MonthOver(d - YearStart(y), 1, LeapYear(y))
  }

  predicate FirstDay(d: int) {
    At(1440 * d).day == 1
  }

  lemma {:induction false} NextFirstIsFirst(d: int, e: int)
    requires e == NextFirst(d)
    ensures d < e <= d + 31 && FirstDay(e)
  {
    var y := YearOf(d);
    YearLength(y);
    EndInYear(d - YearStart(y), LeapYear(y), e - YearStart(y));
    FirstInYear(e, y);
  }

  function YearSize(leap: bool): int {
    if leap then 366 else 365
  }

  lemma {:induction false} EndInYear(n: int, leap: bool, e: int)
    requires 0 <= n < YearSize(leap) && e == MonthOver(n, 1, leap)
    ensures n < e <= n + 31 && e <= YearSize(leap)
    ensures e < YearSize(leap) ==> MonthDay(e, 1, leap).1 == 1
  {
    YearDays(leap);
    MonthEnd(n, 1, leap);
  }

  lemma {:induction false} MiddleInYear(n: int, leap: bool, k: int)
    requires 0 <= n < YearSize(leap) && n < k < MonthOver(n, 1, leap)
    ensures k < YearSize(leap) && MonthDay(k, 1, leap).1 > 1
  {
    YearDays(leap);
    MonthMiddle(n, 1, leap, k);
  }

  lemma {:induction false} FirstInYear(e: int, y: int)
    requires YearStart(y) <= e <= YearStart(y + 1)
    requires e < YearStart(y + 1) ==> MonthDay(e - YearStart(y), 1, LeapYear(y)).1 == 1
    ensures FirstDay(e)
  {
    if e < YearStart(y + 1) {
      DayInYear(e, y);
    } else {
      StartIsNewYear(y + 1);
    }
  }

  lemma {:induction false} NoFirstBetween(d: int, q: int)
    requires d < q < NextFirst(d)
    ensures !FirstDay(q)
  {
    var y := YearOf(d);
    YearLength(y);
    MiddleInYear(d - YearStart(y), LeapYear(y), q - YearStart(y));
    DayInYear(q, y);
  }

  lemma {:induction false} DayInYear(e: int, y: int)
    requires YearStart(y) <= e < YearStart(y + 1)
    ensures At(1440 * e).day == MonthDay(e - YearStart(y), 1, LeapYear(y)).1
  {
    MidnightFields(e);
    YearIsUnique(e, y);
  }
}
