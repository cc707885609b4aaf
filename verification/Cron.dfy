/** The cron calculator (packages/scheduler/src/ScheduleRepository.ts): a forward search,
    minute by minute, for at most 366 days, and what it finds for the named schedules. */
module Cron {
  import opened Arithmetic
  import opened Calendar
  import opened CronField
  import opened Shared

  datatype Outcome = Next(minute: int) | InvalidExpression | NotFound

  const SEARCH: int := 60 * 24 * 366

  // ---------------------------------------------------------------- the search

  /** Whether a minute matches. */
  function Due(parts: seq<string>): int -> bool
    requires |parts| == 5
  {
    (t: int) => Matches(parts, At(t))
  }

  /** The first due minute among the `n` from `t` on. */
  function Search(due: int -> bool, t: int, n: nat): Option<int>
    decreases n
  {
    if n == 0 then None else if due(t) then Some(t) else Search(due, t + 1, n - 1)
  }

  function Found(found: Option<int>): Outcome {
    if found.Some? then Next(found.value) else NotFound
  }

  /** The next run after the instant `from`, in milliseconds, as a minute. */
  function NextRun(expression: string, from: int): Outcome {
    var parts := Parts(expression);
    if |parts| != 5 then InvalidExpression
    else
      Found(Search(Due(parts), from / 60000 + 1, SEARCH))
  }

  method SearchForward(due: int -> bool, start: int, limit: nat) returns (found: Option<int>)
    ensures found == Search(due, start, limit)
  {
    var next := start;
    var i := 0;
    while i < limit
      invariant 0 <= i <= limit
      invariant next == start + i
      invariant Search(due, start, limit) == Search(due, next, limit - i)
    {
      if due(next) {
        return Some(next);
      }
      next := next + 1;
      i := i + 1;
    }
    found := None;
  }

  /** The same where the host's clock is a fixed number of minutes ahead of UTC. */
  function Ahead(due: int -> bool, zone: int): int -> bool {
    (t: int) => due(t + zone)
  }

  function ZonedRun(expression: string, zone: int, from: int): Outcome {
    var parts := Parts(expression);
    if |parts| != 5 then InvalidExpression
    else
      Found(Search(Ahead(Due(parts), zone), from / 60000 + 1, SEARCH))
  }

  /** The whole minute after an instant: a minute is added and the seconds are cut off. */
  function FirstMinute(from: int): (minute: int)
    ensures minute == from / 60000 + 1
  {
    (from + 60000) / 60000
  }

  method SearchFrom(parts: seq<string>, zone: int, start: int) returns (outcome: Outcome)
    requires |parts| == 5
    ensures outcome == Found(Search(Ahead(Due(parts), zone), start, SEARCH))
  {
    var found := SearchForward(Ahead(Due(parts), zone), start, SEARCH);
    outcome := Found(found);
  }

  method CalculateNextRun(expression: string, zone: int, from: int) returns (outcome: Outcome)
    ensures outcome == ZonedRun(expression, zone, from)
  {
    var parts := Parts(expression);
    if |parts| != 5 {
      return InvalidExpression;
    }
    outcome := SearchFrom(parts, zone, FirstMinute(from));
  }

  lemma {:induction false} SearchShifts(due: int -> bool, zone: int, t: int, n: nat)
    ensures Search(Ahead(due, zone), t, n) == Shifted(Search(due, t + zone, n), zone)
    decreases n
  {
    if n > 0 {
      SearchShifts(due, zone, t + 1, n - 1);
    }
  }

  function Shifted(found: Option<int>, zone: int): Option<int> {
    if found.Some? then Some(found.value - zone) else None
  }

  function ShiftedOutcome(outcome: Outcome, zone: int): Outcome {
    if outcome.Next? then Next(outcome.minute - zone) else outcome
  }

  lemma {:induction false} FoundShifts(due: int -> bool, zone: int, t: int, there: int, n: nat)
    requires there == t + zone
    ensures Found(Search(Ahead(due, zone), t, n)) == ShiftedOutcome(Found(Search(due, there, n)), zone)
  {
    SearchShifts(due, zone, t, n);
  }

  lemma {:induction false} MinuteShifts(from: int, zone: int)
    ensures (from + 60000 * zone) / 60000 == from / 60000 + zone
  {
    QuotientUnique(from + 60000 * zone, 60000, from / 60000 + zone, from % 60000);
  }

  lemma {:induction false} RunShifts(parts: seq<string>, zone: int, from: int)
    requires |parts| == 5
    ensures Found(Search(Ahead(Due(parts), zone), from / 60000 + 1, SEARCH))
         == ShiftedOutcome(Found(Search(Due(parts), (from + 60000 * zone) / 60000 + 1, SEARCH)), zone)
  {
    MinuteShifts(from, zone);
    FoundShifts(Due(parts), zone, from / 60000 + 1, (from + 60000 * zone) / 60000 + 1, SEARCH);
  }

  /** A zone shifts both ends of the search: what holds of UTC holds of every fixed offset. */
  lemma {:induction false} ZoneShifts(expression: string, zone: int, from: int)
    ensures ZonedRun(expression, zone, from) == ShiftedOutcome(NextRun(expression, from + 60000 * zone), zone)
  {
    if |Parts(expression)| == 5 {
      RunShifts(Parts(expression), zone, from);
    }
  }

  lemma {:induction false} SearchIsLeast(due: int -> bool, t: int, n: nat)
    ensures var r := Search(due, t, n);
            if r.Some? then
              && t <= r.value < t + n && due(r.value)
              && forall v :: t <= v < r.value ==> !due(v)
            else forall v :: t <= v < t + n ==> !due(v)
    decreases n
  {
    if n > 0 && !due(t) {
      SearchIsLeast(due, t + 1, n - 1);
    }
  }

  /** The result is the least matching whole minute strictly after the start; the search
      fails exactly when none of the 366 * 1440 minutes after the start matches. */
  lemma {:induction false} NextRunIsLeast(expression: string, from: int)
    requires |Parts(expression)| == 5
    ensures var due := Due(Parts(expression));
            match NextRun(expression, from)
            case Next(u) =>
              && 60000 * u > from && u <= from / 60000 + SEARCH && due(u)
              && forall v :: 60000 * v > from && v < u ==> !due(v)
            case NotFound => forall v :: 60000 * v > from && v <= from / 60000 + SEARCH ==> !due(v)
            case InvalidExpression => false
  {
    SearchIsLeast(Due(Parts(expression)), from / 60000 + 1, SEARCH);
    forall v | 60000 * v > from
      ensures v >= from / 60000 + 1
    {
    }
  }

  /** A later start never has an earlier next run. */
  lemma {:induction false} NextRunIsMonotone(expression: string, from: int, later: int)
    requires from <= later && NextRun(expression, from).Next? && NextRun(expression, later).Next?
    ensures NextRun(expression, from).minute <= NextRun(expression, later).minute
  {
    NextRunIsLeast(expression, from);
    NextRunIsLeast(expression, later);
  }

  lemma {:induction false} FoundWhenDue(expression: string, from: int, u: int)
    requires |Parts(expression)| == 5 && Due(Parts(expression))(u)
    requires from / 60000 < u <= from / 60000 + SEARCH
    ensures NextRun(expression, from).Next? && NextRun(expression, from).minute <= u
  {
    NextRunIsLeast(expression, from);
    assert 60000 * u > from;
  }

  // ---------------------------------------------------------------- the named schedules

  const STAR: Field := [Whole(Any)]

  function Fixed(n: nat): Field {
    [Whole(Only(n))]
  }

  const YEARLY := Schedule(Fixed(0), Fixed(0), Fixed(1), Fixed(1), STAR)
  const MONTHLY := Schedule(Fixed(0), Fixed(0), Fixed(1), STAR, STAR)
  const WEEKLY := Schedule(Fixed(0), Fixed(0), STAR, STAR, Fixed(0))
  const DAILY := Schedule(Fixed(0), Fixed(0), STAR, STAR, STAR)
  const HOURLY := Schedule(Fixed(0), STAR, STAR, STAR, STAR)

  lemma {:induction false} NamedSchedules()
    ensures PrintSchedule(YEARLY) == "0 0 1 1 *" && PrintSchedule(MONTHLY) == "0 0 1 * *"
    ensures PrintSchedule(WEEKLY) == "0 0 * * 0" && PrintSchedule(DAILY) == "0 0 * * *"
    ensures PrintSchedule(HOURLY) == "0 * * * *"
  {
    assert PrintField(Fixed(0)) == "0" && PrintField(Fixed(1)) == "1" && PrintField(STAR) == "*";
  }

  predicate Simple(f: Field) {
    f in [STAR, Fixed(0), Fixed(1)]
  }

  predicate SimpleMeans(f: Field, value: int)
    requires Simple(f)
  {
    f == STAR || (f == Fixed(0) && value == 0) || (f == Fixed(1) && value == 1)
  }

  lemma {:induction false} SimpleField(f: Field, value: int, min: int, max: int)
    requires Simple(f)
    ensures FieldMeans(f, value, min, max) <==> SimpleMeans(f, value)
  {
    assert |f| == 1;
    assert Means(f[0], value, min, max) <==> SimpleMeans(f, value);
  }

  predicate SimpleSchedule(s: Schedule, f: Fields) {
    && Simple(s.minute) && Simple(s.hour) && Simple(s.day) && Simple(s.month) && Simple(s.weekday)
    && SimpleMeans(s.minute, f.minute) && SimpleMeans(s.hour, f.hour) && SimpleMeans(s.day, f.day)
    && SimpleMeans(s.month, f.month) && SimpleMeans(s.weekday, f.weekday)
  }

  lemma {:induction false} SimpleReads(s: Schedule, f: Fields)
    requires Simple(s.minute) && Simple(s.hour) && Simple(s.day) && Simple(s.month) && Simple(s.weekday)
    ensures ScheduleMeans(s, f) <==> SimpleSchedule(s, f)
  {
    SimpleField(s.minute, f.minute, 0, 59);
    SimpleField(s.hour, f.hour, 0, 23);
    SimpleField(s.day, f.day, 1, 31);
    SimpleField(s.month, f.month, 1, 12);
    SimpleField(s.weekday, f.weekday, 0, 6);
  }

  /** When a schedule of stars, zeros and ones is due. */
  lemma {:induction false} SimpleDue(expression: string, s: Schedule, t: int)
    requires Simple(s.minute) && Simple(s.hour) && Simple(s.day) && Simple(s.month) && Simple(s.weekday)
    requires Normalize(expression) == PrintSchedule(s)
    ensures |Parts(expression)| == 5 && (Due(Parts(expression))(t) <==> SimpleSchedule(s, At(t)))
  {
    ScheduleReads(expression, s, At(t));
    SimpleReads(s, At(t));
  }

  predicate NewYear(t: int) {
    At(t).minute == 0 && At(t).hour == 0 && At(t).day == 1 && At(t).month == 1
  }

  /** `@yearly` always succeeds, at the start of the next year; its search needs the whole
      bound exactly when it starts in the first minute of a leap year. */
  lemma {:induction false} YearlySucceeds(expression: string, from: int)
    requires Normalize(expression) == "0 0 1 1 *"
    ensures var t := from / 60000;
            && NextRun(expression, from) == Next(1440 * YearStart(YearOf(t / 1440) + 1))
            && (NextRun(expression, from) == Next(t + SEARCH) <==>
                  t == 1440 * YearStart(YearOf(t / 1440)) && LeapYear(YearOf(t / 1440)))
  {
    var t := from / 60000;
    var e := YearStart(YearOf(t / 1440) + 1);
    YearlyNext(expression, from, t, e);
    NextNewYear(t / 1440);
  }

  lemma {:induction false} YearlyNext(expression: string, from: int, t: int, e: int)
    requires Normalize(expression) == "0 0 1 1 *"
    requires t == from / 60000 && e == YearStart(YearOf(t / 1440) + 1)
    ensures NextRun(expression, from) == Next(1440 * e)
  {
    NewYearInReach(t, e);
    YearlyDue(expression, 1440 * e);
    forall u | u > t
      ensures Due(Parts(expression))(u) ==> u >= 1440 * e
    {
      YearlyNotBefore(expression, t, e, u);
    }
    NextRunIs(expression, from, 1440 * e);
  }

  lemma {:induction false} NewYearInReach(t: int, e: int)
    requires e == YearStart(YearOf(t / 1440) + 1)
    ensures NewYear(1440 * e) && t < 1440 * e <= t + SEARCH
  {
    var d := t / 1440;
    NextNewYear(d);
    NewYearStarts(YearOf(d) + 1);
    MidnightInReach(t, e);
  }

  lemma {:induction false} NewYearStarts(y: int)
    ensures NewYear(1440 * YearStart(y))
  {
    StartIsNewYear(y);
    AtMidnight(YearStart(y));
  }

  lemma {:induction false} MidnightInReach(t: int, e: int)
    requires t / 1440 < e <= t / 1440 + 366
    ensures t < 1440 * e <= t + SEARCH
  {
  }

  lemma {:induction false} YearlyNotBefore(expression: string, t: int, e: int, u: int)
    requires Normalize(expression) == "0 0 1 1 *" && e == YearStart(YearOf(t / 1440) + 1) && u > t
    ensures |Parts(expression)| == 5 && (Due(Parts(expression))(u) ==> u >= 1440 * e)
  {
    YearlyDue(expression, u);
    if NewYear(u) {
      NewYearAfter(t, u);
    }
  }

  lemma {:induction false} NextRunIs(expression: string, from: int, v: int)
    requires |Parts(expression)| == 5 && Due(Parts(expression))(v)
    requires from / 60000 < v <= from / 60000 + SEARCH
    requires var due := Due(Parts(expression)); forall u :: u > from / 60000 && due(u) ==> u >= v
    ensures NextRun(expression, from) == Next(v)
  {
    FoundWhenDue(expression, from, v);
    NextRunIsLeast(expression, from);
  }

  lemma {:induction false} YearlyDue(expression: string, u: int)
    requires Normalize(expression) == "0 0 1 1 *"
    ensures |Parts(expression)| == 5 && (Due(Parts(expression))(u) <==> NewYear(u))
  {
    NamedSchedules();
    SimpleDue(expression, YEARLY, u);
  }

  /** A first minute of a year after `t` is no earlier than the next year's start. */
  lemma {:induction false} NewYearAfter(t: int, u: int)
    requires u > t && NewYear(u)
    ensures u >= 1440 * YearStart(YearOf(t / 1440) + 1)
  {
    NewYearIsStart(u);
    MidnightMinute(u);
    var y, z := YearOf(t / 1440), YearOf(u / 1440);
    StartsAscend(z, y);
    StartsAscend(y + 1, z);
  }

  lemma {:induction false} StartsAscend(y: int, z: int)
    ensures y <= z ==> YearStart(y) <= YearStart(z)
  {
    if y < z {
      YearStartsApart(y, z);
    }
  }

  predicate FullHour(u: int) { u % 60 == 0 }

  predicate Midnight(u: int) { u % 1440 == 0 }

  predicate Sunday(u: int) { Midnight(u) && IsSunday(u / 1440) }

  /** Day 0 of the epoch is a Thursday. */
  predicate IsSunday(d: int) { (d + 4) % 7 == 0 }

  lemma {:induction false} AtTimes(u: int)
    ensures At(u).minute == u % 60 && At(u).hour == u / 60 % 24 && At(u).weekday == (u / 1440 + 4) % 7
  {
  }

  lemma {:induction false} TimeOfDay(u: int)
    ensures FullHour(u) <==> At(u).minute == 0
    ensures Midnight(u) <==> At(u).minute == 0 && At(u).hour == 0
    ensures Sunday(u) <==> At(u).minute == 0 && At(u).hour == 0 && At(u).weekday == 0
  {
    AtTimes(u);
    if u % 60 == 0 && u / 60 % 24 == 0 { MidnightMinute(u); }
    if u % 1440 == 0 { MidnightFields(u / 1440); }
  }

  /** `v` is the first minute after `t` with property `p`, and within the search. */
  ghost predicate FirstAfter(p: int -> bool, t: int, v: int) {
    t < v <= t + SEARCH && p(v) && forall u :: t < u < v ==> !p(u)
  }

  lemma {:induction false} NextRunIsFirst(expression: string, from: int, p: int -> bool, t: int, v: int)
    requires |Parts(expression)| == 5 && forall u :: Due(Parts(expression))(u) <==> p(u)
    requires t == from / 60000 && FirstAfter(p, t, v)
    ensures NextRun(expression, from) == Next(v)
  {
    var due := Due(Parts(expression));
    assert due(v);
    forall u | u > t && due(u)
      ensures u >= v
    {
      assert p(u);
    }
    NextRunIs(expression, from, v);
  }

  predicate MonthStart(u: int) { Midnight(u) && FirstDay(u / 1440) }

  /** `@monthly` always succeeds, at the start of the next month. */
  lemma {:induction false} MonthlySucceeds(expression: string, from: int)
    requires Normalize(expression) == "0 0 1 * *"
    ensures NextRun(expression, from) == Next(1440 * NextFirst(from / 60000 / 1440))
  {
    var t := from / 60000;
    assert FirstAfter(MonthStart, t, 1440 * NextFirst(t / 1440)) by { FirstMonthStart(t); }
    MonthlyFrom(expression, from, t, 1440 * NextFirst(t / 1440));
  }

  lemma {:induction false} MonthlyFrom(expression: string, from: int, t: int, v: int)
    requires Normalize(expression) == "0 0 1 * *" && t == from / 60000 && FirstAfter(MonthStart, t, v)
    ensures NextRun(expression, from) == Next(v)
  {
    MonthlyDue(expression);
    NextRunIsFirst(expression, from, MonthStart, t, v);
  }

  lemma {:induction false} MonthlyDue(expression: string)
    requires Normalize(expression) == "0 0 1 * *"
    ensures |Parts(expression)| == 5 && forall u :: Due(Parts(expression))(u) <==> MonthStart(u)
  {
    NamedSchedules();
    SimpleDue(expression, MONTHLY, 0);
    forall u
      ensures Due(Parts(expression))(u) <==> MonthStart(u)
    {
      SimpleDue(expression, MONTHLY, u);
      MonthlyAt(u);
    }
  }

  lemma {:induction false} MonthlyAt(u: int)
    ensures SimpleSchedule(MONTHLY, At(u)) <==> MonthStart(u)
  {
    TimeOfDay(u);
    DayAt(u);
  }

  lemma {:induction false} DayAt(u: int)
    ensures At(u).day == At(1440 * (u / 1440)).day
  {
    QuotientUnique(1440 * (u / 1440), 1440, u / 1440, 0);
  }

  lemma {:induction false} FirstMonthStart(t: int)
    ensures FirstAfter(MonthStart, t, 1440 * NextFirst(t / 1440))
  {
    var d, e := t / 1440, NextFirst(t / 1440);
    NextFirstIsFirst(d, e);
    QuotientUnique(1440 * e, 1440, e, 0);
    forall u | t < u < 1440 * e
      ensures !MonthStart(u)
    {
      if Midnight(u) { NoFirstBetween(d, u / 1440); }
    }
  }

  /** `@weekly` always succeeds, at the start of the next Sunday. */
  lemma {:induction false} WeeklySucceeds(expression: string, from: int)
    requires Normalize(expression) == "0 0 * * 0"
    ensures NextRun(expression, from) == Next(1440 * NextSunday(from / 60000 / 1440))
  {
    WeeklyDue(expression);
    FirstSunday(from / 60000);
    NextRunIsFirst(expression, from, Sunday, from / 60000, 1440 * NextSunday(from / 60000 / 1440));
  }

  lemma {:induction false} WeeklyDue(expression: string)
    requires Normalize(expression) == "0 0 * * 0"
    ensures |Parts(expression)| == 5 && forall u :: Due(Parts(expression))(u) <==> Sunday(u)
  {
    NamedSchedules();
    SimpleDue(expression, WEEKLY, 0);
    forall u
      ensures Due(Parts(expression))(u) <==> Sunday(u)
    {
      SimpleDue(expression, WEEKLY, u);
      WeeklyAt(u);
    }
  }

  lemma {:induction false} WeeklyAt(u: int)
    ensures SimpleSchedule(WEEKLY, At(u)) <==> Sunday(u)
  {
    TimeOfDay(u);
  }

  function NextSunday(d: int): (e: int)
    ensures d < e <= d + 7 && IsSunday(e)
    ensures forall q :: d < q < e ==> !IsSunday(q)
  {
    d + 7 - (d + 4) % 7
  }

  lemma {:induction false} FirstSunday(t: int)
    ensures FirstAfter(Sunday, t, 1440 * NextSunday(t / 1440))
  {
    var e := NextSunday(t / 1440);
    QuotientUnique(1440 * e, 1440, e, 0);
    forall u | t < u < 1440 * e
      ensures !Sunday(u)
    {
      if Midnight(u) {
        assert t / 1440 < u / 1440 < e;
      }
    }
  }

  /** `@daily` always succeeds, at the next midnight. */
  lemma {:induction false} DailySucceeds(expression: string, from: int)
    requires Normalize(expression) == "0 0 * * *"
    ensures NextRun(expression, from) == Next(1440 * (from / 60000 / 1440 + 1))
  {
    var t := from / 60000;
    assert FirstAfter(Midnight, t, 1440 * (t / 1440 + 1)) by { FirstMidnight(t); }
    DailyFrom(expression, from, t, 1440 * (t / 1440 + 1));
  }

  lemma {:induction false} DailyFrom(expression: string, from: int, t: int, v: int)
    requires Normalize(expression) == "0 0 * * *" && t == from / 60000 && FirstAfter(Midnight, t, v)
    ensures NextRun(expression, from) == Next(v)
  {
    DailyDue(expression);
    NextRunIsFirst(expression, from, Midnight, t, v);
  }

  lemma {:induction false} DailyDue(expression: string)
    requires Normalize(expression) == "0 0 * * *"
    ensures |Parts(expression)| == 5 && forall u :: Due(Parts(expression))(u) <==> Midnight(u)
  {
    NamedSchedules();
    SimpleDue(expression, DAILY, 0);
    forall u
      ensures Due(Parts(expression))(u) <==> Midnight(u)
    {
      SimpleDue(expression, DAILY, u);
      DailyAt(u);
    }
  }

  lemma {:induction false} DailyAt(u: int)
    ensures SimpleSchedule(DAILY, At(u)) <==> Midnight(u)
  {
    TimeOfDay(u);
  }

  lemma {:induction false} FirstMidnight(t: int)
    ensures FirstAfter(Midnight, t, 1440 * (t / 1440 + 1))
  {
    QuotientUnique(1440 * (t / 1440 + 1), 1440, t / 1440 + 1, 0);
  }

  /** `@hourly` always succeeds, at the next full hour. */
  lemma {:induction false} HourlySucceeds(expression: string, from: int)
    requires Normalize(expression) == "0 * * * *"
    ensures NextRun(expression, from) == Next(60 * (from / 60000 / 60 + 1))
  {
    var t := from / 60000;
    assert FirstAfter(FullHour, t, 60 * (t / 60 + 1)) by { FirstFullHour(t); }
    HourlyFrom(expression, from, t, 60 * (t / 60 + 1));
  }

  lemma {:induction false} HourlyFrom(expression: string, from: int, t: int, v: int)
    requires Normalize(expression) == "0 * * * *" && t == from / 60000 && FirstAfter(FullHour, t, v)
    ensures NextRun(expression, from) == Next(v)
  {
    HourlyDue(expression);
    NextRunIsFirst(expression, from, FullHour, t, v);
  }

  lemma {:induction false} HourlyDue(expression: string)
    requires Normalize(expression) == "0 * * * *"
    ensures |Parts(expression)| == 5 && forall u :: Due(Parts(expression))(u) <==> FullHour(u)
  {
    NamedSchedules();
    SimpleDue(expression, HOURLY, 0);
    forall u
      ensures Due(Parts(expression))(u) <==> FullHour(u)
    {
      SimpleDue(expression, HOURLY, u);
      HourlyAt(u);
    }
  }

  lemma {:induction false} HourlyAt(u: int)
    ensures SimpleSchedule(HOURLY, At(u)) <==> FullHour(u)
  {
    TimeOfDay(u);
  }

  lemma {:induction false} FirstFullHour(t: int)
    ensures FirstAfter(FullHour, t, 60 * (t / 60 + 1))
  {
    QuotientUnique(60 * (t / 60 + 1), 60, t / 60 + 1, 0);
  }

  lemma {:induction false} AtMidnight(d: int)
    ensures At(1440 * d).minute == 0 && At(1440 * d).hour == 0
  {
    MidnightFields(d);
  }

  lemma {:induction false} MidnightMinute(u: int)
    requires u % 60 == 0 && u / 60 % 24 == 0
    ensures u == 1440 * (u / 1440)
  {
    assert u == 60 * (u / 60) && u / 60 == 24 * (u / 60 / 24);
    assert u == 1440 * (u / 60 / 24);
  }
}
