/**
 What it means that a search finds nothing in its five years: every schedule that
 fires at all fires in every year, except those confined to 29 February, which the
 search can lose around a century year that is not a leap year.
 */
module Horizon {
  import opened Wrappers
  import opened Calendar
  import opened Cron
  import opened Trigger
  import opened Lifecycle

  const COMMON_YEAR := 2001

  /** The schedule fires in every year: it goes by weekday, or it selects a date that common years have. */
  ghost predicate EveryYear(c: Schedule) {
    !c.dowStar || exists m, d :: m in c.month && d in c.dom && 1 <= m <= 12 && d <= DaysIn(COMMON_YEAR, m)
  }

  /** 29 February is the only date it selects. */
  ghost predicate LeapDayOnly(c: Schedule) {
    !EveryYear(c) && 2 in c.month && 29 in c.dom
  }

  /** It selects no date any year has. */
  ghost predicate Impossible(c: Schedule) {
    !EveryYear(c) && !(2 in c.month && 29 in c.dom)
  }

  predicate IsLeapDay(d: Date) {
    d.month == 2 && d.day == 29
  }

  predicate CommonCentury(year: int) {
    year % 100 == 0 && !IsLeap(year)
  }

  /** The search starts after the last firing of the leap day four years before a common
      century year, and before March of the year before that century year. */
  ghost predicate InCenturyGap(c: Schedule, first: int) {
    exists century :: CommonCentury(century) && InGap(c, first, century)
  }

  ghost predicate InGap(c: Schedule, first: int, century: int) {
    && (forall h, m | h in c.hour && m in c.minute :: Instant(century - 4, 2, 29, h, m) < first)
    && first < Instant(century - 1, 3, 1, 0, 0)
  }

  // ---- the calendar around a year ----

  lemma YearBounds(day: int)
    ensures var y := Civil(day).year; MonthStart(12 * y) <= day < MonthStart(12 * (y + 1))
  {
    hide MonthStart;
    var k := MonthOf(day);
    MonthStartGrows(12 * (k / 12), k);
    MonthStartGrows(k + 1, 12 * (k / 12 + 1));
  }

  /** A date with an hour and a minute, as a local minute. */
  lemma MinuteOfDate(d: Date, h: int, m: int)
    requires ValidDate(d) && 0 <= h <= 23 && 0 <= m <= 59
    ensures var t := Instant(d.year, d.month, d.day, h, m);
      Civil(DayOf(t)) == d && HourOf(t) == h && MinuteOf(t) == m
  {
    hide Civil, DayNumber, DayOf, HourOf, MinuteOf, ValidDate;
    CivilRoundTrip(d);
    FieldsOfMinute(DayNumber(d.year, d.month, d.day), h, m);
  }

  lemma InstantOfMinute(t: int)
    ensures var d := Civil(DayOf(t)); ValidDate(d) && Instant(d.year, d.month, d.day, HourOf(t), MinuteOf(t)) == t
  {
    CivilIsValid(DayOf(t));
    hide Civil, DayNumber;
    MinuteSplit(t);
  }

  /** Minutes of a later year come later. */
  lemma LaterYear(s: int, t: int)
    requires Civil(DayOf(s)).year < Civil(DayOf(t)).year
    ensures s < t
  {
    YearBounds(DayOf(s));
    YearBounds(DayOf(t));
    hide Civil, MonthStart;
    MonthStartGrows(12 * (Civil(DayOf(s)).year + 1), 12 * Civil(DayOf(t)).year);
  }

  /** The window reaches into the fifth year after its start. */
  lemma WindowReaches(first: int, t: int)
    requires Civil(DayOf(t)).year < Civil(DayOf(first)).year + 5
    ensures t < AddYears(first, 5)
  {
    WindowEnd(first);
    hide AddYears, Civil, HourOf, MinuteOf;
    LaterYear(t, AddYears(first, 5));
  }

  // ---- finding a match ----

  lemma AnyOf(s: set<int>) returns (x: int)
    requires s != {}
    ensures x in s
  {
    assert (forall y :: y !in s) ==> s == {};
    x :| x in s;
  }

  lemma MatchInWindow(c: Schedule, t: int, after: int, offset: int)
    requires Matches(c, t) && FirstMinute(after, offset) <= t < AddYears(FirstMinute(after, offset), 5)
    ensures NextFire(c, after, offset).Some?
  {
    hide Matches, AddYears;
    ScanIsLeast(c, FirstMinute(after, offset), AddYears(FirstMinute(after, offset), 5));
  }

  /** Some date of the year is selected. */
  lemma DateInYear(c: Schedule, year: int) returns (d: Date)
    requires WellFormed(c) && EveryYear(c)
    ensures ValidDate(d) && d.year == year && d.month in c.month && DayMatches(c, DayNumber(d.year, d.month, d.day))
  {
    hide Civil, Weekday, MonthStart, DayNumber;
    if c.dowStar {
      var m, n :| m in c.month && n in c.dom && 1 <= m <= 12 && n <= DaysIn(COMMON_YEAR, m);
      d := Date(year, m, n);
    } else {
      var m := AnyOf(c.month);
      var w := AnyOf(c.dow);
      var k := DaysUntil(w, DayNumber(year, m, 1));
      d := Date(year, m, 1 + k);
      assert DayNumber(year, m, 1) + k == DayNumber(year, m, 1 + k) by {
        DaysAdd(year, m, k);
      }
    }
    CivilRoundTrip(d);
  }

  lemma DaysUntil(w: int, day: int) returns (k: int)
    requires 0 <= w <= 6
    ensures 0 <= k <= 6 && Weekday(day + k) == w
  {
    k := (w - Weekday(day)) % 7;
  }

  lemma DaysAdd(year: int, month: int, k: int)
    ensures DayNumber(year, month, 1) + k == DayNumber(year, month, 1 + k)
  {
    hide MonthStart;
  }

  lemma FiresInYear(c: Schedule, year: int) returns (t: int)
    requires WellFormed(c) && EveryYear(c)
    ensures Matches(c, t) && Civil(DayOf(t)).year == year
  {
    var d := DateInYear(c, year);
    var h := AnyOf(c.hour);
    var m := AnyOf(c.minute);
    t := Instant(d.year, d.month, d.day, h, m);
    hide Civil, DayMatches, EveryYear, DayNumber, DayOf, HourOf, MinuteOf, ValidDate;
    MinuteOfDate(d, h, m);
    FieldsOfMinute(DayNumber(d.year, d.month, d.day), h, m);
  }

  lemma EveryYearFires(c: Schedule, after: int, offset: int)
    requires WellFormed(c) && EveryYear(c)
    ensures NextFire(c, after, offset).Some?
  {
    var first := FirstMinute(after, offset);
    var t := FiresInYear(c, Civil(DayOf(first)).year + 1);
    hide *;
    LaterYear(first, t);
    WindowReaches(first, t);
    MatchInWindow(c, t, after, offset);
  }

  lemma ImpossibleNeverMatches(c: Schedule, t: int)
    requires WellFormed(c) && Impossible(c)
    ensures !Matches(c, t)
  {
    CivilIsValid(DayOf(t));
    hide Civil;
  }

  // ---- the leap day ----

  lemma LeapDayMatches(c: Schedule, t: int)
    requires WellFormed(c) && LeapDayOnly(c)
    ensures Matches(c, t) <==> IsLeapDay(Civil(DayOf(t))) && HourOf(t) in c.hour && MinuteOf(t) in c.minute
  {
    CivilIsValid(DayOf(t));
    hide Civil;
  }

  lemma LeapDayFires(c: Schedule, year: int, h: int, m: int)
    requires WellFormed(c) && LeapDayOnly(c) && IsLeap(year) && h in c.hour && m in c.minute
    ensures var t := Instant(year, 2, 29, h, m); Matches(c, t) && Civil(DayOf(t)).year == year
  {
    MinuteOfDate(Date(year, 2, 29), h, m);
    LeapDayMatches(c, Instant(year, 2, 29, h, m));
    hide Civil, Matches, Instant;
  }

  /** A window that starts before March of the year before a century year ends before
      the leap day four years after it. */
  lemma WindowEndsEarly(first: int, century: int)
    requires CommonCentury(century) && first < Instant(century - 1, 3, 1, 0, 0)
    ensures AddYears(first, 5) < Instant(century + 4, 2, 29, 0, 0)
  {
    var d := Civil(DayOf(first));
    CivilIsValid(DayOf(first));
    var k := MonthIndex(d.year, d.month);
    var february := 12 * (century + 4) + 1;
    hide Civil, MonthStart, HourOf, MinuteOf;
    if k > february - 60 {
      MonthStartGrows(february - 59, k);
    } else if k < february - 60 {
      MonthStartGrows(k + 61, february);
      MonthStartGrows(k + 60, k + 61);
    }
    assert DayNumber(d.year + 5, d.month, d.day) < DayNumber(century + 4, 2, 29);
    BeforeTheDay(first, DayNumber(d.year + 5, d.month, d.day), DayNumber(century + 4, 2, 29));
  }

  lemma BeforeTheDay(t: int, a: int, b: int)
    requires a < b
    ensures a * MINUTES_PER_DAY + HourOf(t) * 60 + MinuteOf(t) < b * MINUTES_PER_DAY
  {
  }

  /** A window that starts from March on reaches past that leap day. */
  lemma WindowEndsLate(first: int, century: int, h: int, m: int)
    requires CommonCentury(century) && first >= Instant(century - 1, 3, 1, 0, 0)
    requires 0 <= h <= 23 && 0 <= m <= 59
    ensures Instant(century + 4, 2, 29, h, m) < AddYears(first, 5)
  {
    var d := Civil(DayOf(first));
    CivilIsValid(DayOf(first));
    hide Civil, MonthStart, HourOf, MinuteOf;
    FromMarchOn(d, century);
    WithinTheDay(first, h, m, DayNumber(century + 4, 2, 29), DayNumber(d.year + 5, d.month, d.day));
  }

  lemma FromMarchOn(d: Date, century: int)
    requires CommonCentury(century) && ValidDate(d)
    requires DayNumber(d.year, d.month, d.day) >= DayNumber(century - 1, 3, 1)
    ensures DayNumber(century + 4, 2, 29) < DayNumber(d.year + 5, d.month, d.day)
  {
    hide MonthStart, ValidDate, DaysIn;
    var k := MonthIndex(d.year, d.month);
    NotBeforeMonth(d, 12 * (century - 1) + 2);
    MonthStartGrows(12 * (century + 4) + 2, k + 60);
    LeapFebruary(century + 4);
  }

  lemma NotBeforeMonth(d: Date, k: int)
    requires ValidDate(d) && DayNumber(d.year, d.month, d.day) >= MonthStart(k)
    ensures MonthIndex(d.year, d.month) >= k && d.day >= 1
  {
    hide MonthStart;
    var l := MonthIndex(d.year, d.month);
    MonthStep(l);
    assert l / 12 == d.year && l % 12 + 1 == d.month;
    if l < k {
      MonthStartGrows(l + 1, k);
    }
  }

  lemma LeapFebruary(year: int)
    requires year % 4 == 0 && year % 100 != 0
    ensures MonthStart(12 * year + 2) == MonthStart(12 * year + 1) + 29
  {
    hide MonthStart;
    MonthStep(12 * year + 1);
    assert (12 * year + 1) / 12 == year && (12 * year + 1) % 12 == 1;
  }

  lemma WithinTheDay(t: int, h: int, m: int, a: int, b: int)
    requires 0 <= h <= 23 && 0 <= m <= 59 && a < b
    ensures a * MINUTES_PER_DAY + h * 60 + m < b * MINUTES_PER_DAY + HourOf(t) * 60 + MinuteOf(t)
  {
  }

  /** In the gap every firing lies before the window or behind it. */
  lemma GapHoldsNoMatch(c: Schedule, first: int, century: int, t: int)
    requires WellFormed(c) && LeapDayOnly(c) && CommonCentury(century) && InGap(c, first, century)
    requires Matches(c, t)
    ensures t < first || AddYears(first, 5) <= t
  {
    hide Matches, Civil, MonthStart, AddYears, DayOf, HourOf, MinuteOf, LeapDayOnly, IsLeap;
    LeapDayMatches(c, t);
    WindowEndsEarly(first, century);
    InstantOfMinute(t);
    var y := Civil(DayOf(t)).year;
    LeapDayIsInALeapYear(Civil(DayOf(t)));
    if y <= century - 4 {
      MonthStartGrows(12 * y + 1, 12 * (century - 4) + 1);
    } else {
      NoLeapYearNear(century, y);
      MonthStartGrows(12 * (century + 4) + 1, 12 * y + 1);
    }
  }

  lemma LeapDayIsInALeapYear(d: Date)
    requires ValidDate(d) && IsLeapDay(d)
    ensures IsLeap(d.year)
  {
  }

  lemma NoLeapYearNear(century: int, year: int)
    requires CommonCentury(century) && IsLeap(year) && year > century - 4
    ensures year >= century + 4
  {
  }

  /** Outside the gap it holds one. */
  lemma OutsideTheGapFires(c: Schedule, after: int, offset: int)
    requires WellFormed(c) && LeapDayOnly(c) && !InCenturyGap(c, FirstMinute(after, offset))
    ensures NextFire(c, after, offset).Some?
  {
    var first := FirstMinute(after, offset);
    var t := LeapDayInWindow(c, first);
    hide *;
    MatchInWindow(c, t, after, offset);
  }

  lemma LeapDayInWindow(c: Schedule, first: int) returns (t: int)
    requires WellFormed(c) && LeapDayOnly(c) && !InCenturyGap(c, first)
    ensures Matches(c, t) && first <= t < AddYears(first, 5)
  {
    var y := Civil(DayOf(first)).year;
    var next := y + 4 - y % 4;
    var h := AnyOf(c.hour);
    var m := AnyOf(c.minute);
    FourYears(y);
    hide Civil, Matches, AddYears, LeapDayOnly, EveryYear, Instant, IsLeap, DayOf;
    if IsLeap(next) {
      t := Instant(next, 2, 29, h, m);
      LeapDayFires(c, next, h, m);
      LaterYear(first, t);
      WindowReaches(first, t);
    } else {
      assert CommonCentury(next) && !InGap(c, first, next);
      if first >= Instant(next - 1, 3, 1, 0, 0) {
        t := Instant(next + 4, 2, 29, h, m);
        LeapDayFires(c, next + 4, h, m);
        WindowEndsLate(first, next, h, m);
        LaterYear(first, t);
      } else {
        var h', m' :| h' in c.hour && m' in c.minute && Instant(next - 4, 2, 29, h', m') >= first;
        t := Instant(next - 4, 2, 29, h', m');
        LeapDayFires(c, next - 4, h', m');
        WindowReaches(first, t);
      }
    }
  }

  /** One of any four years is divisible by four; if it is not a leap year, its
      neighbours four years away are. */
  lemma FourYears(y: int)
    ensures var next := y + 4 - y % 4;
      y < next <= y + 4 && (IsLeap(next) || (CommonCentury(next) && IsLeap(next - 4) && IsLeap(next + 4)))
  {
    var n := y / 4 + 1;
    var next := y + 4 - y % 4;
    assert next == 4 * n;
    FourthYear(n);
  }

  lemma FourthYear(n: int)
    ensures IsLeap(4 * n) || (CommonCentury(4 * n) && IsLeap(4 * n - 4) && IsLeap(4 * n + 4))
  {
  }

  lemma LeapDayFiresAgain(c: Schedule, after: int, offset: int) returns (x: int)
    requires WellFormed(c) && LeapDayOnly(c)
    ensures after < x && FiresAt(c, x, offset)
  {
    hide Civil, Matches, Instant, LeapDayOnly, IsLeap, DayOf, FirstMinute, FiresAt, ToInstant;
    var first := FirstMinute(after, offset);
    var year := FourCenturies(Civil(DayOf(first)).year);
    var h := AnyOf(c.hour);
    var m := AnyOf(c.minute);
    var t := Instant(year, 2, 29, h, m);
    LeapDayFires(c, year, h, m);
    LaterYear(first, t);
    x := ToInstant(t, offset);
    FiresAtMinute(c, t, after, offset);
  }

  lemma FourCenturies(y: int) returns (year: int)
    ensures year > y && IsLeap(year)
  {
    year := (y / 400 + 1) * 400;
  }

  lemma FiresAtMinute(c: Schedule, t: int, after: int, offset: int)
    requires Matches(c, t) && FirstMinute(after, offset) <= t
    ensures after < ToInstant(t, offset) && FiresAt(c, ToInstant(t, offset), offset)
  {
    hide Matches;
    assert LocalMinute(ToInstant(t, offset), offset) == t;
  }

  /** A parsed schedule that finds nothing selects no date at all, or only the leap day
      around a common century year; it never fires again exactly in the first case. */
  lemma NothingFoundIff(c: Schedule, after: int, offset: int)
    requires WellFormed(c)
    ensures NextFire(c, after, offset) == None <==>
      Impossible(c) || (LeapDayOnly(c) && InCenturyGap(c, FirstMinute(after, offset)))
    ensures (forall x | after < x :: !FiresAt(c, x, offset)) <==> Impossible(c)
  {
    var first := FirstMinute(after, offset);
    if EveryYear(c) {
      EveryYearFires(c, after, offset);
    } else if Impossible(c) {
      forall t
        ensures !Matches(c, t)
      {
        ImpossibleNeverMatches(c, t);
      }
    } else {
      var x := LeapDayFiresAgain(c, after, offset);
      if InCenturyGap(c, first) {
        var century :| CommonCentury(century) && InGap(c, first, century);
        forall t | first <= t < AddYears(first, 5)
          ensures !Matches(c, t)
        {
          if Matches(c, t) {
            GapHoldsNoMatch(c, first, century, t);
          }
        }
      } else {
        OutsideTheGapFires(c, after, offset);
      }
    }
    hide NextFire, Matches, FiresAt, InCenturyGap, EveryYear;
    NextFireIsLeast(c, after, offset);
  }

  /** When `NextRun` answers that a trigger never fires again, that is so for every
      trigger and instant except a leap-day schedule in the gap. */
  lemma NeverIsForGoodIff(t: Trigger, after: int)
    requires NextRun(Some(t), after) == Never
    requires t.CronTrigger? && t.schedule.Some? ==> WellFormed(t.schedule.value)
    ensures (forall x | after < x :: !Names(t, x)) <==>
      !(t.CronTrigger? && LeapDayOnly(t.schedule.value)
        && InCenturyGap(t.schedule.value, FirstMinute(after, t.location.value)))
  {
    hide NextFire, FiresAt, InCenturyGap, LeapDayOnly, WellFormed;
    if t.CronTrigger? {
      var c, offset := t.schedule.value, t.location.value;
      CronNeverIsForGoodIff(c, after, offset);
      assert forall x :: Names(t, x) <==> FiresAt(c, x, offset);
    }
  }

  lemma CronNeverIsForGoodIff(c: Schedule, after: int, offset: int)
    requires WellFormed(c) && NextFire(c, after, offset) == None
    ensures (forall x | after < x :: !FiresAt(c, x, offset)) <==>
      !(LeapDayOnly(c) && InCenturyGap(c, FirstMinute(after, offset)))
  {
    hide NextFire, FiresAt, InCenturyGap, EveryYear, WellFormed;
    NothingFoundIff(c, after, offset);
  }

  /** `0 0 29 2 *` */
  function LeapDays(): Schedule {
    Schedule({0}, {0}, {29}, {2}, {0, 1, 2, 3, 4, 5, 6}, false, true)
  }

  /** The tick that claims 29 February 2096 leaves the automation without a next run,
      although its schedule fires on 29 February 2104. */
  lemma LeapDayScheduleEnds() returns (row: Row, later: int)
    ensures WellFormed(LeapDays()) && row.spec.trigger == Some(CronTrigger(Some(LeapDays()), Some(0)))
    ensures row.next.Some? && FiresAt(LeapDays(), row.next.value, 0) && IsDue(row, row.next.value)
    ensures TickWrite(row, true, row.next.value).next == None
    ensures later > row.next.value && FiresAt(LeapDays(), later, 0)
  {
    hide Instant, Matches, Civil, DayOf, LeapDayOnly, WellFormed, InCenturyGap, NextFire, EveryYear, FiresAt, LeapDays;
    var c := LeapDays();
    LeapDaysAreLeapDays();
    var s, t := Instant(2096, 2, 29, 0, 0), Instant(2104, 2, 29, 0, 0);
    LeapDayFires(c, 2096, 0, 0);
    LeapDayFires(c, 2104, 0, 0);
    LaterYear(s, t);
    var after := ToInstant(s, 0);
    later := ToInstant(t, 0);
    FiresAtMinute(c, s, after - 1, 0);
    FiresAtMinute(c, t, after, 0);
    StartsInTheGap();
    assert FirstMinute(after, 0) == s + 1;
    NothingFoundIff(c, after, 0);
    var spec := Spec("", Some(CronTrigger(Some(c), Some(0))), false);
    row := Row(Automation, spec, Active, Some(after), 1, 0, Person, None, false);
  }

  lemma LeapDaysAreLeapDays()
    ensures var c := LeapDays(); WellFormed(c) && LeapDayOnly(c) && 0 in c.hour && 0 in c.minute
    ensures IsLeap(2096) && IsLeap(2104)
  {
  }

  lemma StartsInTheGap()
    ensures InCenturyGap(LeapDays(), Instant(2096, 2, 29, 0, 0) + 1)
  {
    hide MonthStart;
    MonthStartGrows(12 * 2096 + 1, 12 * 2096 + 2);
    MonthStartGrows(12 * 2096 + 2, 12 * 2099 + 2);
    MonthStep(12 * 2096 + 1);
    assert CommonCentury(2100) && InGap(LeapDays(), Instant(2096, 2, 29, 0, 0) + 1, 2100);
  }
}
