/**
 The proleptic Gregorian calendar as `time.Time` presents it in a location with
 a constant offset.  A local instant is a number of minutes; minute 0 is
 1970-01-01 00:00.  Months are numbered consecutively: month index `k` is month
 `k % 12 + 1` of year `k / 12`.
 */
module Calendar {

  const MINUTES_PER_DAY := 1440

  datatype Date = Date(year: int, month: int, day: int)

  predicate IsLeap(year: int) {
    year % 4 == 0 && (year % 100 != 0 || year % 400 == 0)
  }

  function DaysIn(year: int, month: int): int
    requires 1 <= month <= 12
  {
    if month == 2 then (if IsLeap(year) then 29 else 28)
    else if month == 4 || month == 6 || month == 9 || month == 11 then 30
    else 31
  }

  predicate ValidDate(d: Date) {
    1 <= d.month <= 12 && 1 <= d.day <= DaysIn(d.year, d.month)
  }

  function MonthLength(k: int): (n: int)
    ensures 28 <= n <= 31
  {
    DaysIn(k / 12, k % 12 + 1)
  }

  const EPOCH_MONTH := 12 * 1970

  /** Day number of the first day of month index `k`, counted month by month
      from January 1970. */
  function MonthStart(k: int): int
    decreases if k < EPOCH_MONTH then EPOCH_MONTH - k else k - EPOCH_MONTH
  {
    if k == EPOCH_MONTH then 0
    else if k > EPOCH_MONTH then MonthStart(k - 1) + MonthLength(k - 1)
    else MonthStart(k + 1) - MonthLength(k)
  }

  function MonthIndex(year: int, month: int): int {
    12 * year + month - 1
  }

  lemma MonthStep(k: int)
    ensures MonthStart(k + 1) == MonthStart(k) + MonthLength(k)
  {
  }

  lemma {:induction false} MonthStartGrows(k: int, l: int)
    requires k <= l
    ensures MonthStart(k) + 28 * (l - k) <= MonthStart(l)
    decreases l - k
  {
    hide MonthStart, MonthLength;
    if k < l {
      MonthStartGrows(k, l - 1);
      MonthStep(l - 1);
    }
  }

  /** The month index a day belongs to: a search from an estimate. */
  function MonthOf(day: int): (k: int)
    ensures MonthStart(k) <= day < MonthStart(k + 1)
  {
    FindMonth(day, EPOCH_MONTH + day / 31)
  }

  function FindMonth(day: int, k: int): (r: int)
    ensures MonthStart(r) <= day < MonthStart(r + 1)
    decreases if day < MonthStart(k) then MonthStart(k) - day else 0,
              if day >= MonthStart(k) then day - MonthStart(k) else 0
  {
    hide MonthStart, MonthLength;
    MonthStep(k);
    MonthStep(k - 1);
    if day < MonthStart(k) then FindMonth(day, k - 1)
    else if day >= MonthStart(k + 1) then FindMonth(day, k + 1)
    else k
  }

  lemma MonthOfUnique(day: int, k: int)
    requires MonthStart(k) <= day < MonthStart(k + 1)
    ensures MonthOf(day) == k
  {
    hide MonthStart;
    var r := MonthOf(day);
    if r < k {
      MonthStartGrows(r + 1, k);
    } else if k < r {
      MonthStartGrows(k + 1, r);
    }
  }

  /** `t.Date()`: the civil date of a day number. */
  function Civil(day: int): (d: Date)
  {
    var k := MonthOf(day);
    Date(k / 12, k % 12 + 1, day - MonthStart(k) + 1)
  }

  /** `time.Date(year, month, day, ...)` counted in days: any month and any day
      are accepted, the excess carries into the next unit. */
  function DayNumber(year: int, month: int, day: int): int {
    MonthStart(MonthIndex(year, month)) + day - 1
  }

  /** `time.Date(year, month, day, hour, minute, ...)` with overflow carried. */
  function Instant(year: int, month: int, day: int, hour: int, minute: int): int {
    DayNumber(year, month, day) * MINUTES_PER_DAY + hour * 60 + minute
  }

  /** `t.Weekday()`: 0 is Sunday; 1970-01-01 was a Thursday. */
  function Weekday(day: int): (w: int)
    ensures 0 <= w <= 6
  {
    (day + 4) % 7
  }

  lemma CivilIsValid(day: int)
    ensures ValidDate(Civil(day))
    ensures DayNumber(Civil(day).year, Civil(day).month, Civil(day).day) == day
  {
    hide MonthStart;
    var k := MonthOf(day);
    MonthStep(k);
    assert MonthIndex(k / 12, k % 12 + 1) == k;
  }

  /** Civil dates and day numbers are in bijection. */
  lemma CivilRoundTrip(d: Date)
    requires ValidDate(d)
    ensures Civil(DayNumber(d.year, d.month, d.day)) == d
  {
    var k := MonthIndex(d.year, d.month);
    assert k / 12 == d.year && k % 12 + 1 == d.month;
    MonthStep(k);
    MonthOfUnique(DayNumber(d.year, d.month, d.day), k);
  }

  /** The day after a date, by the rules of the wall calendar alone. */
  function Tomorrow(d: Date): Date
    requires ValidDate(d)
  {
    if d.day < DaysIn(d.year, d.month) then d.(day := d.day + 1)
    else if d.month < 12 then Date(d.year, d.month + 1, 1)
    else Date(d.year + 1, 1, 1)
  }

  /** The arithmetic agrees with walking the calendar a day at a time. */
  lemma CivilSuccessor(day: int)
    ensures ValidDate(Civil(day)) && Civil(day + 1) == Tomorrow(Civil(day))
  {
    hide MonthStart, DaysIn;
    CivilIsValid(day);
    var k := MonthOf(day);
    MonthStep(k);
    if day + 1 < MonthStart(k + 1) {
      MonthOfUnique(day + 1, k);
    } else {
      MonthStep(k + 1);
      MonthOfUnique(day + 1, k + 1);
      NextMonth(k);
    }
  }

  lemma NextMonth(k: int)
    ensures (k + 1) / 12 == (if k % 12 == 11 then k / 12 + 1 else k / 12)
    ensures (k + 1) % 12 == (if k % 12 == 11 then 0 else k % 12 + 1)
  {
  }

  /** Day number of 1 January, in closed form. */
  function YearStart(year: int): int {
    365 * (year - 1970) + (year - 1) / 4 - (year - 1) / 100 + (year - 1) / 400 - 477
  }

  /** Days of the year before the month: the cumulative table of package time. */
  function DaysBefore(year: int, month: int): int
    requires 1 <= month <= 12
  {
    [0, 31, 59, 90, 120, 151, 181, 212, 243, 273, 304, 334][month - 1]
    + (if month > 2 && IsLeap(year) then 1 else 0)
  }

  /** Counting month by month gives the closed form with the 4/100/400 rule. */
  lemma {:induction false} MonthStartClosedForm(k: int)
    ensures MonthStart(k) == YearStart(k / 12) + DaysBefore(k / 12, k % 12 + 1)
    decreases if k < EPOCH_MONTH then EPOCH_MONTH - k else k - EPOCH_MONTH
  {
    if k > EPOCH_MONTH {
      MonthStartClosedForm(k - 1);
      ClosedFormStep(k - 1);
    } else if k < EPOCH_MONTH {
      MonthStartClosedForm(k + 1);
      ClosedFormStep(k);
    }
  }

  lemma ClosedFormStep(k: int)
    ensures YearStart((k + 1) / 12) + DaysBefore((k + 1) / 12, (k + 1) % 12 + 1)
         == YearStart(k / 12) + DaysBefore(k / 12, k % 12 + 1) + MonthLength(k)
  {
    YearStep(k / 12);
    NextMonth(k);
  }

  lemma YearStep(year: int)
    ensures YearStart(year + 1) == YearStart(year) + (if IsLeap(year) then 366 else 365)
  {
    QuotientStep(year, 4);
    QuotientStep(year, 100);
    QuotientStep(year, 400);
  }

  lemma QuotientStep(n: int, d: int)
    requires d == 4 || d == 100 || d == 400
    ensures n / d == (n - 1) / d + (if n % d == 0 then 1 else 0)
  {
  }

  /** The day number of a date, in closed form. */
  function DaysSinceEpoch(d: Date): int
    requires ValidDate(d)
  {
    YearStart(d.year) + DaysBefore(d.year, d.month) + d.day - 1
  }

  lemma DayNumberClosedForm(d: Date)
    requires ValidDate(d)
    ensures DayNumber(d.year, d.month, d.day) == DaysSinceEpoch(d)
  {
    var k := MonthIndex(d.year, d.month);
    MonthStartClosedForm(k);
    hide MonthStart, YearStart, DaysBefore;
    assert k / 12 == d.year && k % 12 + 1 == d.month;
  }

  const WEEKDAY_SHIFTS := [0, 3, 2, 5, 0, 3, 5, 1, 4, 6, 2, 4]

  /** The weekday of a date by the month table, years counted from March: 0 is Sunday. */
  function WeekdayOfDate(d: Date): int
    requires ValidDate(d)
  {
    var y := if d.month < 3 then d.year - 1 else d.year;
    (y + y / 4 - y / 100 + y / 400 + WEEKDAY_SHIFTS[d.month - 1] + d.day) % 7
  }

  /** The day of the week counted from the epoch is the Gregorian weekday of the date. */
  lemma WeekdayOfDayNumber(d: Date)
    requires ValidDate(d)
    ensures Weekday(DayNumber(d.year, d.month, d.day)) == WeekdayOfDate(d)
  {
    hide DayNumber, DaysIn, MonthStart;
    DayNumberClosedForm(d);
    var y, m := d.year, d.month;
    var z := if m < 3 then y - 1 else y;
    LeapDaysBefore(y);
    hide IsLeap, ValidDate;
    var days := [0, 31, 59, 90, 120, 151, 181, 212, 243, 273, 304, 334][m - 1];
    var t := ShiftsAreWholeWeeks(m, days);
    var b := z + LeapDaysUpTo(z) + WEEKDAY_SHIFTS[m - 1] + d.day;
    assert DaysSinceEpoch(d) + 4 == b + 7 * (52 * y - 102789 + t);
    SameRemainder(b, 52 * y - 102789 + t);
  }

  /** Leap days up to the end of the year. */
  function LeapDaysUpTo(y: int): int {
    y / 4 - y / 100 + y / 400
  }

  lemma LeapDaysBefore(y: int)
    ensures LeapDaysUpTo(y) == LeapDaysUpTo(y - 1) + (if IsLeap(y) then 1 else 0)
  {
    QuotientStep(y, 4);
    QuotientStep(y, 100);
    QuotientStep(y, 400);
  }

  lemma ShiftsAreWholeWeeks(m: int, days: int) returns (weeks: int)
    requires 1 <= m <= 12 && days == [0, 31, 59, 90, 120, 151, 181, 212, 243, 273, 304, 334][m - 1]
    ensures days - WEEKDAY_SHIFTS[m - 1] == 7 * weeks + (if m < 3 then 0 else 1)
  {
    weeks := (days - WEEKDAY_SHIFTS[m - 1]) / 7;
  }

  lemma SameRemainder(b: int, k: int)
    ensures (b + 7 * k) % 7 == b % 7
  {
  }

  /** The calendar, weekdays included, repeats every 400 years. */
  lemma GregorianCycle(day: int)
    ensures Civil(day + 146097) == Civil(day).(year := Civil(day).year + 400)
    ensures Weekday(day + 146097) == Weekday(day)
  {
    hide MonthStart;
    var k := MonthOf(day);
    CycleOfMonths(k);
    CycleOfMonths(k + 1);
    MonthOfUnique(day + 146097, k + 4800);
  }

  lemma CycleOfMonths(k: int)
    ensures MonthStart(k + 4800) == MonthStart(k) + 146097
  {
    MonthStartClosedForm(k);
    MonthStartClosedForm(k + 4800);
    hide MonthStart, IsLeap;
    assert (k + 4800) / 12 == k / 12 + 400 && (k + 4800) % 12 == k % 12;
    LeapCycle(k / 12);
  }

  lemma LeapCycle(y: int)
    ensures YearStart(y + 400) == YearStart(y) + 146097 && IsLeap(y + 400) == IsLeap(y)
  {
    assert (y + 399) / 4 == (y - 1) / 4 + 100;
    assert (y + 399) / 100 == (y - 1) / 100 + 4;
    assert (y + 399) / 400 == (y - 1) / 400 + 1;
  }

  // ---- fields of a local minute ----

  function DayOf(t: int): int { t / MINUTES_PER_DAY }

  function HourOf(t: int): (h: int)
    ensures 0 <= h <= 23
  {
    t % MINUTES_PER_DAY / 60
  }

  function MinuteOf(t: int): (m: int)
    ensures 0 <= m <= 59
  {
    t % 60
  }

  lemma MinuteSplit(t: int)
    ensures t == DayOf(t) * MINUTES_PER_DAY + HourOf(t) * 60 + MinuteOf(t)
  {
    var r := t % MINUTES_PER_DAY;
    assert r % 60 == t % 60;
  }

  lemma FieldsOfMinute(day: int, h: int, m: int)
    requires 0 <= h <= 23 && 0 <= m <= 59
    ensures var t := day * MINUTES_PER_DAY + h * 60 + m; DayOf(t) == day && HourOf(t) == h && MinuteOf(t) == m
  {
    var t := day * MINUTES_PER_DAY + h * 60 + m;
    assert t / MINUTES_PER_DAY == day && t % MINUTES_PER_DAY == h * 60 + m;
    assert t == 60 * (24 * day + h) + m;
  }

  /** `t.AddDate(years, 0, 0)`. */
  function AddYears(t: int, years: int): int {
    var d := Civil(DayOf(t));
    Instant(d.year + years, d.month, d.day, HourOf(t), MinuteOf(t))
  }

  /** The sortable wall-clock key. */
  function Wall(t: int): int {
    WallKey(Civil(DayOf(t)), HourOf(t), MinuteOf(t))
  }

  function WallKey(d: Date, hour: int, minute: int): int {
    d.year * 100000000 + d.month * 1000000 + d.day * 10000 + hour * 100 + minute
  }

  lemma CivilMonotone(a: int, b: int)
    requires a < b
    ensures var c, d := Civil(a), Civil(b);
      ValidDate(c) && ValidDate(d) &&
      c.year * 10000 + c.month * 100 + c.day < d.year * 10000 + d.month * 100 + d.day
  {
    CivilIsValid(a);
    CivilIsValid(b);
    MonthsInOrder(a, b);
    hide MonthStart, DaysIn;
    if MonthOf(a) < MonthOf(b) {
      MonthKey(MonthOf(a), MonthOf(b));
      hide Civil;
      DayIsShort(Civil(a));
    }
  }

  lemma MonthsInOrder(a: int, b: int)
    requires a < b
    ensures MonthOf(a) <= MonthOf(b)
  {
    hide MonthStart;
    if MonthOf(b) < MonthOf(a) {
      MonthStartGrows(MonthOf(b) + 1, MonthOf(a));
    }
  }

  lemma DayIsShort(d: Date)
    requires ValidDate(d)
    ensures 1 <= d.day <= 31
  {
  }

  lemma MonthKey(k: int, l: int)
    requires k < l
    ensures k / 12 * 10000 + k % 12 * 100 + 100 <= l / 12 * 10000 + l % 12 * 100
  {
    if k / 12 < l / 12 {
      assert k / 12 * 10000 + 10000 <= l / 12 * 10000;
    }
  }

  /** In a fixed-offset location the wall-clock key orders minutes as time does. */
  lemma WallMonotone(s: int, t: int)
    requires s < t
    ensures Wall(s) < Wall(t)
  {
    hide Civil, HourOf, MinuteOf, WallKey;
    var a, b := DayOf(s), DayOf(t);
    if a == b {
      MinuteSplit(s);
      MinuteSplit(t);
      WallKeySameDay(Civil(a), HourOf(s), MinuteOf(s), HourOf(t), MinuteOf(t));
    } else {
      CivilMonotone(a, b);
      WallKeyLaterDay(Civil(a), Civil(b), HourOf(s), MinuteOf(s), HourOf(t), MinuteOf(t));
    }
  }

  lemma WallKeySameDay(d: Date, h: int, m: int, h': int, m': int)
    requires 0 <= m <= 59 && 0 <= m' <= 59 && h * 60 + m < h' * 60 + m'
    ensures WallKey(d, h, m) < WallKey(d, h', m')
  {
  }

  lemma WallKeyLaterDay(d: Date, d': Date, h: int, m: int, h': int, m': int)
    requires 0 <= h <= 23 && 0 <= m <= 59 && 0 <= h' && 0 <= m'
    requires d.year * 10000 + d.month * 100 + d.day < d'.year * 10000 + d'.month * 100 + d'.day
    ensures WallKey(d, h, m) < WallKey(d', h', m')
  {
  }
}
