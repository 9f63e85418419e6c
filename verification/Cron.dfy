/**
 Five-field cron schedules in a fixed-offset location.  An instant is a count of
 nanoseconds, a local minute is an instant's minute plus the offset in minutes.
 Each field is the set of values whose bit is on in the source's 64-bit word.
 */
module Cron {
  import opened Wrappers
  import opened Calendar

  const MINUTE := 60_000_000_000
  const MAX_DURATION := 0x7fff_ffff_ffff_ffff

  datatype Schedule = Schedule(minute: set<int>, hour: set<int>, dom: set<int>, month: set<int>, dow: set<int>,
                       domStar: bool, dowStar: bool)

  /** Every field selects something inside its range, and a star selects everything. */
  ghost predicate WellFormed(c: Schedule) {
    && c.minute != {} && c.hour != {} && c.dom != {} && c.month != {} && c.dow != {}
    && (forall v | v in c.minute :: 0 <= v <= 59)
    && (forall v | v in c.hour :: 0 <= v <= 23)
    && (forall v | v in c.dom :: 1 <= v <= 31)
    && (forall v | v in c.month :: 1 <= v <= 12)
    && (forall v | v in c.dow :: 0 <= v <= 6)
    && (c.domStar ==> forall v | 1 <= v <= 31 :: v in c.dom)
    && (c.dowStar ==> forall v | 0 <= v <= 6 :: v in c.dow)
  }

  /** Either day field suffices unless one of them is a star. */
  predicate DayMatches(c: Schedule, day: int) {
    var d := Civil(day).day in c.dom;
    var w := Weekday(day) in c.dow;
    if c.domStar || c.dowStar then d && w else d || w
  }

  predicate MonthMatches(c: Schedule, day: int) {
    Civil(day).month in c.month
  }

  /** The local minute satisfies every field. */
  predicate Matches(c: Schedule, t: int) {
    && MonthMatches(c, DayOf(t))
    && DayMatches(c, DayOf(t))
    && HourOf(t) in c.hour
    && MinuteOf(t) in c.minute
  }

  // ---- the reference: a minute-by-minute scan ----

  function Scan(c: Schedule, lo: int, hi: int): Option<int>
    decreases hi - lo
  {
    if lo >= hi then None
    else if Matches(c, lo) then Some(lo)
    else Scan(c, lo + 1, hi)
  }

  ghost predicate IsLeastMatch(c: Schedule, lo: int, hi: int, r: Option<int>) {
    match r
    case None => forall t | lo <= t < hi :: !Matches(c, t)
    case Some(t) => lo <= t < hi && Matches(c, t) && forall s | lo <= s < t :: !Matches(c, s)
  }

  lemma {:induction false} ScanIsLeast(c: Schedule, lo: int, hi: int)
    ensures IsLeastMatch(c, lo, hi, Scan(c, lo, hi))
    decreases hi - lo
  {
    hide Matches;
    if lo < hi && !Matches(c, lo) {
      ScanIsLeast(c, lo + 1, hi);
    }
  }

  lemma {:induction false} ScanSkips(c: Schedule, lo: int, mid: int, hi: int)
    requires lo <= mid
    requires forall t | lo <= t < mid :: !Matches(c, t)
    ensures Scan(c, lo, hi) == Scan(c, mid, hi)
    decreases mid - lo
  {
    hide Matches;
    if lo < mid {
      ScanSkips(c, lo + 1, mid, hi);
    }
  }

  // ---- Next ----

  function LocalMinute(instant: int, offset: int): int {
    instant / MINUTE + offset
  }

  function ToInstant(t: int, offset: int): int {
    (t - offset) * MINUTE
  }

  /** The first local minute that can fire after the instant. */
  function FirstMinute(after: int, offset: int): int {
    LocalMinute(after, offset) + 1
  }

  /** The instant `Next` has to return: the least match of its five-year window. */
  function NextFire(c: Schedule, after: int, offset: int): Option<int> {
    var t := FirstMinute(after, offset);
    match Scan(c, t, AddYears(t, 5))
    case None => None
    case Some(s) => Some(ToInstant(s, offset))
  }

  /** `t.Truncate(time.Hour)`. */
  function TruncateHour(t: int): int {
    t / 60 * 60
  }

  /** The jumping search: by month, by day, by hour, by minute. */
  method Next(c: Schedule, after: int, offset: int) returns (r: Option<int>)
    ensures r == NextFire(c, after, offset)
  {
    hide Scan, Matches, AddYears, Instant, Civil, Wall;
    var t := after / MINUTE + offset + 1;
    var limit := AddYears(t, 5);
    ghost var first := t;
    while t < limit
      invariant first <= t
      invariant Scan(c, first, limit) == Scan(c, t, limit)
      decreases limit - t
    {
      var d := Civil(DayOf(t));
      if d.month !in c.month {
        SkipMonth(c, t, limit);
        t := Instant(d.year, d.month + 1, 1, 0, 0);
        continue;
      }
      if !DayMatches(c, DayOf(t)) {
        SkipDay(c, t, limit);
        t := Instant(d.year, d.month, d.day + 1, 0, 0);
        continue;
      }
      if HourOf(t) !in c.hour {
        SkipHour(c, t, limit);
        var n := Instant(d.year, d.month, d.day, HourOf(t) + 1, 0);
        if n <= t {
          n := TruncateHour(t + 60);
        }
        t := n;
        continue;
      }
      if MinuteOf(t) !in c.minute {
        SkipMinute(c, t, limit);
        t := t + 1;
        continue;
      }
      FoundMatch(c, t, limit);
      LaterThan(t, after, offset);
      if ToInstant(t, offset) > after && Wall(t) > Wall(LocalMinute(after, offset)) {
        return Some(ToInstant(t, offset));
      }
      t := t + 1;
    }
    EmptyScan(c, t, limit);
    return None;
  }

  lemma EmptyScan(c: Schedule, lo: int, hi: int)
    requires lo >= hi
    ensures Scan(c, lo, hi) == None
  {
  }

  lemma FoundMatch(c: Schedule, t: int, limit: int)
    requires t < limit
    requires MonthMatches(c, DayOf(t)) && DayMatches(c, DayOf(t)) && HourOf(t) in c.hour && MinuteOf(t) in c.minute
    ensures Scan(c, t, limit) == Some(t)
  {
    assert Matches(c, t);
  }

  /** Every candidate lies after the given instant, on the clock and on the wall. */
  lemma LaterThan(t: int, after: int, offset: int)
    requires t >= FirstMinute(after, offset)
    ensures ToInstant(t, offset) > after
    ensures Wall(t) > Wall(LocalMinute(after, offset))
  {
    hide Wall;
    WallMonotone(LocalMinute(after, offset), t);
  }

  lemma SkipMonth(c: Schedule, t: int, limit: int)
    requires !MonthMatches(c, DayOf(t))
    ensures var d := Civil(DayOf(t));
      var n := Instant(d.year, d.month + 1, 1, 0, 0);
      t < n && Scan(c, t, limit) == Scan(c, n, limit)
  {
    hide MonthStart, Scan, DayMatches, HourOf, MinuteOf;
    var k := MonthOf(DayOf(t));
    var n := MonthStart(k + 1) * MINUTES_PER_DAY;
    assert MonthIndex(k / 12, k % 12 + 1 + 1) == k + 1;
    forall s | t <= s < n
      ensures !Matches(c, s)
    {
      MonthOfUnique(DayOf(s), k);
    }
    ScanSkips(c, t, n, limit);
  }

  lemma SkipDay(c: Schedule, t: int, limit: int)
    requires !DayMatches(c, DayOf(t))
    ensures var d := Civil(DayOf(t));
      var n := Instant(d.year, d.month, d.day + 1, 0, 0);
      t < n && Scan(c, t, limit) == Scan(c, n, limit)
  {
    CivilIsValid(DayOf(t));
    hide Civil, MonthStart, Scan, DayMatches, MonthMatches, HourOf, MinuteOf;
    var n := (DayOf(t) + 1) * MINUTES_PER_DAY;
    forall s | t <= s < n
      ensures !Matches(c, s)
    {
      assert DayOf(s) == DayOf(t);
    }
    ScanSkips(c, t, n, limit);
  }

  lemma SkipHour(c: Schedule, t: int, limit: int)
    requires HourOf(t) !in c.hour
    ensures var d := Civil(DayOf(t));
      var n := Instant(d.year, d.month, d.day, HourOf(t) + 1, 0);
      t < n && Scan(c, t, limit) == Scan(c, n, limit)
  {
    CivilIsValid(DayOf(t));
    hide Civil, MonthStart, Scan, DayMatches, MonthMatches, MinuteOf;
    MinuteSplit(t);
    var n := DayOf(t) * MINUTES_PER_DAY + (HourOf(t) + 1) * 60;
    forall s | t <= s < n
      ensures !Matches(c, s)
    {
      SameHour(t, s);
    }
    ScanSkips(c, t, n, limit);
  }

  lemma SameHour(t: int, s: int)
    requires t <= s < DayOf(t) * MINUTES_PER_DAY + (HourOf(t) + 1) * 60
    ensures DayOf(s) == DayOf(t) && HourOf(s) == HourOf(t)
  {
    MinuteSplit(t);
  }

  lemma SkipMinute(c: Schedule, t: int, limit: int)
    requires MinuteOf(t) !in c.minute
    ensures Scan(c, t, limit) == Scan(c, t + 1, limit)
  {
    ScanSkips(c, t, t + 1, limit);
  }

  // ---- what NextFire means ----

  /** The instant is the start of a local minute that matches. */
  predicate FiresAt(c: Schedule, instant: int, offset: int) {
    instant % MINUTE == 0 && Matches(c, LocalMinute(instant, offset))
  }

  ghost predicate InWindow(x: int, after: int, offset: int) {
    after < x && LocalMinute(x, offset) < AddYears(FirstMinute(after, offset), 5)
  }

  /** `Next` returns the least firing instant strictly after `after` within five
      calendar years, and nothing exactly when that window holds none. */
  lemma NextFireIsLeast(c: Schedule, after: int, offset: int)
    ensures match NextFire(c, after, offset)
      case None => forall x | InWindow(x, after, offset) :: !FiresAt(c, x, offset)
      case Some(f) => InWindow(f, after, offset) && FiresAt(c, f, offset)
                      && forall x | after < x < f :: !FiresAt(c, x, offset)
  {
    hide Scan, Matches, AddYears;
    var t := FirstMinute(after, offset);
    ScanIsLeast(c, t, AddYears(t, 5));
    forall x | after < x && FiresAt(c, x, offset)
      ensures t <= LocalMinute(x, offset) && x == ToInstant(LocalMinute(x, offset), offset)
    {
    }
  }

  // ---- what a firing is, by date and clock alone ----

  datatype Moment = Moment(date: Date, hour: int, minute: int)

  predicate ValidMoment(w: Moment) {
    ValidDate(w.date) && 0 <= w.hour <= 23 && 0 <= w.minute <= 59
  }

  /** The instant at which local clocks, `offset` minutes ahead of UTC, show the moment. */
  function InstantOf(w: Moment, offset: int): int
    requires ValidMoment(w)
  {
    (DaysSinceEpoch(w.date) * 1440 + w.hour * 60 + w.minute - offset) * MINUTE
  }

  /** The moment satisfies the five fields: both day fields when one is a star, either when none is. */
  predicate Selects(c: Schedule, w: Moment)
    requires ValidMoment(w)
  {
    var byDate := w.date.day in c.dom;
    var byWeekday := WeekdayOfDate(w.date) in c.dow;
    && w.minute in c.minute && w.hour in c.hour && w.date.month in c.month
    && (byDate || byWeekday) && (c.domStar || c.dowStar ==> byDate && byWeekday)
  }

  ghost predicate ShowsSelected(c: Schedule, x: int, offset: int, w: Moment) {
    ValidMoment(w) && x == InstantOf(w, offset) && Selects(c, w)
  }

  /** A schedule fires at exactly the instants at which local clocks show a selected moment. */
  lemma FiresAtSelectedMoments(c: Schedule, x: int, offset: int)
    ensures FiresAt(c, x, offset) <==> exists w :: ShowsSelected(c, x, offset, w)
  {
    if FiresAt(c, x, offset) {
      var t := LocalMinute(x, offset);
      var w := Moment(Civil(DayOf(t)), HourOf(t), MinuteOf(t));
      CivilIsValid(DayOf(t));
      MomentOfMinute(c, w, t);
      MinuteSplit(t);
      DayNumberClosedForm(w.date);
      hide Civil, DayNumber, Matches, Selects, DaysSinceEpoch, HourOf, MinuteOf;
      assert ShowsSelected(c, x, offset, w);
    }
    forall w | ShowsSelected(c, x, offset, w)
      ensures FiresAt(c, x, offset)
    {
      var t := DaysSinceEpoch(w.date) * 1440 + w.hour * 60 + w.minute;
      FieldsOfMinute(DaysSinceEpoch(w.date), w.hour, w.minute);
      DayNumberClosedForm(w.date);
      CivilRoundTrip(w.date);
      MomentOfMinute(c, w, t);
      hide Civil, DayNumber, Matches, Selects, DaysSinceEpoch, HourOf, MinuteOf;
      assert LocalMinute(x, offset) == t;
    }
  }

  lemma MomentOfMinute(c: Schedule, w: Moment, t: int)
    requires ValidMoment(w) && Civil(DayOf(t)) == w.date && HourOf(t) == w.hour && MinuteOf(t) == w.minute
    ensures Matches(c, t) <==> Selects(c, w)
  {
    CivilIsValid(DayOf(t));
    WeekdayOfDayNumber(w.date);
    hide Civil, DayNumber, Weekday, WeekdayOfDate;
  }

  /** `Next` returns the first instant after the given one at which local clocks show a
      selected moment, and nothing exactly when the window holds no such instant. */
  lemma NextIsFirstSelectedMoment(c: Schedule, after: int, offset: int)
    ensures match NextFire(c, after, offset)
      case Some(f) => after < f && (exists w :: ShowsSelected(c, f, offset, w))
                      && forall x, w | after < x && ShowsSelected(c, x, offset, w) :: f <= x
      case None => forall x, w | ShowsSelected(c, x, offset, w) :: !InWindow(x, after, offset)
  {
    NextFireIsLeast(c, after, offset);
    hide NextFire, FiresAt, ShowsSelected, InWindow;
    forall x, w | ShowsSelected(c, x, offset, w)
      ensures FiresAt(c, x, offset)
    {
      FiresAtSelectedMoments(c, x, offset);
    }
    if NextFire(c, after, offset).Some? {
      NextFireBasics(c, after, offset);
      FiresAtSelectedMoments(c, NextFire(c, after, offset).value, offset);
    }
  }

  /** A day no month has, such as 30 February, is searched for in vain. */
  lemma ImpossibleDayNeverFires(c: Schedule, after: int, offset: int)
    requires c.domStar || c.dowStar
    requires forall m, d | m in c.month && d in c.dom && 1 <= m <= 12 :: d > (if m == 2 then 29 else DaysIn(0, m))
    ensures NextFire(c, after, offset) == None
  {
    var t := FirstMinute(after, offset);
    ScanIsLeast(c, t, AddYears(t, 5));
    hide Scan, AddYears, Civil;
    forall s
      ensures !Matches(c, s)
    {
      CivilIsValid(DayOf(s));
    }
  }

  /** The window ends on the same date five years on; 29 February carries to 1 March. */
  lemma WindowEnd(t: int)
    ensures var d := Civil(DayOf(t));
      Civil(DayOf(AddYears(t, 5))) ==
        if ValidDate(d.(year := d.year + 5)) then d.(year := d.year + 5) else Date(d.year + 5, 3, 1)
    ensures HourOf(AddYears(t, 5)) == HourOf(t) && MinuteOf(AddYears(t, 5)) == MinuteOf(t)
  {
    var d := Civil(DayOf(t));
    hide Civil, MonthStart, HourOf, MinuteOf, DayOf;
    CivilIsValid(DayOf(t));
    var later := d.(year := d.year + 5);
    FieldsOfMinute(DayNumber(later.year, later.month, later.day), HourOf(t), MinuteOf(t));
    if ValidDate(later) {
      CivilRoundTrip(later);
    } else {
      MonthStep(MonthIndex(d.year + 5, 2));
      CivilRoundTrip(Date(d.year + 5, 3, 1));
    }
  }

  // ---- consecutive fires and MinGap ----

  /** At most `n` fires, each the `Next` of the one before. */
  function Fires(c: Schedule, after: int, offset: int, n: nat): seq<int>
    decreases n
  {
    if n == 0 then []
    else match NextFire(c, after, offset)
      case None => []
      case Some(f) => [f] + Fires(c, f, offset, n - 1)
  }

  /** Iterating `Next` lists the firing instants in order and omits none. */
  lemma {:induction false} FiresEnumerate(c: Schedule, after: int, offset: int, n: nat)
    decreases n
    ensures var fs := Fires(c, after, offset, n);
      && (forall i | 0 <= i < |fs| :: after < fs[i] && FiresAt(c, fs[i], offset))
      && (forall i, j | 0 <= i < j < |fs| :: fs[i] < fs[j])
      && (fs != [] ==> forall x | after < x <= fs[|fs| - 1] && FiresAt(c, x, offset) :: x in fs)
  {
    hide NextFire, FiresAt, InWindow;
    if n > 0 && NextFire(c, after, offset).Some? {
      NextFireBasics(c, after, offset);
      var f := NextFire(c, after, offset).value;
      var rest := Fires(c, f, offset, n - 1);
      FiresEnumerate(c, f, offset, n - 1);
      var fs := [f] + rest;
      assert rest != [] ==> fs[|fs| - 1] == rest[|rest| - 1];
      forall x | after < x <= fs[|fs| - 1] && FiresAt(c, x, offset)
        ensures x in fs
      {
        if x > f {
          assert x in rest;
        }
      }
    }
  }

  lemma NextFireBasics(c: Schedule, after: int, offset: int)
    requires NextFire(c, after, offset).Some?
    ensures var f := NextFire(c, after, offset).value;
      after < f && FiresAt(c, f, offset) && forall x | after < x < f :: !FiresAt(c, x, offset)
  {
    hide NextFire, FiresAt;
    NextFireIsLeast(c, after, offset);
  }

  /** Least distance between neighbours; the largest duration when there is no pair. */
  function LeastStep(fs: seq<int>): int {
    if |fs| <= 1 then MAX_DURATION
    else
      var g := fs[|fs| - 1] - fs[|fs| - 2];
      var least := LeastStep(fs[..|fs| - 1]);
      if g < least then g else least
  }

  method MinGap(c: Schedule, from: int, offset: int, samples: nat) returns (gap: int)
    ensures var fs := Fires(c, from, offset, samples + 1);
      gap == if fs == [] then 0 else LeastStep(fs)
  {
    hide NextFire;
    var first := Next(c, from, offset);
    if first.None? {
      return 0;
    }
    var prev := first.value;
    gap := MAX_DURATION;
    ghost var all := Fires(c, from, offset, samples + 1);
    ghost var done := [prev];
    var i := 0;
    while i < samples
      invariant 0 <= i <= samples
      invariant done != [] && prev == done[|done| - 1]
      invariant all == done + Fires(c, prev, offset, samples - i)
      invariant gap == LeastStep(done)
    {
      var n := Next(c, prev, offset);
      if n.None? {
        break;
      }
      assert (done + [n.value])[..|done|] == done;
      done := done + [n.value];
      if n.value - prev < gap {
        gap := n.value - prev;
      }
      prev := n.value;
      i := i + 1;
    }
    assert all == done;
  }

  ghost predicate Increasing(fs: seq<int>) {
    forall i, j | 0 <= i < j < |fs| :: fs[i] < fs[j]
  }

  /** No two sampled fires, neighbours or not, are closer than `LeastStep`. */
  lemma {:induction false} LeastStepBounds(fs: seq<int>, i: nat, j: nat)
    requires Increasing(fs) && i < j < |fs|
    ensures LeastStep(fs) <= fs[j] - fs[i]
  {
    var shorter := fs[..|fs| - 1];
    if j < |fs| - 1 {
      LeastStepBounds(shorter, i, j);
    } else if i < j - 1 {
      LeastStepBounds(shorter, i, j - 1);
    }
  }

  /** Unless it is the "no pair" value, the least step is the distance of two neighbours. */
  lemma {:induction false} LeastStepAttained(fs: seq<int>)
    ensures LeastStep(fs) == MAX_DURATION
         || exists i :: 0 <= i < |fs| - 1 && LeastStep(fs) == fs[i + 1] - fs[i]
  {
    if |fs| > 1 {
      var shorter := fs[..|fs| - 1];
      LeastStepAttained(shorter);
      if fs[|fs| - 1] - fs[|fs| - 2] < LeastStep(shorter) {
        assert LeastStep(fs) == fs[|fs| - 2 + 1] - fs[|fs| - 2];
      } else if LeastStep(shorter) != MAX_DURATION {
        var i :| 0 <= i < |shorter| - 1 && LeastStep(shorter) == shorter[i + 1] - shorter[i];
        assert LeastStep(fs) == fs[i + 1] - fs[i];
      }
    }
  }

  const VALIDATION_SAMPLES := 300

  /** The cron branch of trigger validation: something fires, and not too often. */
  method Validate(c: Schedule, now: int, offset: int, minInterval: int) returns (accepted: bool)
    requires 0 < minInterval <= MAX_DURATION
    ensures accepted <==> Spaced(Fires(c, now, offset, VALIDATION_SAMPLES + 1), minInterval)
  {
    hide NextFire;
    ghost var fs := Fires(c, now, offset, VALIDATION_SAMPLES + 1);
    var first := Next(c, now, offset);
    if first.None? {
      return false;
    }
    var gap := MinGap(c, now, offset, VALIDATION_SAMPLES);
    SpacedByLeastStep(c, now, offset, VALIDATION_SAMPLES + 1, minInterval);
    return gap >= minInterval;
  }

  /** Some fire exists and no two are closer than the interval. */
  ghost predicate Spaced(fs: seq<int>, interval: int) {
    fs != [] && forall i, j | 0 <= i < j < |fs| :: fs[j] - fs[i] >= interval
  }

  lemma SpacedByLeastStep(c: Schedule, after: int, offset: int, n: nat, interval: int)
    requires interval <= MAX_DURATION
    ensures var fs := Fires(c, after, offset, n);
      fs != [] ==> (LeastStep(fs) >= interval <==> Spaced(fs, interval))
  {
    var fs := Fires(c, after, offset, n);
    FiresEnumerate(c, after, offset, n);
    hide Fires, FiresAt;
    LeastStepAttained(fs);
    if LeastStep(fs) >= interval {
      forall i, j | 0 <= i < j < |fs|
        ensures fs[j] - fs[i] >= interval
      {
        LeastStepBounds(fs, i, j);
      }
    }
  }
}
