/** Parsing of the five-field expressions. */
module CronParser {
  import opened Wrappers
  import opened Calendar
  import opened Cron
  import opened Text

  /** The values `first, first + step, ...` up to `last`. */
  datatype Progression = Progression(first: int, last: int, step: int)

  ghost predicate InProgression(v: int, p: Progression)
    requires p.step > 0
  {
    p.first <= v <= p.last && (v - p.first) % p.step == 0
  }

  /** The least and the greatest value of a field; a step may be as large as the greatest. */
  predicate IsFieldRange(lo: int, hi: int) {
    0 <= lo <= hi && 1 <= hi
  }

  /** One comma-separated part: a star, a value or a range, with an optional step.
      None is a syntax error or a value outside lo-hi. */
  function ParsePart(part: string, lo: int, hi: int): (r: Option<Progression>)
    requires IsFieldRange(lo, hi)
    ensures r.Some? ==> lo <= r.value.first <= r.value.last <= hi && 0 < r.value.step <= hi
  {
    var slash := IndexOf(part, '/');
    var hasStep := slash < |part|;
    var step := if hasStep then Atoi(part[slash + 1..]) else Some(1);
    if step.None? || step.value <= 0 || step.value > hi then None
    else
      var r := ParseRange(part[..slash], hasStep, lo, hi);
      if r.None? || r.value.0 < lo || r.value.1 > hi || r.value.0 > r.value.1 then None
      else Some(Progression(r.value.0, r.value.1, step.value))
  }

  /** A value followed by a step runs to the end of the field's range. */
  function ParseRange(rng: string, hasStep: bool, lo: int, hi: int): Option<(int, int)> {
    if rng == "*" then Some((lo, hi))
    else
      var dash := IndexOf(rng, '-');
      if dash < |rng| then
        match (Atoi(rng[..dash]), Atoi(rng[dash + 1..]))
        case (Some(a), Some(b)) => Some((a, b))
        case _ => None
      else
        match Atoi(rng)
        case Some(a) => Some((a, if hasStep then hi else a))
        case None => None
  }

  ghost predicate FieldParses(s: string, lo: int, hi: int)
    requires IsFieldRange(lo, hi)
  {
    s != "" && forall p | p in Split(s, ',') :: ParsePart(p, lo, hi).Some?
  }

  /** The values a field denotes: the union of the progressions of its parts. */
  ghost predicate Denotes(s: string, lo: int, hi: int, v: int)
    requires IsFieldRange(lo, hi)
  {
    exists p :: p in Split(s, ',') && ParsePart(p, lo, hi).Some? && InProgression(v, ParsePart(p, lo, hi).value)
  }

  datatype FieldSet = FieldSet(bits: set<int>, star: bool)

  /** The loop that switches on the bits of one part. */
  method Expand(p: Progression) returns (bits: set<int>)
    requires p.step > 0
    ensures forall v :: v in bits <==> InProgression(v, p)
    ensures p.first <= p.last ==> p.first in bits
    ensures forall v | v in bits :: p.first <= v <= p.last
  {
    bits := {};
    var v := p.first;
    while v <= p.last
      invariant p.first <= v && (v - p.first) % p.step == 0
      invariant forall u :: u in bits <==> InProgression(u, p) && u < v
      decreases p.last - v
    {
      NextInProgression(p, v);
      bits := bits + {v};
      v := v + p.step;
    }
  }

  /** `cronField`: None is the error.  Only a bare `*` counts as a star. */
  method CronField(s: string, lo: int, hi: int) returns (r: Option<FieldSet>)
    requires IsFieldRange(lo, hi)
    ensures r.Some? <==> FieldParses(s, lo, hi)
    ensures r.Some? ==> forall v :: v in r.value.bits <==> Denotes(s, lo, hi, v)
    ensures r.Some? ==> (r.value.star <==> "*" in Split(s, ','))
    ensures r.Some? ==> r.value.bits != {} && forall v | v in r.value.bits :: lo <= v <= hi
  {
    hide ParsePart, Split, InProgression;
    if s == "" {
      return None;
    }
    var parts := Split(s, ',');
    var bits: set<int>, star := {}, false;
    var i := 0;
    while i < |parts|
      invariant 0 <= i <= |parts|
      invariant forall k | 0 <= k < i :: ParsePart(parts[k], lo, hi).Some?
      invariant forall v :: v in bits <==> DenotedBy(parts[..i], lo, hi, v)
      invariant star <==> "*" in parts[..i]
      invariant i > 0 ==> bits != {}
      invariant forall v | v in bits :: lo <= v <= hi
    {
      var part := parts[i];
      var parsed := ParsePart(part, lo, hi);
      if parsed.None? {
        assert part in parts;
        return None;
      }
      var p := parsed.value;
      StarPart(part, lo, hi);
      star := star || part == "*";
      var more := Expand(p);
      assert forall v :: DenotedBy(parts[..i + 1], lo, hi, v) <==> DenotedBy(parts[..i], lo, hi, v) || v in more by {
        assert parts[..i + 1] == parts[..i] + [part];
      }
      bits := bits + more;
      assert parts[..i + 1] == parts[..i] + [part];
      i := i + 1;
    }
    assert parts[..i] == parts;
    return Some(FieldSet(bits, star));
  }

  ghost predicate DenotedBy(parts: seq<string>, lo: int, hi: int, v: int)
    requires IsFieldRange(lo, hi)
  {
    exists p :: p in parts && ParsePart(p, lo, hi).Some? && InProgression(v, ParsePart(p, lo, hi).value)
  }

  /** `*` without a step is the only text whose range is `*` and whose step is absent. */
  lemma StarPart(part: string, lo: int, hi: int)
    requires IsFieldRange(lo, hi)
    ensures part == "*" <==> IndexOf(part, '/') == |part| && part[..IndexOf(part, '/')] == "*"
  {
    if part == "*" {
      assert part[0] != '/';
    }
  }

  lemma NextInProgression(p: Progression, v: int)
    requires p.step > 0 && p.first <= v && (v - p.first) % p.step == 0
    ensures (v + p.step - p.first) % p.step == 0
    ensures forall u | InProgression(u, p) && v < u :: u >= v + p.step
  {
    var q := (v - p.first) / p.step;
    ExactQuotient(v - p.first, p.step);
    assert v + p.step - p.first == (q + 1) * p.step;
    MultipleHasNoRemainder(q + 1, p.step);
    forall u | InProgression(u, p) && v < u
      ensures u >= v + p.step
    {
      ExactQuotient(u - p.first, p.step);
      NextMultiple(q, (u - p.first) / p.step, p.step);
    }
  }

  lemma ExactQuotient(x: int, d: int)
    requires d > 0 && x % d == 0
    ensures x == x / d * d
  {
  }

  /** Multiples that differ, differ by a whole step. */
  lemma NextMultiple(q: int, w: int, d: int)
    requires d > 0 && q * d < w * d
    ensures (q + 1) * d <= w * d
  {
    ScaleOrder(w, q, d);
    ScaleOrder(q + 1, w, d);
  }

  lemma ScaleOrder(a: int, b: int, d: int)
    requires d > 0
    ensures a <= b ==> a * d <= b * d
  {
  }

  lemma MultipleHasNoRemainder(q: int, d: int)
    requires d > 0
    ensures q * d % d == 0
  {
    var e := q - (q * d) / d;
    assert e * d == (q * d) % d;
    ScaleOrder(1, e, d);
    ScaleOrder(e, -1, d);
  }

  // ---- ParseCron ----

  /** The macros stand for expressions. */
  function Expanded(expr: string): string {
    var e := TrimSpace(expr);
    if e == "@hourly" then "0 * * * *"
    else if e == "@daily" || e == "@midnight" then "0 0 * * *"
    else if e == "@weekly" then "0 0 * * 0"
    else if e == "@monthly" then "0 0 1 * *"
    else e
  }

  /** Five fields, each of them well formed in its own range. */
  ghost predicate ExpressionParses(f: seq<string>) {
    && |f| == 5
    && FieldParses(f[0], 0, 59)
    && FieldParses(f[1], 0, 23)
    && FieldParses(f[2], 1, 31)
    && FieldParses(f[3], 1, 12)
    && FieldParses(f[4], 0, 7)
  }

  /** The meaning of a parsed expression, field by field; 7 in the weekday field is Sunday. */
  ghost predicate MeansFields(c: Schedule, f: seq<string>)
    requires |f| == 5
  {
    && (forall v :: v in c.minute <==> Denotes(f[0], 0, 59, v))
    && (forall v :: v in c.hour <==> Denotes(f[1], 0, 23, v))
    && (forall v :: v in c.dom <==> Denotes(f[2], 1, 31, v))
    && (forall v :: v in c.month <==> Denotes(f[3], 1, 12, v))
    && (forall v :: v in c.dow <==> v != 7 && (Denotes(f[4], 0, 7, v) || (v == 0 && Denotes(f[4], 0, 7, 7))))
    && (c.domStar <==> "*" in Split(f[2], ','))
    && (c.dowStar <==> "*" in Split(f[4], ','))
  }

  method ParseCron(expr: string) returns (r: Option<Schedule>)
    ensures r.Some? <==> ExpressionParses(Fields(Expanded(expr)))
    ensures r.Some? ==> MeansFields(r.value, Fields(Expanded(expr))) && WellFormed(r.value)
  {
    hide FieldParses, Denotes, Expanded;
    StarDenotesAll(Fields(Expanded(expr)));
    var f := Fields(Expanded(expr));
    if |f| != 5 {
      return None;
    }
    var minute := CronField(f[0], 0, 59);
    if minute.None? { return None; }
    var hour := CronField(f[1], 0, 23);
    if hour.None? { return None; }
    var dom := CronField(f[2], 1, 31);
    if dom.None? { return None; }
    var month := CronField(f[3], 1, 12);
    if month.None? { return None; }
    var dow := CronField(f[4], 0, 7);
    if dow.None? { return None; }
    var days := dow.value.bits;
    if 7 in days {
      days := days + {0} - {7};
      assert 0 in days;
    }
    return Some(Schedule(minute.value.bits, hour.value.bits, dom.value.bits, month.value.bits, days,
                         dom.value.star, dow.value.star));
  }

  /** A bare star selects the whole range. */
  lemma StarDenotesAll(f: seq<string>)
    ensures |f| == 5 && "*" in Split(f[2], ',') ==> forall v | 1 <= v <= 31 :: Denotes(f[2], 1, 31, v)
    ensures |f| == 5 && "*" in Split(f[4], ',') ==> forall v | 0 <= v <= 7 :: Denotes(f[4], 0, 7, v)
  {
    StarPart("*", 1, 31);
    StarPart("*", 0, 7);
    assert ParsePart("*", 1, 31) == Some(Progression(1, 31, 1));
    assert ParsePart("*", 0, 7) == Some(Progression(0, 7, 1));
    hide ParsePart, Split;
  }

  // ---- stepped stars ----

  /** Vixie cron's flag: the field begins with a star, whatever follows. */
  predicate BeginsWithStar(field: string) {
    field != "" && field[0] == '*'
  }

  /** The either-day rule with Vixie cron's flags. */
  predicate VixieDayMatches(c: Schedule, f: seq<string>, day: int)
    requires |f| == 5
  {
    DayMatches(c.(domStar := BeginsWithStar(f[2]), dowStar := BeginsWithStar(f[4])), day)
  }

  /** Exactly one of the two day fields selects the day. */
  predicate OneFieldSelects(c: Schedule, day: int) {
    (Civil(day).day in c.dom) != (Weekday(day) in c.dow)
  }

  /** The two rules part on exactly the days that one field selects and the other does
      not, when only one of the rules sees a star: a leading star with a step, or a bare
      star that is not the first of a list. */
  lemma VixieRuleAgreesIff(c: Schedule, f: seq<string>, day: int)
    requires ExpressionParses(f) && MeansFields(c, f)
    ensures DayMatches(c, day) == VixieDayMatches(c, f, day) <==>
      !(OneFieldSelects(c, day)
        && ("*" in Split(f[2], ',') + Split(f[4], ',')) != (BeginsWithStar(f[2]) || BeginsWithStar(f[4])))
  {
    hide Civil, ExpressionParses;
  }

  /** Days 1, 3, 5, ... and Mondays: Thursday 1970-01-01 fires here and not under Vixie's rule. */
  lemma SteppedStarFiresMore(c: Schedule)
    requires MeansFields(c, ["0", "0", "*/2", "*", "1"])
    ensures DayMatches(c, 0) && !VixieDayMatches(c, ["0", "0", "*/2", "*", "1"], 0)
  {
    var f := ["0", "0", "*/2", "*", "1"];
    assert Civil(0) == Date(1970, 1, 1) by {
      CivilRoundTrip(Date(1970, 1, 1));
    }
    SteppedStar();
    assert 1 in c.dom;
    assert 4 !in c.dow;
  }

  lemma SteppedStar()
    ensures Split("*/2", ',') == ["*/2"] && Denotes("*/2", 1, 31, 1)
    ensures Split("1", ',') == ["1"] && !Denotes("1", 0, 7, 4)
  {
    assert IndexOf("*/2", ',') == 3 && IndexOf("1", ',') == 1;
    assert IndexOf("*/2", '/') == 1;
    assert "*/2"[2..] == "2" && "*/2"[..1] == "*";
    assert Atoi("2") == Some(2);
    assert ParsePart("*/2", 1, 31) == Some(Progression(1, 31, 2));
    assert "*/2" in Split("*/2", ',');
    assert IndexOf("1", '/') == 1 && IndexOf("1", '-') == 1;
    assert Atoi("1") == Some(1);
    assert "1"[..1] == "1";
    assert ParsePart("1", 0, 7) == Some(Progression(1, 1, 1));
  }
}
