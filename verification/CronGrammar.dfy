/**
 The texts a schedule is written in: decimal numbers, the parts of a field and the
 macros, each defined by how it is spelled, and that the parser reads exactly those.
 */
module CronGrammar {
  import opened Wrappers
  import opened Text
  import opened Cron
  import opened CronParser

  // ---- decimal numbers ----

  const DIGITS := "0123456789"

  /** The decimal numeral, without leading zeros. */
  function Decimal(n: nat): string {
    if n < 10 then [DIGITS[n]] else Decimal(n / 10) + [DIGITS[n % 10]]
  }

  function Zeros(k: nat): string {
    if k == 0 then "" else Zeros(k - 1) + ['0']
  }

  /** An optional sign and a numeral, which may have leading zeros. */
  predicate IsNumeral(s: string, sign: string, zeros: nat, n: nat, v: int) {
    s == sign + (Zeros(zeros) + Decimal(n)) && sign in ["", "+", "-"] && v == (if sign == "-" then -(n as int) else n)
  }

  /** The text is a number of the platform's integer type. */
  ghost predicate IsNumber(s: string, v: int) {
    -0x8000_0000_0000_0000 <= v <= 0x7fff_ffff_ffff_ffff && exists sign, zeros, n :: IsNumeral(s, sign, zeros, n, v)
  }

  lemma DigitChars()
    ensures forall d | 0 <= d < 10 :: DIGITS[d] as int == 48 + d
  {
  }

  lemma {:induction false} NumeralReads(zeros: nat, n: nat)
    ensures AllDigits(Zeros(zeros) + Decimal(n)) && DigitsValue(Zeros(zeros) + Decimal(n)) == n
    decreases n, zeros
  {
    DigitChars();
    ZerosRead(zeros);
    var s := Zeros(zeros) + Decimal(n);
    if n < 10 {
      assert s == Zeros(zeros) + [DIGITS[n]];
      OneMoreDigit(Zeros(zeros), DIGITS[n]);
    } else {
      NumeralReads(zeros, n / 10);
      assert s == Zeros(zeros) + Decimal(n / 10) + [DIGITS[n % 10]];
      OneMoreDigit(Zeros(zeros) + Decimal(n / 10), DIGITS[n % 10]);
    }
  }

  lemma OneMoreDigit(s: string, c: char)
    requires AllDigits(s) && '0' <= c <= '9'
    ensures AllDigits(s + [c]) && DigitsValue(s + [c]) == DigitsValue(s) * 10 + (c as int - 48)
  {
    assert (s + [c])[..|s|] == s;
  }

  lemma {:induction false} ZerosRead(k: nat)
    ensures AllDigits(Zeros(k)) && DigitsValue(Zeros(k)) == 0
  {
    if k > 0 {
      ZerosRead(k - 1);
      OneMoreDigit(Zeros(k - 1), '0');
    }
  }

  lemma {:induction false} DigitsAreNumeral(s: string) returns (zeros: nat)
    requires AllDigits(s) && s != ""
    ensures s == Zeros(zeros) + Decimal(DigitsValue(s))
    decreases |s|
  {
    DigitChars();
    hide DigitsValue, Zeros, Decimal;
    var front, c := s[..|s| - 1], s[|s| - 1];
    var d := c as int - 48;
    assert s == front + [c] && c == DIGITS[d];
    OneMoreDigit(front, c);
    if front == "" {
      zeros := 0;
      OneDigit(s, d);
    } else {
      zeros := DigitsAreNumeral(front);
      zeros := AppendDigit(front, zeros, DigitsValue(front), d);
    }
  }

  lemma OneDigit(s: string, d: nat)
    requires d < 10 && s == [DIGITS[d]] && AllDigits(s)
    ensures s == Zeros(0) + Decimal(DigitsValue(s))
  {
    DigitChars();
    assert s[..0] == "";
  }

  lemma AppendDigit(front: string, zeros: nat, n: nat, d: nat) returns (k: nat)
    requires d < 10 && front == Zeros(zeros) + Decimal(n)
    ensures front + [DIGITS[d]] == Zeros(k) + Decimal(n * 10 + d)
  {
    if n == 0 {
      k := zeros + 1;
      assert front == Zeros(k);
    } else {
      k := zeros;
      assert (n * 10 + d) / 10 == n && (n * 10 + d) % 10 == d;
      assert Decimal(n * 10 + d) == Decimal(n) + [DIGITS[d]];
    }
  }

  lemma NumeralStarts(zeros: nat, n: nat)
    ensures var s := Zeros(zeros) + Decimal(n); s != "" && s[0] != '-' && s[0] != '+'
  {
    NumeralReads(zeros, n);
    var s := Zeros(zeros) + Decimal(n);
    assert '0' <= s[0] <= '9';
  }

  /** `strconv.Atoi` reads exactly the numbers. */
  lemma AtoiReadsNumbers(s: string, v: int)
    ensures Atoi(s) == Some(v) <==> IsNumber(s, v)
  {
    if Atoi(s) == Some(v) {
      ReadIsNumber(s, v);
    }
    hide Atoi, IsNumeral;
    forall sign, zeros, n | IsNumeral(s, sign, zeros, n, v) && -0x8000_0000_0000_0000 <= v <= 0x7fff_ffff_ffff_ffff
      ensures Atoi(s) == Some(v)
    {
      NumeralIsRead(s, sign, zeros, n, v);
    }
  }

  lemma ReadIsNumber(s: string, v: int)
    requires Atoi(s) == Some(v)
    ensures IsNumber(s, v)
  {
    hide DigitsValue, Zeros, Decimal;
    var sign := if s[0] == '-' then "-" else if s[0] == '+' then "+" else "";
    var digits := s[|sign|..];
    var zeros := DigitsAreNumeral(digits);
    assert s == sign + digits;
    assert IsNumeral(s, sign, zeros, DigitsValue(digits), v);
  }

  lemma NumeralIsRead(s: string, sign: string, zeros: nat, n: nat, v: int)
    requires IsNumeral(s, sign, zeros, n, v) && -0x8000_0000_0000_0000 <= v <= 0x7fff_ffff_ffff_ffff
    ensures Atoi(s) == Some(v)
  {
    NumeralReads(zeros, n);
    NumeralStarts(zeros, n);
    var digits := Zeros(zeros) + Decimal(n);
    assert s == sign + digits;
    assert digits == if s[0] == '-' || s[0] == '+' then s[1..] else s;
    hide Zeros, Decimal;
  }

  /** A number holds no slash. */
  lemma NumbersHoldNoSlash(s: string, v: int)
    requires IsNumber(s, v)
    ensures s != "" && '/' !in s && s != "*"
  {
    AtoiReadsNumbers(s, v);
    hide IsNumber;
    forall i | 0 <= i < |s|
      ensures s[i] != '/' && s[i] != '*'
    {
      var signed := s[0] == '-' || s[0] == '+';
      assert AllDigits(if signed then s[1..] else s);
      if signed && i > 0 {
        assert '0' <= s[1..][i - 1] <= '9';
      }
    }
  }

  // ---- the parts of a field ----

  /** The step of a part, absent when there is no slash. */
  ghost predicate StepMeans(step: Option<string>, n: int) {
    match step
    case None => n == 1
    case Some(text) => IsNumber(text, n)
  }

  /** A star, two numbers around a dash, or one number, which with a step runs on to the
      end of the field's range. */
  ghost predicate RangeMeans(text: string, hasStep: bool, lo: int, hi: int, first: int, last: int) {
    || (text == "*" && first == lo && last == hi)
    || ('-' !in text && IsNumber(text, first) && last == if hasStep then hi else first)
    || IsPair(text, first, last)
  }

  function Spelled(range: string, step: Option<string>): string {
    match step
    case None => range
    case Some(text) => range + "/" + text
  }

  ghost predicate Spells(part: string, range: string, step: Option<string>, lo: int, hi: int, p: Progression) {
    && part == Spelled(range, step) && StepMeans(step, p.step)
    && RangeMeans(range, step.Some?, lo, hi, p.first, p.last)
  }

  /** The part spells the progression, which lies in the field's range. */
  ghost predicate PartMeans(part: string, lo: int, hi: int, p: Progression) {
    && lo <= p.first <= p.last <= hi && 0 < p.step <= hi
    && exists range, step :: Spells(part, range, step, lo, hi, p)
  }

  lemma ParseRangeIff(text: string, hasStep: bool, lo: int, hi: int, first: int, last: int)
    ensures ParseRange(text, hasStep, lo, hi) == Some((first, last)) <==> RangeMeans(text, hasStep, lo, hi, first, last)
  {
    hide IsNumber, Atoi;
    var dash := IndexOf(text, '-');
    hide IndexOf;
    if text == "*" {
      StarIsNoNumber(first);
      assert text[0] == '*' && '-' !in text;
      NoDashNoPair(text, first, last);
    } else if dash < |text| {
      var a, b := text[..dash], text[dash + 1..];
      assert text[dash] == '-' && '-' in text;
      AtoiReadsNumbers(a, first);
      AtoiReadsNumbers(b, last);
      PairAtDash(text, dash, first, last);
    } else {
      assert text[..dash] == text;
      AtoiReadsNumbers(text, first);
      NoDashNoPair(text, first, last);
    }
  }

  ghost predicate IsPair(text: string, first: int, last: int) {
    exists a, b :: text == a + "-" + b && '-' !in a && IsNumber(a, first) && IsNumber(b, last)
  }

  lemma NoDashNoPair(text: string, first: int, last: int)
    requires '-' !in text
    ensures !IsPair(text, first, last)
  {
    forall a: string, b: string
      ensures text != a + "-" + b
    {
      assert (a + "-" + b)[|a|] == '-';
    }
  }

  lemma PairAtDash(text: string, dash: nat, first: int, last: int)
    requires dash < |text| && text[dash] == '-' && '-' !in text[..dash]
    ensures IsPair(text, first, last) <==> IsNumber(text[..dash], first) && IsNumber(text[dash + 1..], last)
  {
    hide IsNumber;
    assert text == text[..dash] + "-" + text[dash + 1..];
    FirstDash(text, text[..dash], text[dash + 1..]);
    forall a, b | text == a + "-" + b && '-' !in a
      ensures a == text[..dash] && b == text[dash + 1..]
    {
      FirstDash(text, a, b);
      assert text[..|a|] == a && text[|a| + 1..] == b;
    }
  }

  lemma FirstDash(text: string, a: string, b: string)
    requires text == a + "-" + b && '-' !in a
    ensures IndexOf(text, '-') == |a|
  {
    assert forall j | 0 <= j < |a| :: text[j] == a[j] && a[j] in a;
    IndexOfAt(text, '-', |a|);
  }

  lemma StarIsNoNumber(v: int)
    ensures !IsNumber("*", v)
  {
    if IsNumber("*", v) {
      NumbersHoldNoSlash("*", v);
    }
  }

  lemma RangesHoldNoSlash(text: string, hasStep: bool, lo: int, hi: int, first: int, last: int)
    requires RangeMeans(text, hasStep, lo, hi, first, last)
    ensures '/' !in text
  {
    if text == "*" {
      assert text[0] == '*';
    } else if '-' !in text && IsNumber(text, first) {
      NumbersHoldNoSlash(text, first);
    } else {
      var a, b :| text == a + "-" + b && '-' !in a && IsNumber(a, first) && IsNumber(b, last);
      NumbersHoldNoSlash(a, first);
      NumbersHoldNoSlash(b, last);
    }
  }

  /** The parser reads a part exactly as it is spelled. */
  lemma ParsePartReadsSpelling(part: string, lo: int, hi: int, p: Progression)
    requires IsFieldRange(lo, hi)
    ensures ParsePart(part, lo, hi) == Some(p) <==> PartMeans(part, lo, hi, p)
  {
    hide IsNumber, Atoi, RangeMeans, ParseRange;
    if ParsePart(part, lo, hi) == Some(p) {
      var slash := IndexOf(part, '/');
      var step := if slash < |part| then Some(part[slash + 1..]) else None;
      if slash < |part| {
        AtoiReadsNumbers(part[slash + 1..], p.step);
        assert part == part[..slash] + "/" + part[slash + 1..];
      } else {
        assert part[..slash] == part;
      }
      ParseRangeIff(part[..slash], step.Some?, lo, hi, p.first, p.last);
      hide IndexOf, ParsePart;
      assert Spells(part, part[..slash], step, lo, hi, p);
    }
    if PartMeans(part, lo, hi, p) {
      var range, step :| Spells(part, range, step, lo, hi, p);
      SpellingIsRead(part, range, step, lo, hi, p);
    }
  }

  lemma SpellingIsRead(part: string, range: string, step: Option<string>, lo: int, hi: int, p: Progression)
    requires IsFieldRange(lo, hi) && Spells(part, range, step, lo, hi, p)
    requires lo <= p.first <= p.last <= hi && 0 < p.step <= hi
    ensures ParsePart(part, lo, hi) == Some(p)
  {
    hide RangeMeans, ParseRange, IsNumber, Atoi;
    RangesHoldNoSlash(range, step.Some?, lo, hi, p.first, p.last);
    ParseRangeIff(range, step.Some?, lo, hi, p.first, p.last);
    SlashAt(part, range, step);
    hide IndexOf;
    if step.Some? {
      AtoiReadsNumbers(step.value, p.step);
    }
  }

  lemma SlashAt(part: string, range: string, step: Option<string>)
    requires part == Spelled(range, step) && '/' !in range
    ensures IndexOf(part, '/') == |range| && part[..|range|] == range
    ensures match step case None => |part| == |range| case Some(text) => |part| > |range| && part[|range| + 1..] == text
  {
    assert forall j | 0 <= j < |range| :: part[j] == range[j] && range[j] in range;
    IndexOfAt(part, '/', |range|);
  }

  // ---- expressions of five words ----

  predicate Blank(s: string) {
    forall i | 0 <= i < |s| :: IsSpace(s[i])
  }

  predicate IsWord(s: string) {
    s != "" && forall i | 0 <= i < |s| :: !IsSpace(s[i])
  }

  lemma {:induction false} WordIsRead(word: string, rest: string)
    requires forall i | 0 <= i < |word| :: !IsSpace(word[i])
    requires rest == "" || IsSpace(rest[0])
    ensures WordLength(word + rest) == |word|
  {
    if word == "" {
      assert word + rest == rest;
    } else {
      assert (word + rest)[1..] == word[1..] + rest;
      WordIsRead(word[1..], rest);
    }
  }

  lemma {:induction false} BlankIsSkipped(gap: string, rest: string)
    requires Blank(gap)
    ensures Fields(gap + rest) == Fields(rest)
  {
    if gap == "" {
      assert gap + rest == rest;
    } else {
      assert (gap + rest)[1..] == gap[1..] + rest;
      BlankIsSkipped(gap[1..], rest);
    }
  }

  /** Words between blanks: `gaps[i]` stands before `words[i]`. */
  function Spaced(gaps: seq<string>, words: seq<string>, end: string): string
    requires |gaps| == |words|
  {
    if words == [] then end else gaps[0] + (words[0] + Spaced(gaps[1..], words[1..], end))
  }

  predicate Separated(gaps: seq<string>, words: seq<string>, end: string)
    requires |gaps| == |words|
  {
    && (forall i | 0 <= i < |words| :: IsWord(words[i]) && Blank(gaps[i]) && (i > 0 ==> gaps[i] != ""))
    && Blank(end)
  }

  /** Splitting at blanks gives back the words, however they were spaced. */
  lemma {:induction false} FieldsAreTheWords(gaps: seq<string>, words: seq<string>, end: string)
    requires |gaps| == |words| && Separated(gaps, words, end)
    ensures Fields(Spaced(gaps, words, end)) == words
    decreases |words|
  {
    if words == [] {
      BlankIsSkipped(end, "");
      assert end + "" == end;
    } else {
      var rest := Spaced(gaps[1..], words[1..], end);
      FieldsAreTheWords(gaps[1..], words[1..], end);
      BlankIsSkipped(gaps[0], words[0] + rest);
      if |words| > 1 {
        assert gaps[1..][0] == gaps[1] && rest[0] == gaps[1][0];
      }
      WordIsRead(words[0], rest);
      FirstWord(words[0], rest);
    }
  }

  lemma FirstWord(word: string, rest: string)
    requires IsWord(word) && WordLength(word + rest) == |word|
    ensures Fields(word + rest) == [word] + Fields(rest)
  {
    assert (word + rest)[..|word|] == word && (word + rest)[|word|..] == rest;
    assert !IsSpace((word + rest)[0]);
  }

  /** Trimming removes exactly the blanks at both ends. */
  lemma TrimSpaceTrims(s: string) returns (before: string, behind: string)
    ensures s == before + TrimSpace(s) + behind && Blank(before) && Blank(behind)
    ensures var t := TrimSpace(s); t != "" ==> !IsSpace(t[0]) && !IsSpace(t[|t| - 1])
  {
    before := TrimLeftTrims(s);
    behind := TrimRightTrims(TrimLeft(s));
  }

  lemma {:induction false} TrimLeftTrims(s: string) returns (before: string)
    ensures s == before + TrimLeft(s) && Blank(before)
    ensures TrimLeft(s) != "" ==> !IsSpace(TrimLeft(s)[0])
  {
    if s != "" && IsSpace(s[0]) {
      var more := TrimLeftTrims(s[1..]);
      before := [s[0]] + more;
      assert s == [s[0]] + s[1..];
    } else {
      before := "";
    }
  }

  lemma {:induction false} TrimRightTrims(s: string) returns (behind: string)
    ensures s == TrimRight(s) + behind && Blank(behind)
    ensures TrimRight(s) != "" ==> !IsSpace(TrimRight(s)[|TrimRight(s)| - 1]) && TrimRight(s)[0] == s[0]
  {
    if s != "" && IsSpace(s[|s| - 1]) {
      var more := TrimRightTrims(s[..|s| - 1]);
      behind := more + [s[|s| - 1]];
      assert s == s[..|s| - 1] + [s[|s| - 1]];
    } else {
      behind := "";
    }
  }

  // ---- the macros ----

  /** Every value of the range, and nothing else. */
  ghost predicate IsAll(values: set<int>, lo: int, hi: int) {
    forall v :: v in values <==> lo <= v <= hi
  }

  lemma StarIsAll(lo: int, hi: int, v: int)
    requires IsFieldRange(lo, hi)
    ensures Denotes("*", lo, hi, v) <==> lo <= v <= hi
  {
    OneWord("*");
    assert Spells("*", "*", None, lo, hi, Progression(lo, hi, 1));
    ParsePartReadsSpelling("*", lo, hi, Progression(lo, hi, 1));
  }

  lemma DigitIsItself(d: int, lo: int, hi: int, v: int)
    requires IsFieldRange(lo, hi) && 0 <= d < 10 && lo <= d <= hi
    ensures Denotes(Decimal(d), lo, hi, v) <==> v == d
  {
    var s := Decimal(d);
    DigitChars();
    assert s == [DIGITS[d]];
    OneWord(s);
    assert IsNumeral(s, "", 0, d, d);
    assert Spells(s, s, None, lo, hi, Progression(d, d, 1));
    ParsePartReadsSpelling(s, lo, hi, Progression(d, d, 1));
  }

  lemma OneWord(s: string)
    requires |s| == 1 && s[0] != ','
    ensures Split(s, ',') == [s]
  {
    IndexOfAt(s, ',', 1);
  }

  lemma FiveWords(a: char, b: char, c: char, d: char, e: char)
    requires !IsSpace(a) && !IsSpace(b) && !IsSpace(c) && !IsSpace(d) && !IsSpace(e)
    ensures Fields([a, ' ', b, ' ', c, ' ', d, ' ', e]) == [[a], [b], [c], [d], [e]]
  {
    var words, gaps := [[a], [b], [c], [d], [e]], ["", " ", " ", " ", " "];
    FieldsAreTheWords(gaps, words, "");
    assert Spaced(gaps[1..][1..][1..][1..][1..], words[1..][1..][1..][1..][1..], "") == "";
    assert Spaced(gaps[1..][1..][1..][1..], words[1..][1..][1..][1..], "") == [' ', e];
    assert Spaced(gaps[1..][1..][1..], words[1..][1..][1..], "") == [' ', d, ' ', e];
    assert Spaced(gaps[1..][1..], words[1..][1..], "") == [' ', c, ' ', d, ' ', e];
    assert Spaced(gaps[1..], words[1..], "") == [' ', b, ' ', c, ' ', d, ' ', e];
    assert Spaced(gaps, words, "") == [a, ' ', b, ' ', c, ' ', d, ' ', e];
  }

  datatype Macro = Hourly | Daily | Midnight | Weekly | Monthly

  function MacroText(m: Macro): string {
    match m
    case Hourly => "@hourly"
    case Daily => "@daily"
    case Midnight => "@midnight"
    case Weekly => "@weekly"
    case Monthly => "@monthly"
  }

  /** Every hour on the hour; every day, every Sunday and every first of the month at midnight. */
  ghost predicate MacroMeans(m: Macro, c: Schedule) {
    && c.minute == {0} && IsAll(c.month, 1, 12)
    && (if m.Hourly? then IsAll(c.hour, 0, 23) else c.hour == {0})
    && (if m.Monthly? then c.dom == {1} else IsAll(c.dom, 1, 31))
    && (if m.Weekly? then c.dow == {0} else IsAll(c.dow, 0, 6))
    && (c.domStar <==> !m.Monthly?) && (c.dowStar <==> !m.Weekly?)
  }

  lemma MacroWords(m: Macro)
    ensures Fields(Expanded(MacroText(m))) ==
      [Decimal(0), if m.Hourly? then "*" else Decimal(0), if m.Monthly? then Decimal(1) else "*", "*",
       if m.Weekly? then Decimal(0) else "*"]
  {
    DigitChars();
    assert TrimSpace(MacroText(m)) == MacroText(m) by {
      assert MacroText(m)[0] == '@';
    }
    match m
    case Hourly => FiveWords('0', '*', '*', '*', '*');
    case Daily => FiveWords('0', '0', '*', '*', '*');
    case Midnight => FiveWords('0', '0', '*', '*', '*');
    case Weekly => FiveWords('0', '0', '*', '*', '0');
    case Monthly => FiveWords('0', '0', '1', '*', '*');
  }

  /** The macros mean what their names say. */
  lemma MacrosMean(m: Macro, c: Schedule)
    requires var f := Fields(Expanded(MacroText(m))); |f| == 5 && MeansFields(c, f)
    ensures MacroMeans(m, c)
  {
    hide Denotes, Fields, Expanded, Split, Decimal, MacroText;
    MacroWords(m);
    MacroValues();
    OneWord("*");
    DigitChars();
    OneDigitWord(0);
    OneDigitWord(1);
    IsJust(c.minute, 0);
    if !m.Hourly? { IsJust(c.hour, 0); }
    if m.Monthly? { IsJust(c.dom, 1); }
    if m.Weekly? { IsJust(c.dow, 0); }
  }

  lemma IsJust(s: set<int>, x: int)
    requires forall v :: v in s <==> v == x
    ensures s == {x}
  {
    assert forall v | v in s :: v == x;
    assert forall v :: v in s <==> v in {x};
    assert s <= {x} && {x} <= s;
  }

  lemma OneDigitWord(d: nat)
    requires d < 10
    ensures Split(Decimal(d), ',') == [Decimal(d)] && Decimal(d) != "*"
  {
    DigitChars();
    assert Decimal(d) == [DIGITS[d]];
    OneWord(Decimal(d));
  }

  lemma MacroValues()
    ensures forall v ::
      && (Denotes("*", 0, 23, v) <==> 0 <= v <= 23) && (Denotes("*", 1, 31, v) <==> 1 <= v <= 31)
      && (Denotes("*", 1, 12, v) <==> 1 <= v <= 12) && (Denotes("*", 0, 7, v) <==> 0 <= v <= 7)
      && (Denotes(Decimal(0), 0, 59, v) <==> v == 0) && (Denotes(Decimal(0), 0, 23, v) <==> v == 0)
      && (Denotes(Decimal(1), 1, 31, v) <==> v == 1) && (Denotes(Decimal(0), 0, 7, v) <==> v == 0)
  {
    hide Denotes, Decimal;
    forall v
      ensures Denotes("*", 0, 23, v) <==> 0 <= v <= 23
      ensures Denotes("*", 1, 31, v) <==> 1 <= v <= 31
      ensures Denotes("*", 1, 12, v) <==> 1 <= v <= 12
      ensures Denotes("*", 0, 7, v) <==> 0 <= v <= 7
      ensures Denotes(Decimal(0), 0, 59, v) <==> v == 0
      ensures Denotes(Decimal(0), 0, 23, v) <==> v == 0
      ensures Denotes(Decimal(1), 1, 31, v) <==> v == 1
      ensures Denotes(Decimal(0), 0, 7, v) <==> v == 0
    {
      StarIsAll(0, 23, v);
      StarIsAll(1, 31, v);
      StarIsAll(1, 12, v);
      StarIsAll(0, 7, v);
      DigitIsItself(0, 0, 59, v);
      DigitIsItself(0, 0, 23, v);
      DigitIsItself(1, 1, 31, v);
      DigitIsItself(0, 0, 7, v);
    }
  }
}
