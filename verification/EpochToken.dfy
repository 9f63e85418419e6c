/** Epochs as opaque tokens: three base-36 numbers joined by dots. */
module EpochToken {
  import opened Wrappers
  import opened Text
  import opened CacheRegistry

  function Digit(d: int): (c: char)
    requires 0 <= d < 36
    ensures c != '.' && !IsSpace(c)
  {
    if d < 10 then (d + '0' as int) as char else (d - 10 + 'a' as int) as char
  }

  /** The value of a digit; letters of either case. */
  function DigitOf(c: char): (d: Option<int>)
    ensures d.Some? ==> 0 <= d.value < 36
  {
    if '0' <= c <= '9' then Some(c as int - '0' as int)
    else if 'a' <= c <= 'z' then Some(c as int - 'a' as int + 10)
    else if 'A' <= c <= 'Z' then Some(c as int - 'A' as int + 10)
    else None
  }

  /** `strconv.FormatUint(n, 36)`. */
  function Format(n: nat): (s: string)
    ensures s != "" && forall c | c in s :: c != '.' && !IsSpace(c)
  {
    if n < 36 then [Digit(n)] else Format(n / 36) + [Digit(n % 36)]
  }

  function Value(s: string): Option<nat> {
    if s == "" then Some(0)
    else match (Value(s[..|s| - 1]), DigitOf(s[|s| - 1]))
      case (Some(v), Some(d)) => Some(v * 36 + d)
      case _ => None
  }

  /** `strconv.ParseUint(s, 36, 64)`. */
  function Parse(s: string): Option<Counter> {
    match Value(s)
    case Some(v) => if s != "" && v <= MAX_COUNTER then Some(v) else None
    case None => None
  }

  /** `Epoch.Token`. */
  function Token(e: Epoch): string {
    Format(e.global) + ['.'] + (Format(e.org) + ['.'] + Format(e.addon))
  }

  function ParseToken(s: string): Option<Epoch> {
    var parts := Split(TrimSpace(s), '.');
    if |parts| != 3 then None
    else match (Parse(parts[0]), Parse(parts[1]), Parse(parts[2]))
      case (Some(g), Some(o), Some(a)) => Some(Epoch(g, o, a))
      case _ => None
  }

  lemma {:induction false} FormatParses(n: Counter)
    ensures Parse(Format(n)) == Some(n)
  {
    ValueOfFormat(n);
  }

  lemma {:induction false} ValueOfFormat(n: nat)
    ensures Value(Format(n)) == Some(n)
  {
    var s := Format(n);
    if n >= 36 {
      ValueOfFormat(n / 36);
      assert s[..|s| - 1] == Format(n / 36);
    } else {
      assert s[..|s| - 1] == "";
    }
  }

  lemma SplitFirst(a: string, rest: string)
    requires '.' !in a
    ensures Split(a + ['.'] + rest, '.') == [a] + Split(rest, '.')
  {
    var s := a + ['.'] + rest;
    assert forall j | 0 <= j < |a| :: s[j] == a[j] && a[j] in a;
    IndexOfAt(s, '.', |a|);
    assert s[..|a|] == a && s[|a| + 1..] == rest;
  }

  lemma SplitLast(a: string)
    requires '.' !in a
    ensures Split(a, '.') == [a]
  {
    assert forall j | 0 <= j < |a| :: a[j] in a;
    IndexOfAt(a, '.', |a|);
  }

  lemma TrimKeeps(s: string)
    requires s != "" && !IsSpace(s[0]) && !IsSpace(s[|s| - 1])
    ensures TrimSpace(s) == s
  {
  }

  lemma SplitToken(e: Epoch)
    ensures Split(Token(e), '.') == [Format(e.global), Format(e.org), Format(e.addon)]
  {
    var g, o, a := Format(e.global), Format(e.org), Format(e.addon);
    hide Format, Split;
    SplitFirst(g, o + ['.'] + a);
    SplitFirst(o, a);
    SplitLast(a);
  }

  lemma TrimToken(e: Epoch)
    ensures TrimSpace(Token(e)) == Token(e)
  {
    var g, a := Format(e.global), Format(e.addon);
    var s := Token(e);
    hide Format, TrimSpace;
    assert s[0] == g[0] && g[0] in g;
    assert s[|s| - 1] == a[|a| - 1] && a[|a| - 1] in a;
    TrimKeeps(s);
  }

  /** Parsing inverts rendering. */
  lemma TokenRoundTrip(e: Epoch)
    ensures ParseToken(Token(e)) == Some(e)
  {
    hide Token, Format, Parse, Split, TrimSpace;
    TrimToken(e);
    SplitToken(e);
    FormatParses(e.global);
    FormatParses(e.org);
    FormatParses(e.addon);
  }

  /** Equal tokens come from equal epochs only: comparing tokens is comparing epochs. */
  lemma TokensAreInjective(d: Epoch, e: Epoch)
    ensures Token(d) == Token(e) <==> d == e
  {
    hide Token, ParseToken;
    TokenRoundTrip(d);
    TokenRoundTrip(e);
  }

  // ---- which texts are tokens ----

  const DIGITS := "0123456789abcdefghijklmnopqrstuvwxyz"

  /** Numbers are written in base 36, most significant digit first. */
  lemma FormatIsBase36(n: nat, d: nat)
    requires d < 36
    ensures n == 0 ==> Format(d) == [DIGITS[d]]
    ensures n > 0 ==> Format(n * 36 + d) == Format(n) + [DIGITS[d]]
  {
    DigitIsListed(d);
    assert (n * 36 + d) / 36 == n && (n * 36 + d) % 36 == d;
  }

  lemma DigitIsListed(d: nat)
    requires d < 36
    ensures Digit(d) == DIGITS[d]
  {
    assert forall i | 0 <= i < 10 :: DIGITS[i] as int == 48 + i;
    assert forall i | 10 <= i < 36 :: DIGITS[i] as int == 87 + i;
  }

  /** No capitals and no superfluous leading zero. */
  predicate CanonicalNumber(s: string) {
    (forall c | c in s :: !('A' <= c <= 'Z')) && (|s| > 1 ==> s[0] != '0')
  }

  /** Not surrounded by blanks, and every number canonical. */
  predicate Canonical(s: string) {
    TrimSpace(s) == s && forall p | p in Split(s, '.') :: CanonicalNumber(p)
  }

  lemma {:induction false} FormatIsCanonical(n: nat)
    ensures CanonicalNumber(Format(n)) && (n > 0 ==> Format(n)[0] != '0')
  {
    if n >= 36 {
      FormatIsCanonical(n / 36);
    }
  }

  lemma DigitOfDigit(c: char)
    requires DigitOf(c).Some? && !('A' <= c <= 'Z')
    ensures Digit(DigitOf(c).value) == c
  {
  }

  lemma {:induction false} FormatOfValue(s: string)
    requires s != "" && Value(s).Some? && CanonicalNumber(s)
    ensures Format(Value(s).value) == s && (s[0] != '0' ==> Value(s).value > 0)
    decreases |s|
  {
    var front, c := s[..|s| - 1], s[|s| - 1];
    assert c in s && s == front + [c];
    DigitOfDigit(c);
    if front != "" {
      assert forall x | x in front :: x in s;
      FormatOfValue(front);
      var v, d := Value(front).value, DigitOf(c).value;
      assert (v * 36 + d) / 36 == v && (v * 36 + d) % 36 == d;
    }
  }

  /** A text that parses is the token of what it parses to exactly when it is canonical:
      parsing also takes blanks around it, capitals and leading zeros. */
  lemma ParsedIsTokenIff(s: string)
    requires ParseToken(s).Some?
    ensures s == Token(ParseToken(s).value) <==> Canonical(s)
  {
    var e := ParseToken(s).value;
    if Canonical(s) {
      var parts := Split(s, '.');
      assert parts[0] in parts && parts[1] in parts && parts[2] in parts;
      FormatOfValue(parts[0]);
      FormatOfValue(parts[1]);
      FormatOfValue(parts[2]);
      JoinSplit(s, '.');
      JoinThree(parts);
    }
    TrimToken(e);
    SplitToken(e);
    FormatIsCanonical(e.global);
    FormatIsCanonical(e.org);
    FormatIsCanonical(e.addon);
    hide Token, Format, CanonicalNumber, TrimSpace;
  }

  lemma JoinThree(parts: seq<string>)
    requires |parts| == 3
    ensures Join(parts, '.') == parts[0] + ['.'] + (parts[1] + ['.'] + parts[2])
  {
    assert parts[1..][1..] == [parts[2]];
    assert Join([parts[2]], '.') == parts[2];
    assert Join(parts[1..], '.') == parts[1] + ['.'] + parts[2];
  }

  /** Every token with a zero before it parses to the same epoch, and is no token. */
  lemma LeadingZeroParses(e: Epoch)
    ensures ParseToken(['0'] + Token(e)) == Some(e) && forall d :: Token(d) != ['0'] + Token(e)
  {
    hide Format, Split, Parse, TrimSpace, Token;
    var s := ['0'] + Token(e);
    PaddedSplits(e);
    LeadingZeroReads(e.global);
    FormatParses(e.org);
    FormatParses(e.addon);
    forall d
      ensures Token(d) != s
    {
      TokenRoundTrip(d);
      assert |s| == |Token(e)| + 1;
    }
  }

  lemma PaddedSplits(e: Epoch)
    ensures var s := ['0'] + Token(e);
      TrimSpace(s) == s && Split(s, '.') == [['0'] + Format(e.global), Format(e.org), Format(e.addon)]
  {
    var g, o, a := Format(e.global), Format(e.org), Format(e.addon);
    var s := ['0'] + Token(e);
    hide Format, Split, TrimSpace;
    assert s == (['0'] + g) + ['.'] + (o + ['.'] + a);
    assert a[|a| - 1] in a && s[0] == '0' && s[|s| - 1] == a[|a| - 1];
    TrimKeeps(s);
    SplitFirst(['0'] + g, o + ['.'] + a);
    SplitFirst(o, a);
    SplitLast(a);
  }

  lemma LeadingZeroReads(n: Counter)
    ensures Parse(['0'] + Format(n)) == Some(n)
  {
    ValueOfFormat(n);
    LeadingZero(Format(n));
  }

  lemma {:induction false} LeadingZero(s: string)
    ensures Value(['0'] + s) == Value(s)
    decreases |s|
  {
    var t := ['0'] + s;
    if s == "" {
      assert t[..0] == "";
    } else {
      assert t[..|t| - 1] == ['0'] + s[..|s| - 1];
      LeadingZero(s[..|s| - 1]);
    }
  }
}
