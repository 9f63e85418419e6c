/**
 What a key says: the legal spellings of a sequence of code points inside a JSON
 string (RFC 8259, section 7), and that the scanner compares code points.
 */
module JsonKeys {
  import opened StrictJson

  // ---- UTF-8, by reading the bits of the bytes ----

  predicate IsScalarValue(r: int) {
    0 <= r < 0xD800 || 0xE000 <= r < 0x110000
  }

  predicate Continues(b: Byte) {
    0x80 <= b < 0xC0
  }

  /** What a lead byte carries after its marker, and what a continuation byte does. */
  function Bits(b: Byte, marker: int): int {
    b as int - marker
  }

  /** The bytes are the shortest UTF-8 form of the code point (RFC 3629, section 3). */
  predicate IsUtf8Of(s: Bytes, r: int) {
    IsScalarValue(r) &&
    if r < 0x80 then |s| == 1 && s[0] == r
    else if r < 0x800 then
      |s| == 2 && 0xC0 <= s[0] < 0xE0 && Continues(s[1]) && r == Bits(s[0], 0xC0) * 64 + Bits(s[1], 0x80)
    else if r < 0x10000 then
      && |s| == 3 && 0xE0 <= s[0] < 0xF0 && Continues(s[1]) && Continues(s[2])
      && r == (Bits(s[0], 0xE0) * 64 + Bits(s[1], 0x80)) * 64 + Bits(s[2], 0x80)
    else
      && |s| == 4 && 0xF0 <= s[0] < 0xF8 && Continues(s[1]) && Continues(s[2]) && Continues(s[3])
      && r == ((Bits(s[0], 0xF0) * 64 + Bits(s[1], 0x80)) * 64 + Bits(s[2], 0x80)) * 64 + Bits(s[3], 0x80)
  }

  lemma SixBits(r: int)
    ensures r == r / 64 * 64 + r % 64 && r / 64 / 64 == r / 4096 && r / 4096 / 64 == r / 262144
  {
  }

  lemma SplitSixBits(r: int, hi: int, lo: int)
    requires r == hi * 64 + lo && 0 <= lo < 64
    ensures r / 64 == hi && r % 64 == lo
  {
  }

  /** `Encode` writes that form. */
  lemma EncodeIsUtf8(r: int)
    requires IsScalarValue(r)
    ensures IsUtf8Of(Encode(r), r)
  {
    SixBits(r);
    SixBits(r / 64);
    SixBits(r / 4096);
  }

  /** There is no other. */
  lemma Utf8IsUnique(s: Bytes, r: int)
    requires IsUtf8Of(s, r)
    ensures s == Encode(r)
  {
    SixBits(r);
    if r >= 0x80 {
      var n := |s|;
      SplitSixBits(r, r / 64, r % 64);
      if n == 2 {
        SplitSixBits(r, Bits(s[0], 0xC0), Bits(s[1], 0x80));
      } else if n == 3 {
        var hi := Bits(s[0], 0xE0) * 64 + Bits(s[1], 0x80);
        SplitSixBits(r, hi, Bits(s[2], 0x80));
        SplitSixBits(hi, Bits(s[0], 0xE0), Bits(s[1], 0x80));
      } else {
        var mid := Bits(s[0], 0xF0) * 64 + Bits(s[1], 0x80);
        var hi := mid * 64 + Bits(s[2], 0x80);
        SplitSixBits(r, hi, Bits(s[3], 0x80));
        SplitSixBits(hi, mid, Bits(s[2], 0x80));
        SplitSixBits(mid, Bits(s[0], 0xF0), Bits(s[1], 0x80));
      }
    }
  }

  // ---- hexadecimal digits ----

  const LOWER_DIGITS: Bytes := [48, 49, 50, 51, 52, 53, 54, 55, 56, 57, 97, 98, 99, 100, 101, 102]
  const UPPER_DIGITS: Bytes := [48, 49, 50, 51, 52, 53, 54, 55, 56, 57, 65, 66, 67, 68, 69, 70]

  predicate IsDigitOf(b: Byte, v: int) {
    0 <= v < 16 && (b == LOWER_DIGITS[v] || b == UPPER_DIGITS[v])
  }

  /** Four digits of either case, the most significant first. */
  predicate IsHexOf(s: Bytes, u: int) {
    && 0 <= u < 0x10000 && |s| == 4
    && IsDigitOf(s[0], u / 0x1000) && IsDigitOf(s[1], u / 0x100 % 0x10)
    && IsDigitOf(s[2], u / 0x10 % 0x10) && IsDigitOf(s[3], u % 0x10)
  }

  lemma DigitReads(b: Byte, v: int)
    requires IsDigitOf(b, v)
    ensures IsHex(b) && HexValue(b) == v
  {
  }

  lemma HexReads(s: Bytes, u: int)
    requires IsHexOf(s, u)
    ensures (forall b | b in s :: IsHex(b)) && CodeUnit(s) == u
  {
    DigitReads(s[0], u / 0x1000);
    DigitReads(s[1], u / 0x100 % 0x10);
    DigitReads(s[2], u / 0x10 % 0x10);
    DigitReads(s[3], u % 0x10);
    hide IsDigitOf, HexValue;
    FourDigits(u);
  }

  lemma FourDigits(u: int)
    ensures u == u / 0x1000 * 0x1000 + u / 0x100 % 0x10 * 0x100 + u / 0x10 % 0x10 * 0x10 + u % 0x10
  {
    assert u / 0x10 / 0x10 == u / 0x100 && u / 0x100 / 0x10 == u / 0x1000;
    assert u == u / 0x10 * 0x10 + u % 0x10;
  }

  // ---- spellings ----

  /** One code point as it may be written: raw UTF-8, a short escape, four digits, a
      surrogate pair, or half of a pair, which stands for the replacement character. */
  datatype Part =
    | Raw(bytes: Bytes, point: int)
    | Short(letter: Byte, point: int)
    | Hex(digits: Bytes, point: int)
    | Pair(high: Bytes, low: Bytes, hi: int, lo: int)
    | Lone(digits: Bytes, unit: int)

  const SHORT_ESCAPES: map<Byte, int> :=
    map[34 := 0x22, 92 := 0x5C, 47 := 0x2F, 98 := 0x08, 102 := 0x0C, 110 := 0x0A, 114 := 0x0D, 116 := 0x09]

  predicate LegalPart(p: Part) {
    match p
    case Raw(bytes, r) => IsUtf8Of(bytes, r) && r >= 0x20 && r != 0x22 && r != 0x5C
    case Short(letter, r) => letter in SHORT_ESCAPES && r == SHORT_ESCAPES[letter]
    case Hex(digits, r) => IsHexOf(digits, r) && IsScalarValue(r)
    case Pair(high, low, hi, lo) => IsHexOf(high, hi) && IsHexOf(low, lo) && 0xD800 <= hi < 0xDC00 <= lo < 0xE000
    case Lone(digits, unit) => IsHexOf(digits, unit) && 0xD800 <= unit < 0xE000
  }

  function PointOf(p: Part): int {
    match p
    case Raw(_, r) => r
    case Short(_, r) => r
    case Hex(_, r) => r
    case Pair(_, _, hi, lo) => 0x10000 + (hi - 0xD800) * 0x400 + (lo - 0xDC00)
    case Lone(_, _) => 0xFFFD
  }

  function Written(p: Part): Bytes {
    match p
    case Raw(bytes, _) => bytes
    case Short(letter, _) => [BACKSLASH, letter]
    case Hex(digits, _) => [BACKSLASH, 117] + digits
    case Pair(high, low, _, _) => [BACKSLASH, 117] + high + ([BACKSLASH, 117] + low)
    case Lone(digits, _) => [BACKSLASH, 117] + digits
  }

  predicate IsLow(p: Part) {
    p.Lone? && p.unit >= 0xDC00
  }

  /** Every part is legal, and two lone halves in a row never make a pair. */
  predicate Legal(parts: seq<Part>) {
    parts != [] ==>
      && LegalPart(parts[0]) && Legal(parts[1..])
      && (parts[0].Lone? && parts[0].unit < 0xDC00 && |parts| > 1 ==> !IsLow(parts[1]))
  }

  function Spelling(parts: seq<Part>): Bytes {
    if parts == [] then [] else Written(parts[0]) + Spelling(parts[1..])
  }

  function Points(parts: seq<Part>): seq<int> {
    seq(|parts|, i requires 0 <= i < |parts| => PointOf(parts[i]))
  }

  predicate ScalarValues(points: seq<int>) {
    forall r | r in points :: IsScalarValue(r)
  }

  function Utf8(points: seq<int>): Bytes
    requires ScalarValues(points)
  {
    if points == [] then []
    else
      assert points[0] in points && forall r | r in points[1..] :: r in points;
      Encode(points[0]) + Utf8(points[1..])
  }

  lemma PointIsScalarValue(p: Part)
    requires LegalPart(p)
    ensures IsScalarValue(PointOf(p))
  {
  }

  lemma {:induction false} PointsAreScalarValues(parts: seq<Part>)
    requires Legal(parts)
    ensures ScalarValues(Points(parts))
  {
    if parts != [] {
      PointIsScalarValue(parts[0]);
      PointsAreScalarValues(parts[1..]);
      assert Points(parts) == [PointOf(parts[0])] + Points(parts[1..]);
    }
  }

  // ---- decoding a spelling ----

  /** Plain bytes decode to themselves. */
  lemma {:induction false} PlainDecodes(plain: Bytes, rest: Bytes)
    requires StringBody(rest) && forall b | b in plain :: b >= 32 && b != QUOTE && b != BACKSLASH
    ensures StringBody(plain + rest) && Decode(plain + rest) == plain + Decode(rest)
  {
    if plain == [] {
      assert plain + rest == rest;
    } else {
      assert plain[0] in plain && forall b | b in plain[1..] :: b in plain;
      PlainDecodes(plain[1..], rest);
      assert (plain + rest)[1..] == plain[1..] + rest;
      assert plain == [plain[0]] + plain[1..];
    }
  }

  lemma EscapeReads(digits: Bytes, u: int, rest: Bytes)
    requires IsHexOf(digits, u) && StringBody(rest)
    ensures var s := [BACKSLASH, 117] + digits + rest;
      IsUnicodeEscape(s) && EscapeUnit(s) == u && s[6..] == rest && StringBody(s)
  {
    UnitReads(digits, u, rest);
    assert ([BACKSLASH, 117] + digits + rest)[6..] == rest;
  }

  /** The text does not continue with the low half of a pair. */
  predicate NoLowNext(rest: Bytes) {
    IsUnicodeEscape(rest) ==> !(0xDC00 <= EscapeUnit(rest) < 0xE000)
  }

  /** One step of decoding at a unicode escape. */
  lemma DecodeUnit(s: Bytes)
    requires IsUnicodeEscape(s) && StringBody(s) && StringBody(s[6..])
    ensures IsScalarValue(EscapeUnit(s)) ==> Decode(s) == Encode(EscapeUnit(s)) + Decode(s[6..])
    ensures !IsScalarValue(EscapeUnit(s)) && (EscapeUnit(s) < 0xDC00 ==> NoLowNext(s[6..])) ==>
      Decode(s) == Encode(0xFFFD) + Decode(s[6..])
    ensures 0xD800 <= EscapeUnit(s) < 0xDC00 && !NoLowNext(s[6..]) ==>
      && StringBody(s[6..][6..])
      && Decode(s) == Encode(0x10000 + (EscapeUnit(s) - 0xD800) * 0x400 + (EscapeUnit(s[6..]) - 0xDC00))
                      + Decode(s[6..][6..])
  {
    hide Encode, EscapeUnit;
  }

  /** The text decodes to one code point followed by what the rest decodes to. */
  ghost predicate Yields(s: Bytes, r: int, rest: Bytes) {
    StringBody(s) && StringBody(rest) && IsScalarValue(r) && Decode(s) == Encode(r) + Decode(rest)
  }

  lemma HexDecodes(digits: Bytes, u: int, rest: Bytes)
    requires IsHexOf(digits, u) && StringBody(rest)
    ensures var s := [BACKSLASH, 117] + digits + rest;
      && (IsScalarValue(u) ==> Yields(s, u, rest))
      && (!IsScalarValue(u) && (u < 0xDC00 ==> NoLowNext(rest)) ==> Yields(s, 0xFFFD, rest))
  {
    hide Encode, Decode, StringBody, IsUnicodeEscape, EscapeUnit, IsHexOf, NoLowNext;
    EscapeReads(digits, u, rest);
    DecodeUnit([BACKSLASH, 117] + digits + rest);
  }

  lemma PartDecodes(p: Part, rest: Bytes)
    requires LegalPart(p) && StringBody(rest)
    requires p.Lone? && p.unit < 0xDC00 ==> NoLowNext(rest)
    ensures Yields(Written(p) + rest, PointOf(p), rest)
  {
    hide IsHexOf, IsUtf8Of, StringBody, NoLowNext, Yields;
    match p {
      case Raw(bytes, r) =>
        RawDecodes(bytes, r, rest);
      case Short(letter, r) =>
        ShortDecodes(letter, rest);
      case Hex(digits, r) =>
        HexDecodes(digits, r, rest);
      case Pair(high, low, hi, lo) =>
        PairDecodes(high, low, hi, lo, rest);
      case Lone(digits, unit) =>
        HexDecodes(digits, unit, rest);
    }
  }

  lemma RawDecodes(bytes: Bytes, r: int, rest: Bytes)
    requires IsUtf8Of(bytes, r) && r >= 0x20 && r != 0x22 && r != 0x5C && StringBody(rest)
    ensures Yields(bytes + rest, r, rest)
  {
    Utf8IsUnique(bytes, r);
    hide Encode, StringBody, Decode;
    PlainDecodes(bytes, rest);
  }

  lemma PairDecodes(high: Bytes, low: Bytes, hi: int, lo: int, rest: Bytes)
    requires IsHexOf(high, hi) && IsHexOf(low, lo) && 0xD800 <= hi < 0xDC00 <= lo < 0xE000 && StringBody(rest)
    ensures Yields([BACKSLASH, 117] + high + ([BACKSLASH, 117] + low) + rest,
                   0x10000 + (hi - 0xD800) * 0x400 + (lo - 0xDC00), rest)
  {
    hide Encode, Decode, StringBody, IsUnicodeEscape, EscapeUnit, IsHexOf;
    var next := [BACKSLASH, 117] + low + rest;
    EscapeReads(low, lo, rest);
    EscapeReads(high, hi, next);
    assert [BACKSLASH, 117] + high + ([BACKSLASH, 117] + low) + rest == [BACKSLASH, 117] + high + next;
    DecodeUnit([BACKSLASH, 117] + high + next);
  }

  lemma ShortDecodes(letter: Byte, rest: Bytes)
    requires letter in SHORT_ESCAPES && StringBody(rest)
    ensures Yields([BACKSLASH, letter] + rest, SHORT_ESCAPES[letter], rest)
  {
    var s := [BACKSLASH, letter] + rest;
    assert s[2..] == rest;
  }

  lemma NextIsNotLow(parts: seq<Part>)
    requires Legal(parts) && (parts != [] ==> !IsLow(parts[0]))
    requires StringBody(Spelling(parts))
    ensures NoLowNext(Spelling(parts))
  {
    if parts != [] {
      FirstIsNotLow(parts[0], Spelling(parts[1..]));
    }
  }

  lemma FirstIsNotLow(p: Part, rest: Bytes)
    requires LegalPart(p) && !IsLow(p)
    ensures NoLowNext(Written(p) + rest)
  {
    hide IsHexOf, IsUtf8Of, EscapeUnit, IsUnicodeEscape;
    match p {
      case Raw(bytes, r) =>
        RawStart(bytes, r);
        NoEscapeHere(bytes + rest);
      case Short(letter, r) =>
        NoEscapeHere([BACKSLASH, letter] + rest);
      case Hex(digits, r) =>
        UnitReads(digits, r, rest);
      case Pair(high, low, hi, lo) =>
        UnitReads(high, hi, [BACKSLASH, 117] + low + rest);
        Regroup([BACKSLASH, 117] + high, [BACKSLASH, 117] + low, rest);
      case Lone(digits, unit) =>
        UnitReads(digits, unit, rest);
    }
  }

  lemma NoEscapeHere(s: Bytes)
    requires s != [] && (s[0] != BACKSLASH || (|s| > 1 && s[1] != 117))
    ensures !IsUnicodeEscape(s)
  {
  }

  lemma RawStart(bytes: Bytes, r: int)
    requires IsUtf8Of(bytes, r) && r != 0x5C
    ensures bytes != [] && bytes[0] != BACKSLASH
  {
  }

  lemma UnitReads(digits: Bytes, u: int, rest: Bytes)
    requires IsHexOf(digits, u)
    ensures var s := [BACKSLASH, 117] + digits + rest; IsUnicodeEscape(s) && EscapeUnit(s) == u
  {
    HexReads(digits, u);
    var s := [BACKSLASH, 117] + digits + rest;
    assert s[2] == digits[0] && s[3] == digits[1] && s[4] == digits[2] && s[5] == digits[3];
    assert [s[2], s[3], s[4], s[5]] == digits;
  }

  lemma NothingDecodes()
    ensures StringBody([]) && Decode([]) == []
  {
  }

  /** Decoding any spelling of code points gives their UTF-8. */
  lemma {:induction false} SpellingDecodes(parts: seq<Part>)
    requires Legal(parts)
    ensures StringBody(Spelling(parts)) && ScalarValues(Points(parts))
    ensures Decode(Spelling(parts)) == Utf8(Points(parts))
  {
    hide Decode, Encode, Written, StringBody, LegalPart, PointOf, NoLowNext, IsScalarValue;
    PointsAreScalarValues(parts);
    NothingDecodes();
    if parts != [] {
      SpellingDecodes(parts[1..]);
      if parts[0].Lone? && parts[0].unit < 0xDC00 {
        NextIsNotLow(parts[1..]);
      }
      PartDecodes(parts[0], Spelling(parts[1..]));
      assert Points(parts)[0] == PointOf(parts[0]) && Points(parts)[1..] == Points(parts[1..]);
    }
  }

  // ---- equal keys are equal code points ----

  /** The first byte tells how many there are, and the bytes tell the code point. */
  lemma Utf8IsPrefixFree(q: int, r: int, a: Bytes, b: Bytes)
    requires IsScalarValue(q) && IsScalarValue(r) && Encode(q) + a == Encode(r) + b
    ensures q == r && a == b
  {
    var s, t := Encode(q), Encode(r);
    EncodeIsUtf8(q);
    EncodeIsUtf8(r);
    assert (s + a)[0] == s[0] && (t + b)[0] == t[0];
    assert |s| == |t|;
    assert s == (s + a)[..|s|] && t == (t + b)[..|t|];
    assert a == (s + a)[|s|..] && b == (t + b)[|t|..];
  }

  lemma {:induction false} Utf8IsInjective(ps: seq<int>, qs: seq<int>)
    requires ScalarValues(ps) && ScalarValues(qs)
    ensures Utf8(ps) == Utf8(qs) <==> ps == qs
    decreases |ps|
  {
    if ps == [] {
      if qs != [] {
        EncodeIsUtf8(qs[0]);
      }
    } else if qs == [] {
      EncodeIsUtf8(ps[0]);
    } else {
      Utf8IsInjective(ps[1..], qs[1..]);
      assert ps[0] in ps && qs[0] in qs;
      if Utf8(ps) == Utf8(qs) {
        Utf8IsPrefixFree(ps[0], qs[0], Utf8(ps[1..]), Utf8(qs[1..]));
        assert ps == [ps[0]] + ps[1..] && qs == [qs[0]] + qs[1..];
      }
    }
  }

  /** However two keys are spelled, they are the same key exactly when they say the
      same code points. */
  lemma SameKeyIffSamePoints(ps: seq<Part>, qs: seq<Part>)
    requires Legal(ps) && Legal(qs)
    ensures StringBody(Spelling(ps)) && StringBody(Spelling(qs))
    ensures KeyOf(Spelling(ps)) == KeyOf(Spelling(qs)) <==> Points(ps) == Points(qs)
  {
    SpellingDecodes(ps);
    SpellingDecodes(qs);
    KeyOfDecodes(Spelling(ps));
    KeyOfDecodes(Spelling(qs));
    Utf8IsInjective(Points(ps), Points(qs));
  }

  /** The keys of an object as they are written. */
  function RawKeys(ms: Members): seq<Bytes> {
    if ms == NoMembers then [] else [ms.key] + RawKeys(ms.rest)
  }

  lemma {:induction false} KeysDecode(ms: Members)
    requires WellFormedMembers(ms)
    ensures |Keys(ms)| == |RawKeys(ms)|
    ensures forall i | 0 <= i < |RawKeys(ms)| :: StringBody(RawKeys(ms)[i]) && Keys(ms)[i] == Decode(RawKeys(ms)[i])
  {
    hide Decode;
    if ms.Member? {
      KeysDecode(ms.rest);
    }
  }

  /** An object has a duplicate key exactly when two of its keys say the same code points. */
  lemma RepeatsIffSamePoints(ms: Members, spelled: seq<seq<Part>>)
    requires WellFormedMembers(ms) && |spelled| == |RawKeys(ms)|
    requires forall i | 0 <= i < |spelled| :: Legal(spelled[i]) && RawKeys(ms)[i] == Spelling(spelled[i])
    ensures Repeats(Keys(ms)) <==> exists i, j | 0 <= i < j < |spelled| :: Points(spelled[i]) == Points(spelled[j])
  {
    KeysDecode(ms);
    hide Decode, Points, Spelling, Legal;
    forall i, j | 0 <= i < j < |spelled|
      ensures Keys(ms)[i] == Keys(ms)[j] <==> Points(spelled[i]) == Points(spelled[j])
    {
      SameKeyIffSamePoints(spelled[i], spelled[j]);
      KeyOfDecodes(RawKeys(ms)[i]);
      KeyOfDecodes(RawKeys(ms)[j]);
    }
  }

  // ---- every key is a spelling ----

  /** The bytes are valid UTF-8. */
  ghost predicate ValidUtf8(s: Bytes) {
    exists points :: ScalarValues(points) && s == Utf8(points)
  }

  lemma DropAscii(s: Bytes)
    requires ValidUtf8(s) && s != [] && s[0] < 0x80
    ensures ValidUtf8(s[1..])
  {
    var points :| ScalarValues(points) && s == Utf8(points);
    EncodeIsUtf8(points[0]);
    assert points[0] in points && forall r | r in points[1..] :: r in points;
    assert s[0] == Encode(points[0])[0];
    assert s[1..] == Utf8(points[1..]);
  }

  lemma {:induction false} DropAsciis(s: Bytes, n: nat)
    requires ValidUtf8(s) && n <= |s| && forall i | 0 <= i < n :: s[i] < 0x80
    ensures ValidUtf8(s[n..])
    decreases n
  {
    if n == 0 {
      assert s[0..] == s;
    } else {
      DropAscii(s);
      assert forall i | 0 <= i < n - 1 :: s[1..][i] == s[i + 1];
      DropAsciis(s[1..], n - 1);
      assert s[1..][n - 1..] == s[n..];
    }
  }

  lemma {:induction false} DropPlain(plain: Bytes, rest: Bytes)
    requires StringBody(plain + rest) && forall b | b in plain :: b != BACKSLASH
    ensures StringBody(rest)
  {
    if plain == [] {
      assert plain + rest == rest;
    } else {
      assert plain[0] in plain && forall b | b in plain[1..] :: b in plain;
      assert (plain + rest)[1..] == plain[1..] + rest;
      DropPlain(plain[1..], rest);
    }
  }

  /** The first code point of a body that does not start with an escape. */
  lemma FirstRaw(s: Bytes) returns (p: Part, rest: Bytes)
    requires StringBody(s) && ValidUtf8(s) && s != [] && s[0] != BACKSLASH
    ensures p.Raw? && LegalPart(p) && s == Written(p) + rest && StringBody(rest) && ValidUtf8(rest) && |rest| < |s|
  {
    var points :| ScalarValues(points) && s == Utf8(points);
    var r := points[0];
    assert r in points && forall q | q in points[1..] :: q in points;
    p, rest := Raw(Encode(r), r), Utf8(points[1..]);
    hide Utf8;
    FirstRawIsLegal(s, r, rest);
    hide *;
  }

  lemma FirstRawIsLegal(s: Bytes, r: int, rest: Bytes)
    requires IsScalarValue(r) && s == Encode(r) + rest && StringBody(s) && s[0] != BACKSLASH
    ensures LegalPart(Raw(Encode(r), r)) && StringBody(rest) && |rest| < |s|
  {
    EncodeIsUtf8(r);
    EncodeStarts(r);
    hide Encode, IsUtf8Of;
    assert s[0] == Encode(r)[0];
    DropPlain(Encode(r), rest);
  }

  /** Only the first byte of a code point can be an ASCII one, and then it is the code point. */
  lemma EncodeStarts(r: int)
    requires IsScalarValue(r)
    ensures Encode(r) != [] && (Encode(r)[0] < 0x80 <==> r < 0x80) && (r < 0x80 ==> Encode(r)[0] == r)
    ensures Encode(r)[0] != BACKSLASH ==> forall b | b in Encode(r) :: b != BACKSLASH
  {
  }

  lemma HexWrites(s: Bytes)
    requires |s| == 4 && forall b | b in s :: IsHex(b)
    ensures IsHexOf(s, CodeUnit(s))
  {
    hide IsDigitOf, HexValue, IsHex;
    assert s[0] in s && s[1] in s && s[2] in s && s[3] in s;
    DigitWrites(s[0]);
    DigitWrites(s[1]);
    DigitWrites(s[2]);
    DigitWrites(s[3]);
    ReadDigits(HexValue(s[0]), HexValue(s[1]), HexValue(s[2]), HexValue(s[3]));
  }

  lemma DigitWrites(b: Byte)
    requires IsHex(b)
    ensures IsDigitOf(b, HexValue(b))
  {
  }

  lemma ReadDigits(a: int, b: int, c: int, d: int)
    requires 0 <= a < 16 && 0 <= b < 16 && 0 <= c < 16 && 0 <= d < 16
    ensures var u := a * 4096 + b * 256 + c * 16 + d;
      u / 0x1000 == a && u / 0x100 % 0x10 == b && u / 0x10 % 0x10 == c && u % 0x10 == d
  {
    var hi := a * 16 + b;
    var mid := hi * 16 + c;
    var u := mid * 16 + d;
    SplitDigit(u, mid, d);
    SplitDigit(mid, hi, c);
    SplitDigit(hi, a, b);
    assert u / 0x100 == mid / 0x10 && u / 0x1000 == hi / 0x10;
  }

  lemma SplitDigit(x: int, hi: int, lo: int)
    requires x == hi * 16 + lo && 0 <= lo < 16
    ensures x / 0x10 == hi && x % 0x10 == lo
  {
  }

  /** The escape a body starts with. */
  lemma FirstUnit(s: Bytes) returns (digits: Bytes)
    requires IsUnicodeEscape(s)
    ensures IsHexOf(digits, EscapeUnit(s)) && s == [BACKSLASH, 117] + digits + s[6..]
    ensures |s| >= 6 && forall i | 0 <= i < 6 :: s[i] < 0x80
  {
    digits := [s[2], s[3], s[4], s[5]];
    HexWrites(digits);
  }

  lemma FirstEscape(s: Bytes) returns (p: Part, rest: Bytes)
    requires StringBody(s) && ValidUtf8(s) && s != [] && s[0] == BACKSLASH
    ensures LegalPart(p) && s == Written(p) + rest && StringBody(rest) && ValidUtf8(rest) && |rest| < |s|
    ensures p.Lone? && p.unit < 0xDC00 ==> NoLowNext(rest)
  {
    hide IsUnicodeEscape, ValidUtf8, StringBody, LegalPart, Written, NoLowNext;
    if IsUnicodeEscape(s) {
      p, rest := FirstUnicodeEscape(s);
    } else {
      p, rest := FirstShort(s);
    }
  }

  lemma FirstShort(s: Bytes) returns (p: Part, rest: Bytes)
    requires StringBody(s) && ValidUtf8(s) && s != [] && s[0] == BACKSLASH && !IsUnicodeEscape(s)
    ensures p.Short? && LegalPart(p) && s == Written(p) + rest && StringBody(rest) && ValidUtf8(rest) && |rest| < |s|
  {
    hide IsUnicodeEscape, ValidUtf8;
    p, rest := Short(s[1], SHORT_ESCAPES[s[1]]), s[2..];
    DropAsciis(s, 2);
  }

  lemma FirstUnicodeEscape(s: Bytes) returns (p: Part, rest: Bytes)
    requires StringBody(s) && ValidUtf8(s) && IsUnicodeEscape(s)
    ensures LegalPart(p) && s == Written(p) + rest && StringBody(rest) && ValidUtf8(rest) && |rest| < |s|
    ensures p.Lone? && p.unit < 0xDC00 ==> NoLowNext(rest)
  {
    hide IsHexOf, IsUnicodeEscape, EscapeUnit, StringBody, ValidUtf8, NoLowNext;
    var u := EscapeUnit(s);
    var digits := FirstUnit(s);
    rest := s[6..];
    DropAsciis(s, 6);
    EscapeTail(s);
    if IsScalarValue(u) {
      p := Hex(digits, u);
    } else if u < 0xDC00 && !NoLowNext(rest) {
      var low, v, more := LowEscape(rest);
      p := Pair(digits, low, u, v);
      Regroup([BACKSLASH, 117] + digits, [BACKSLASH, 117] + low, more);
      rest := more;
    } else {
      p := Lone(digits, u);
    }
  }

  lemma Regroup(a: Bytes, b: Bytes, c: Bytes)
    ensures a + (b + c) == a + b + c
  {
  }

  lemma LowEscape(s: Bytes) returns (low: Bytes, v: int, rest: Bytes)
    requires StringBody(s) && ValidUtf8(s) && !NoLowNext(s)
    ensures IsHexOf(low, v) && 0xDC00 <= v < 0xE000 && s == [BACKSLASH, 117] + low + rest
    ensures StringBody(rest) && ValidUtf8(rest) && |rest| < |s|
  {
    v, rest := EscapeUnit(s), s[6..];
    low := FirstUnit(s);
    DropAsciis(s, 6);
    EscapeTail(s);
  }

  lemma LowStartsLow(parts: seq<Part>)
    requires Legal(parts) && parts != [] && IsLow(parts[0])
    ensures !NoLowNext(Spelling(parts))
  {
    UnitReads(parts[0].digits, parts[0].unit, Spelling(parts[1..]));
  }

  /** Every string body in valid UTF-8 is the spelling of some code points. */
  lemma {:induction false} EveryBodyIsASpelling(s: Bytes) returns (parts: seq<Part>)
    requires StringBody(s) && ValidUtf8(s)
    ensures Legal(parts) && Spelling(parts) == s
    decreases |s|
  {
    if s == [] {
      parts := [];
    } else {
      var p, rest;
      if s[0] == BACKSLASH {
        p, rest := FirstEscape(s);
      } else {
        p, rest := FirstRaw(s);
      }
      hide StringBody, ValidUtf8, LegalPart, Written, NoLowNext;
      var more := EveryBodyIsASpelling(rest);
      parts := [p] + more;
      assert parts[1..] == more;
      if p.Lone? && p.unit < 0xDC00 && more != [] && IsLow(more[0]) {
        LowStartsLow(more);
      }
    }
  }
}
