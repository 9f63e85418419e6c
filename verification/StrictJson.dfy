/**
 The strict scanner for provider output: one pass over the bytes with a stack of
 open containers, against the definition of duplicate keys on the parsed tree
 (RFC 8259, sections 4 and 7).
 */
module StrictJson {
  import opened Wrappers

  type Byte = b: int | 0 <= b < 256

  type Bytes = seq<Byte>

  const QUOTE: Byte := 34
  const COMMA: Byte := 44
  const COLON: Byte := 58
  const LBRACKET: Byte := 91
  const BACKSLASH: Byte := 92
  const RBRACKET: Byte := 93
  const LBRACE: Byte := 123
  const RBRACE: Byte := 125

  // ---- the text of a JSON value ----

  /** Concrete syntax.  `Scalar` is a number or one of the three literal names,
      `Str` holds the bytes between the quotes; the other byte fields are white space. */
  datatype Json =
    | Scalar(text: Bytes)
    | Str(raw: Bytes)
    | Arr(gap: Bytes, items: Items)
    | Obj(gap: Bytes, members: Members)

  datatype Items = NoItems | Item(pre: Bytes, value: Json, post: Bytes, rest: Items)

  datatype Members =
    | NoMembers
    | Member(pre: Bytes, key: Bytes, mid: Bytes, colonGap: Bytes, value: Json, post: Bytes, rest: Members)

  predicate IsSpace(b: Byte) {
    b == 32 || b == 9 || b == 10 || b == 13
  }

  predicate Spaces(s: Bytes) {
    forall b | b in s :: IsSpace(b)
  }

  predicate IsDigit(b: Byte) { 48 <= b <= 57 }

  predicate IsHex(b: Byte) { IsDigit(b) || 65 <= b <= 70 || 97 <= b <= 102 }

  const TRUE_TEXT: Bytes := [116, 114, 117, 101]
  const FALSE_TEXT: Bytes := [102, 97, 108, 115, 101]
  const NULL_TEXT: Bytes := [110, 117, 108, 108]

  /** A literal name, or a text over the number alphabet (every JSON number is one). */
  predicate ScalarText(s: Bytes) {
    || s == TRUE_TEXT || s == FALSE_TEXT || s == NULL_TEXT
    || (s != [] && forall b | b in s :: IsDigit(b) || b == 43 || b == 45 || b == 46 || b == 69 || b == 101)
  }

  predicate IsUnicodeEscape(s: Bytes) {
    |s| >= 6 && s[0] == BACKSLASH && s[1] == 117 && IsHex(s[2]) && IsHex(s[3]) && IsHex(s[4]) && IsHex(s[5])
  }

  /** Valid bytes between the quotes of a string. */
  predicate StringBody(s: Bytes) {
    if s == [] then true
    else if s[0] == BACKSLASH then
      if IsUnicodeEscape(s) then StringBody(s[6..])
      else
        |s| >= 2 && s[1] in {QUOTE, BACKSLASH, 47, 98, 102, 110, 114, 116} && StringBody(s[2..])
    else s[0] != QUOTE && s[0] >= 32 && StringBody(s[1..])
  }

  predicate WellFormed(v: Json) {
    match v
    case Scalar(text) => ScalarText(text)
    case Str(raw) => StringBody(raw)
    case Arr(gap, items) => Spaces(gap) && WellFormedItems(items)
    case Obj(gap, members) => Spaces(gap) && WellFormedMembers(members)
  }

  predicate WellFormedItems(items: Items) {
    items.Item? ==> Spaces(items.pre) && WellFormed(items.value) && Spaces(items.post) && WellFormedItems(items.rest)
  }

  predicate WellFormedMembers(ms: Members) {
    ms.Member? ==>
      && Spaces(ms.pre) && StringBody(ms.key) && Spaces(ms.mid) && Spaces(ms.colonGap)
      && WellFormed(ms.value) && Spaces(ms.post) && WellFormedMembers(ms.rest)
  }

  function Render(v: Json): Bytes {
    match v
    case Scalar(text) => text
    case Str(raw) => [QUOTE] + raw + [QUOTE]
    case Arr(gap, items) => [LBRACKET] + gap + RenderItems(items) + [RBRACKET]
    case Obj(gap, members) => [LBRACE] + gap + RenderMembers(members) + [RBRACE]
  }

  function RenderItems(items: Items): Bytes {
    match items
    case NoItems => []
    case Item(pre, value, post, rest) =>
      pre + Render(value) + post + (if rest == NoItems then [] else [COMMA] + RenderItems(rest))
  }

  function RenderMembers(ms: Members): Bytes {
    match ms
    case NoMembers => []
    case Member(pre, key, mid, colonGap, value, post, rest) =>
      pre + ([QUOTE] + key + [QUOTE] + (mid + ([COLON] + (colonGap + (Render(value) + (post
        + (if rest == NoMembers then [] else [COMMA] + RenderMembers(rest))))))))
  }

  // ---- duplicate keys on the tree ----

  function HexValue(b: Byte): (v: int)
    requires IsHex(b)
    ensures 0 <= v < 16
  {
    if b <= 57 then b - 48 else if b <= 70 then b - 55 else b - 87
  }

  function CodeUnit(s: Bytes): (u: int)
    requires |s| == 4 && forall b | b in s :: IsHex(b)
    ensures 0 <= u < 0x10000
  {
    HexValue(s[0]) * 4096 + HexValue(s[1]) * 256 + HexValue(s[2]) * 16 + HexValue(s[3])
  }

  /** UTF-8 of a code point. */
  function Encode(r: int): Bytes
    requires 0 <= r < 0x110000
  {
    if r < 0x80 then [r]
    else if r < 0x800 then [0xC0 + r / 64, 0x80 + r % 64]
    else if r < 0x10000 then [0xE0 + r / 4096, 0x80 + r / 64 % 64, 0x80 + r % 64]
    else [0xF0 + r / 262144, 0x80 + r / 4096 % 64, 0x80 + r / 64 % 64, 0x80 + r % 64]
  }

  function EscapeUnit(s: Bytes): (u: int)
    requires IsUnicodeEscape(s)
    ensures 0 <= u < 0x10000
  {
    CodeUnit([s[2], s[3], s[4], s[5]])
  }

  lemma EscapeTail(s: Bytes)
    requires StringBody(s) && IsUnicodeEscape(s)
    ensures StringBody(s[6..])
  {
  }

  function SimpleEscape(b: Byte): Byte {
    if b == 98 then 8 else if b == 102 then 12 else if b == 110 then 10
    else if b == 114 then 13 else if b == 116 then 9 else b
  }

  const REPLACEMENT := 0xFFFD

  /** The decoded string: a surrogate pair is one code point, a lone surrogate the
      replacement character. */
  function Decode(s: Bytes): Bytes
    requires StringBody(s)
  {
    if s == [] then []
    else if s[0] != BACKSLASH then [s[0]] + Decode(s[1..])
    else if !IsUnicodeEscape(s) then [SimpleEscape(s[1])] + Decode(s[2..])
    else
      var u := EscapeUnit(s);
      if !(0xD800 <= u < 0xE000) then Encode(u) + Decode(s[6..])
      else if u < 0xDC00 && IsUnicodeEscape(s[6..]) && 0xDC00 <= EscapeUnit(s[6..]) < 0xE000 then
        EscapeTail(s[6..]);
        Encode(0x10000 + (u - 0xD800) * 1024 + (EscapeUnit(s[6..]) - 0xDC00)) + Decode(s[6..][6..])
      else Encode(REPLACEMENT) + Decode(s[6..])
  }

  function Keys(ms: Members): seq<Bytes>
    requires WellFormedMembers(ms)
  {
    if ms == NoMembers then [] else [Decode(ms.key)] + Keys(ms.rest)
  }

  predicate Repeats(keys: seq<Bytes>) {
    exists i, j | 0 <= i < j < |keys| :: keys[i] == keys[j]
  }

  /** Some object, at any depth, has two members with the same decoded key. */
  predicate HasDuplicate(v: Json)
    requires WellFormed(v)
  {
    match v
    case Scalar(_) => false
    case Str(_) => false
    case Arr(_, items) => ItemsHaveDuplicate(items)
    case Obj(_, members) => Repeats(Keys(members)) || ValuesHaveDuplicate(members)
  }

  predicate ItemsHaveDuplicate(items: Items)
    requires WellFormedItems(items)
  {
    items.Item? && (HasDuplicate(items.value) || ItemsHaveDuplicate(items.rest))
  }

  predicate ValuesHaveDuplicate(ms: Members)
    requires WellFormedMembers(ms)
  {
    ms.Member? && (HasDuplicate(ms.value) || ValuesHaveDuplicate(ms.rest))
  }

  // ---- the scanner ----

  datatype Frame = Frame(obj: bool, wantKey: bool, keys: set<Bytes>)

  /** Panic stands for an index out of range or a pop of the empty stack. */
  datatype Outcome = Clean | Duplicate | Panic

  /** Offset of the closing quote; None runs off the end. */
  function CloseQuote(s: Bytes): (r: Option<nat>)
    ensures r.Some? ==> r.value < |s|
  {
    if s == [] then None
    else if s[0] == QUOTE then Some(0)
    else
      var skip := if s[0] == BACKSLASH then 2 else 1;
      if |s| < skip then None
      else match CloseQuote(s[skip..])
        case None => None
        case Some(n) => Some(n + skip)
  }

  /** The key as the scanner compares it: decoded only when it has an escape. */
  function KeyOf(raw: Bytes): Bytes {
    if BACKSLASH in raw && StringBody(raw) then Decode(raw) else raw
  }

  /** What a string token does to the stack; None reports a duplicate. */
  function TakeString(raw: Bytes, stack: seq<Frame>): Option<seq<Frame>>
    requires stack != []
  {
    var top := stack[|stack| - 1];
    if !(top.obj && top.wantKey) then Some(stack)
    else if KeyOf(raw) in top.keys then None
    else Some(stack[|stack| - 1 := Frame(true, false, top.keys + {KeyOf(raw)})])
  }

  function TakeComma(stack: seq<Frame>): seq<Frame>
    requires stack != []
  {
    var top := stack[|stack| - 1];
    if top.obj then stack[|stack| - 1 := top.(wantKey := true)] else stack
  }

  function Scan(s: Bytes, stack: seq<Frame>): Outcome
    decreases |s|
  {
    if s == [] then Clean
    else if s[0] == LBRACE then Scan(s[1..], stack + [Frame(true, true, {})])
    else if s[0] == LBRACKET then Scan(s[1..], stack + [Frame(false, false, {})])
    else if s[0] == RBRACE || s[0] == RBRACKET then
      if stack == [] then Panic else Scan(s[1..], stack[..|stack| - 1])
    else if s[0] == COMMA then
      if stack == [] then Panic else Scan(s[1..], TakeComma(stack))
    else if s[0] == QUOTE then
      match CloseQuote(s[1..])
      case None => Panic
      case Some(n) =>
        if stack == [] then Panic
        else match TakeString(s[1..][..n], stack)
          case None => Duplicate
          case Some(after) => Scan(s[1..][n + 1..], after)
    else Scan(s[1..], stack)
  }

  datatype Verdict = NotUtf8 | NotJson | Scanned(outcome: Outcome)

  /** The text is one JSON value between white space. */
  ghost predicate IsTextOf(raw: Bytes, pre: Bytes, v: Json, post: Bytes) {
    Spaces(pre) && WellFormed(v) && Spaces(post) && raw == pre + Render(v) + post
  }

  /** The scan; the answers of the two library validators are inputs. */
  method StrictJsonObject(raw: Bytes, utf8Valid: bool, jsonValid: bool) returns (r: Verdict)
    ensures r == if !utf8Valid then NotUtf8 else if !jsonValid then NotJson else Scanned(Scan(raw, []))
  {
    hide KeyOf, CloseQuote;
    if !utf8Valid {
      return NotUtf8;
    }
    if !jsonValid {
      return NotJson;
    }
    var stack: seq<Frame> := [];
    var i := 0;
    while i < |raw|
      invariant 0 <= i <= |raw|
      invariant Scan(raw, []) == Scan(raw[i..], stack)
    {
      var c := raw[i];
      assert raw[i..][1..] == raw[i + 1..];
      if c == LBRACE {
        stack := stack + [Frame(true, true, {})];
      } else if c == LBRACKET {
        stack := stack + [Frame(false, false, {})];
      } else if c == RBRACE || c == RBRACKET {
        if stack == [] {
          return Scanned(Panic);
        }
        stack := stack[..|stack| - 1];
      } else if c == COMMA {
        if stack == [] {
          return Scanned(Panic);
        }
        if stack[|stack| - 1].obj {
          stack := stack[|stack| - 1 := stack[|stack| - 1].(wantKey := true)];
        }
      } else if c == QUOTE {
        var close := FindClose(raw, i + 1);
        if close.None? || stack == [] {
          return Scanned(Panic);
        }
        var j := close.value;
        assert raw[i + 1..][..j - (i + 1)] == raw[i + 1..j];
        assert raw[i + 1..][j - (i + 1) + 1..] == raw[j + 1..];
        var top := stack[|stack| - 1];
        if top.obj && top.wantKey {
          var key := KeyOf(raw[i + 1..j]);
          if key in top.keys {
            return Scanned(Duplicate);
          }
          stack := stack[|stack| - 1 := Frame(true, false, top.keys + {key})];
        }
        i := j;
      }
      i := i + 1;
    }
    return Scanned(Clean);
  }

  /** The inner loop: the index of the quote that closes the string opened before `from`. */
  method FindClose(raw: Bytes, from: nat) returns (r: Option<nat>)
    requires from <= |raw|
    ensures match CloseQuote(raw[from..])
      case None => r.None?
      case Some(n) => r == Some(from + n)
    ensures r.Some? ==> from <= r.value < |raw|
  {
    var j := from;
    while j < |raw| && raw[j] != QUOTE
      invariant from <= j
      invariant j <= |raw| ==> match CloseQuote(raw[j..])
        case None => CloseQuote(raw[from..]).None?
        case Some(n) => CloseQuote(raw[from..]) == Some(j - from + n)
      invariant j > |raw| ==> CloseQuote(raw[from..]).None?
      decreases |raw| - j
    {
      var skip := if raw[j] == BACKSLASH then 2 else 1;
      if j + skip <= |raw| {
        assert raw[j..][skip..] == raw[j + skip..];
      }
      j := j + skip;
    }
    return if j < |raw| then Some(j) else None;
  }

  // ---- the scanner agrees with the tree ----

  /** Without an escape the raw bytes are the decoded key. */
  lemma {:induction false} KeyOfDecodes(raw: Bytes)
    requires StringBody(raw)
    ensures KeyOf(raw) == Decode(raw)
  {
    if raw != [] && BACKSLASH !in raw {
      assert forall b :: b in raw[1..] ==> b in raw;
      KeyOfDecodes(raw[1..]);
      assert raw == [raw[0]] + raw[1..];
    }
  }

  /** The quote search stops exactly at the end of a valid string body. */
  lemma {:induction false} CloseQuoteOfBody(raw: Bytes, rest: Bytes)
    requires StringBody(raw)
    ensures CloseQuote(raw + [QUOTE] + rest) == Some(|raw|)
    decreases |raw|
  {
    var s := raw + [QUOTE] + rest;
    if raw == [] {
      assert s[0] == QUOTE;
    } else if raw[0] != BACKSLASH {
      CloseQuoteOfBody(raw[1..], rest);
      assert s[1..] == raw[1..] + [QUOTE] + rest;
    } else if !IsUnicodeEscape(raw) {
      CloseQuoteOfBody(raw[2..], rest);
      assert s[2..] == raw[2..] + [QUOTE] + rest;
    } else {
      // the four hexadecimal digits are plain bytes for the search
      CloseQuoteOfBody(raw[6..], rest);
      var t := raw[6..] + [QUOTE] + rest;
      assert s[2..] == raw[2..6] + t;
      PlainPrefix(raw[2..6], t);
    }
  }

  lemma {:induction false} PlainPrefix(plain: Bytes, s: Bytes)
    requires forall b | b in plain :: b != QUOTE && b != BACKSLASH
    requires CloseQuote(s).Some?
    ensures CloseQuote(plain + s) == Some(|plain| + CloseQuote(s).value)
  {
    if plain == [] {
      assert plain + s == s;
    } else {
      assert plain[0] in plain && forall b | b in plain[1..] :: b in plain;
      PlainPrefix(plain[1..], s);
      assert (plain + s)[1..] == plain[1..] + s;
    }
  }

  predicate IsPlain(b: Byte) {
    b != QUOTE && b != COMMA && b != LBRACKET && b != RBRACKET && b != LBRACE && b != RBRACE
  }

  /** White space, colons and scalars leave the stack alone. */
  lemma {:induction false} SkipPlain(plain: Bytes, rest: Bytes, stack: seq<Frame>)
    requires forall b | b in plain :: IsPlain(b)
    ensures Scan(plain + rest, stack) == Scan(rest, stack)
  {
    if plain == [] {
      assert plain + rest == rest;
    } else {
      assert IsPlain(plain[0]) && forall b | b in plain[1..] :: b in plain;
      SkipPlain(plain[1..], rest, stack);
      assert (plain + rest)[1..] == plain[1..] + rest;
    }
  }

  lemma SkipSpaces(gap: Bytes, rest: Bytes, stack: seq<Frame>)
    requires Spaces(gap)
    ensures Scan(gap + rest, stack) == Scan(rest, stack)
  {
    SkipPlain(gap, rest, stack);
  }

  lemma ScanString(raw: Bytes, rest: Bytes, stack: seq<Frame>)
    requires StringBody(raw) && stack != []
    ensures Scan([QUOTE] + raw + [QUOTE] + rest, stack)
      == match TakeString(raw, stack) case None => Duplicate case Some(after) => Scan(rest, after)
  {
    var s := [QUOTE] + raw + [QUOTE] + rest;
    CloseQuoteOfBody(raw, rest);
    assert s[1..] == raw + [QUOTE] + rest;
    assert s[1..][..|raw|] == raw && s[1..][|raw| + 1..] == rest;
  }

  predicate ExpectsKey(stack: seq<Frame>) {
    stack != [] && stack[|stack| - 1].obj && stack[|stack| - 1].wantKey
  }

  /** Scanning a whole value returns to the same stack, or reports its duplicate. */
  lemma {:induction false} ScanValue(v: Json, rest: Bytes, stack: seq<Frame>)
    requires WellFormed(v) && !ExpectsKey(stack)
    requires v.Str? ==> stack != []
    ensures Scan(Render(v) + rest, stack) == if HasDuplicate(v) then Duplicate else Scan(rest, stack)
    decreases v, 1
  {
    match v
    case Scalar(text) =>
      SkipPlain(text, rest, stack);
    case Str(raw) =>
      ScanString(raw, rest, stack);
      assert Render(v) + rest == [QUOTE] + raw + [QUOTE] + rest;
    case Arr(gap, items) =>
      ScanArray(v, rest, stack);
    case Obj(gap, members) =>
      ScanObject(v, rest, stack);
  }

  lemma ScanArray(v: Json, rest: Bytes, stack: seq<Frame>)
    requires WellFormed(v) && v.Arr?
    ensures Scan(Render(v) + rest, stack) == if HasDuplicate(v) then Duplicate else Scan(rest, stack)
    decreases v, 0
  {
    var inner := stack + [Frame(false, false, {})];
    var body := RenderItems(v.items) + ([RBRACKET] + rest);
    assert Render(v) + rest == [LBRACKET] + (v.gap + body);
    OpenArray(v.gap + body, stack);
    SkipSpaces(v.gap, body, inner);
    ScanItems(v.items, [RBRACKET] + rest, inner);
    CloseArray(rest, stack);
    hide Scan;
  }

  lemma OpenArray(s: Bytes, stack: seq<Frame>)
    ensures Scan([LBRACKET] + s, stack) == Scan(s, stack + [Frame(false, false, {})])
  {
    assert ([LBRACKET] + s)[1..] == s;
  }

  lemma CloseArray(rest: Bytes, stack: seq<Frame>)
    ensures Scan([RBRACKET] + rest, stack + [Frame(false, false, {})]) == Scan(rest, stack)
  {
    assert ([RBRACKET] + rest)[1..] == rest && (stack + [Frame(false, false, {})])[..|stack|] == stack;
  }

  lemma ScanObject(v: Json, rest: Bytes, stack: seq<Frame>)
    requires WellFormed(v) && v.Obj?
    ensures Scan(Render(v) + rest, stack) == if HasDuplicate(v) then Duplicate else Scan(rest, stack)
    decreases v, 0
  {
    var inner := stack + [Frame(true, true, {})];
    var body := RenderMembers(v.members) + ([RBRACE] + rest);
    assert Render(v) + rest == [LBRACE] + (v.gap + body);
    OpenObject(v.gap + body, stack);
    SkipSpaces(v.gap, body, inner);
    CloseObject(rest, stack);
    ScanMembers(v.members, [RBRACE] + rest, stack, {});
    FindsRepeat(v.members, {});
    hide Scan;
  }

  lemma OpenObject(s: Bytes, stack: seq<Frame>)
    ensures Scan([LBRACE] + s, stack) == Scan(s, stack + [Frame(true, true, {})])
  {
    assert ([LBRACE] + s)[1..] == s;
  }

  /** A closing brace drops the object's frame, whatever it has collected. */
  lemma CloseObject(rest: Bytes, stack: seq<Frame>)
    ensures forall f :: Scan([RBRACE] + rest, stack + [f]) == Scan(rest, stack)
  {
    forall f
      ensures Scan([RBRACE] + rest, stack + [f]) == Scan(rest, stack)
    {
      assert ([RBRACE] + rest)[1..] == rest && (stack + [f])[..|stack|] == stack;
    }
  }

  function ItemsTail(more: Items, rest: Bytes): Bytes {
    if more == NoItems then rest else [COMMA] + (RenderItems(more) + rest)
  }

  lemma RenderItem(items: Items, rest: Bytes)
    requires items.Item?
    ensures RenderItems(items) + rest == items.pre + (Render(items.value) + (items.post + ItemsTail(items.rest, rest)))
  {
    var more := if items.rest == NoItems then [] else [COMMA] + RenderItems(items.rest);
    var value := Render(items.value);
    hide Render;
    assert more + rest == ItemsTail(items.rest, rest);
    Assoc(items.pre + value + items.post, more, rest);
    Assoc(items.pre + value, items.post, more + rest);
    Assoc(items.pre, value, items.post + (more + rest));
  }

  lemma ScanItemComma(s: Bytes, stack: seq<Frame>)
    requires stack != [] && !stack[|stack| - 1].obj
    ensures Scan([COMMA] + s, stack) == Scan(s, stack)
  {
    assert ([COMMA] + s)[1..] == s;
  }

  lemma {:induction false} ScanItems(items: Items, rest: Bytes, stack: seq<Frame>)
    requires WellFormedItems(items) && stack != [] && !stack[|stack| - 1].obj
    ensures Scan(RenderItems(items) + rest, stack) == if ItemsHaveDuplicate(items) then Duplicate else Scan(rest, stack)
    decreases items, 1
  {
    hide Scan, HasDuplicate;
    if items == NoItems {
      assert RenderItems(items) + rest == rest;
    } else {
      var tail := ItemsTail(items.rest, rest);
      RenderItem(items, rest);
      SkipSpaces(items.pre, Render(items.value) + (items.post + tail), stack);
      ScanValue(items.value, items.post + tail, stack);
      SkipSpaces(items.post, tail, stack);
      if items.rest != NoItems {
        ScanItemComma(RenderItems(items.rest) + rest, stack);
        ScanItems(items.rest, rest, stack);
      }
    }
  }

  /** The duplicate the scanner can see from the keys met so far. */
  predicate MeetsDuplicate(ms: Members, seen: set<Bytes>)
    requires WellFormedMembers(ms)
  {
    ms.Member? &&
    (Decode(ms.key) in seen || HasDuplicate(ms.value) || MeetsDuplicate(ms.rest, seen + {Decode(ms.key)}))
  }

  function KeySet(ms: Members): set<Bytes>
    requires WellFormedMembers(ms)
  {
    if ms == NoMembers then {} else {Decode(ms.key)} + KeySet(ms.rest)
  }

  /** What follows the key of a member, up to `tail`. */
  function AfterKey(ms: Members, tail: Bytes): Bytes
    requires ms.Member?
  {
    ms.mid + ([COLON] + (ms.colonGap + (Render(ms.value) + (ms.post + tail))))
  }

  function MembersTail(more: Members, rest: Bytes): Bytes {
    if more == NoMembers then rest else [COMMA] + (RenderMembers(more) + rest)
  }

  lemma RenderMember(ms: Members, rest: Bytes)
    requires ms.Member?
    ensures RenderMembers(ms) + rest == ms.pre + ([QUOTE] + ms.key + [QUOTE] + AfterKey(ms, MembersTail(ms.rest, rest)))
  {
    var more := if ms.rest == NoMembers then [] else [COMMA] + RenderMembers(ms.rest);
    assert more + rest == MembersTail(ms.rest, rest);
    var p1 := ms.post + more;
    var p2 := Render(ms.value) + p1;
    var p3 := ms.colonGap + p2;
    var p4 := [COLON] + p3;
    var p5 := ms.mid + p4;
    hide Render;
    Assoc(ms.post, more, rest);
    Assoc(Render(ms.value), p1, rest);
    Assoc(ms.colonGap, p2, rest);
    Assoc([COLON], p3, rest);
    Assoc(ms.mid, p4, rest);
    Assoc([QUOTE] + ms.key + [QUOTE], p5, rest);
    Assoc(ms.pre, [QUOTE] + ms.key + [QUOTE] + p5, rest);
  }

  lemma Assoc(a: Bytes, b: Bytes, c: Bytes)
    ensures (a + b) + c == a + (b + c)
  {
  }

  /** A key in an object that expects one is looked up and then remembered. */
  lemma ScanKey(ms: Members, tail: Bytes, stack: seq<Frame>, seen: set<Bytes>)
    requires WellFormedMembers(ms) && ms.Member?
    ensures Scan(ms.pre + ([QUOTE] + ms.key + [QUOTE] + tail), stack + [Frame(true, true, seen)])
      == if Decode(ms.key) in seen then Duplicate
         else Scan(tail, stack + [Frame(true, false, seen + {Decode(ms.key)})])
  {
    var open := stack + [Frame(true, true, seen)];
    SkipSpaces(ms.pre, [QUOTE] + ms.key + [QUOTE] + tail, open);
    ScanString(ms.key, tail, open);
    KeyOfDecodes(ms.key);
    assert open[|open| - 1 := Frame(true, false, seen + {Decode(ms.key)})]
      == stack + [Frame(true, false, seen + {Decode(ms.key)})];
  }

  lemma ScanComma(s: Bytes, stack: seq<Frame>, keys: set<Bytes>)
    ensures Scan([COMMA] + s, stack + [Frame(true, false, keys)]) == Scan(s, stack + [Frame(true, true, keys)])
  {
    var mine := stack + [Frame(true, false, keys)];
    assert TakeComma(mine) == stack + [Frame(true, true, keys)];
    assert ([COMMA] + s)[1..] == s;
  }

  lemma {:induction false} ScanMembers(ms: Members, rest: Bytes, stack: seq<Frame>, seen: set<Bytes>)
    requires WellFormedMembers(ms)
    ensures Scan(RenderMembers(ms) + rest, stack + [Frame(true, true, seen)])
      == if MeetsDuplicate(ms, seen) then Duplicate
         else Scan(rest, stack + [Frame(true, ms == NoMembers, seen + KeySet(ms))])
    decreases ms, 1
  {
    hide Scan, Decode, HasDuplicate, AfterKey;
    if ms == NoMembers {
      assert RenderMembers(ms) + rest == rest && seen + KeySet(ms) == seen;
    } else {
      var seen' := seen + {Decode(ms.key)};
      var tail := MembersTail(ms.rest, rest);
      RenderMember(ms, rest);
      ScanKey(ms, AfterKey(ms, tail), stack, seen);
      ScanMemberValue(ms, tail, stack + [Frame(true, false, seen')]);
      assert seen + KeySet(ms) == seen' + KeySet(ms.rest);
      if ms.rest == NoMembers {
        assert seen' + KeySet(ms.rest) == seen';
      } else {
        ScanComma(RenderMembers(ms.rest) + rest, stack, seen');
        ScanMembers(ms.rest, rest, stack, seen');
      }
    }
  }

  /** From the colon gap to the end of a member. */
  lemma ScanMemberValue(ms: Members, tail: Bytes, stack: seq<Frame>)
    requires WellFormedMembers(ms) && ms.Member? && stack != [] && !ExpectsKey(stack)
    ensures Scan(AfterKey(ms, tail), stack) == if HasDuplicate(ms.value) then Duplicate else Scan(tail, stack)
    decreases ms, 0
  {
    var value := Render(ms.value) + (ms.post + tail);
    SkipSpaces(ms.mid, [COLON] + (ms.colonGap + value), stack);
    SkipPlain([COLON], ms.colonGap + value, stack);
    SkipSpaces(ms.colonGap, value, stack);
    ScanValue(ms.value, ms.post + tail, stack);
    SkipSpaces(ms.post, tail, stack);
  }

  predicate SomeIn(keys: seq<Bytes>, seen: set<Bytes>) {
    exists i | 0 <= i < |keys| :: keys[i] in seen
  }

  lemma RepeatsCons(k: Bytes, ks: seq<Bytes>)
    ensures Repeats([k] + ks) <==> k in ks || Repeats(ks)
  {
    var all := [k] + ks;
    if k in ks {
      var i :| 0 <= i < |ks| && ks[i] == k;
      assert all[0] == all[i + 1];
    } else if Repeats(ks) {
      var i, j :| 0 <= i < j < |ks| && ks[i] == ks[j];
      assert all[i + 1] == ks[i] && all[j + 1] == ks[j];
    } else {
      forall i, j | 0 <= i < j < |all|
        ensures all[i] != all[j]
      {
        assert all[j] == ks[j - 1];
        assert i > 0 ==> all[i] == ks[i - 1];
      }
    }
  }

  lemma SomeInCons(k: Bytes, ks: seq<Bytes>, seen: set<Bytes>)
    ensures SomeIn([k] + ks, seen) <==> k in seen || SomeIn(ks, seen)
    ensures SomeIn(ks, seen + {k}) <==> SomeIn(ks, seen) || k in ks
  {
    var all := [k] + ks;
    assert all[0] == k && forall i | 0 <= i < |ks| :: all[i + 1] == ks[i];
    if SomeIn(all, seen) {
      var i :| 0 <= i < |all| && all[i] in seen;
      assert i > 0 ==> ks[i - 1] in seen;
    }
  }

  /** What the scanner can see from the left is what the tree has. */
  lemma {:induction false} FindsRepeat(ms: Members, seen: set<Bytes>)
    requires WellFormedMembers(ms)
    ensures MeetsDuplicate(ms, seen) <==> SomeIn(Keys(ms), seen) || Repeats(Keys(ms)) || ValuesHaveDuplicate(ms)
  {
    hide Repeats, SomeIn, Decode, HasDuplicate;
    if ms.Member? {
      var k := Decode(ms.key);
      FindsRepeat(ms.rest, seen + {k});
      RepeatsCons(k, Keys(ms.rest));
      SomeInCons(k, Keys(ms.rest), seen);
    } else {
      NoKeys(seen);
    }
  }

  lemma NoKeys(seen: set<Bytes>)
    ensures !SomeIn([], seen) && !Repeats([])
  {
  }

  /** On every JSON text the scan reports a duplicate exactly when some object at
      some depth of the tree has one, and it stays inside its bounds unless the
      text is a bare string. */
  lemma ScanDecidesDuplicates(raw: Bytes, pre: Bytes, v: Json, post: Bytes)
    requires IsTextOf(raw, pre, v, post)
    ensures Scan(raw, []) == if v.Str? then Panic else if HasDuplicate(v) then Duplicate else Clean
  {
    assert raw == pre + (Render(v) + post);
    SkipSpaces(pre, Render(v) + post, []);
    if v.Str? {
      CloseQuoteOfBody(v.raw, post);
      var s := Render(v) + post;
      assert s == [QUOTE] + (v.raw + [QUOTE] + post);
      assert s[1..] == v.raw + [QUOTE] + post;
    } else {
      ScanValue(v, post, []);
      SkipSpaces(post, [], []);
      assert post + [] == post;
    }
  }

  /** A text has one answer, however it is parsed. */
  lemma ObjectNeverPanics(raw: Bytes, pre: Bytes, v: Json, post: Bytes)
    requires IsTextOf(raw, pre, v, post) && v.Obj?
    ensures Scan(raw, []) != Panic
    ensures forall pre', v', post' | IsTextOf(raw, pre', v', post') && !v'.Str? :: HasDuplicate(v') == HasDuplicate(v)
  {
    ScanDecidesDuplicates(raw, pre, v, post);
    forall pre', v', post' | IsTextOf(raw, pre', v', post') && !v'.Str?
      ensures HasDuplicate(v') == HasDuplicate(v)
    {
      ScanDecidesDuplicates(raw, pre', v', post');
    }
  }
}
