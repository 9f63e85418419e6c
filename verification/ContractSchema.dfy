/**
 Contract schemas: the recursive validator of provider input and output, and the
 promise that schemas evolve without invalidating what was valid before.
 */
module ContractSchema {
  import opened Wrappers
  import opened Text

  datatype FieldType =
    | TAny | TString | TDecimal | TCurrency | TCountry | TInteger | TNumber
    | TLatitude | TLongitude | TBoolean | TObject | TArray | TUnknown(typeName: string)

  /** `of` is the shape of an object or of each array element; without it `elem`
      is the type of the elements. */
  datatype Field = Field(name: string, ftype: FieldType, required: bool, enum: seq<string>,
                         of: Option<Schema>, elem: FieldType, pattern: string)

  datatype Schema = Schema(fields: seq<Field>, open: bool)

  /** A number is known by what its decoders answer: whether it is a 64-bit
      integer literal, and its float value unless it overflows. */
  datatype Value =
    | Null | Bool(b: bool) | Num(isInt64: bool, float: Option<real>) | Str(s: string)
    | Arr(items: seq<Value>) | Obj(entries: map<string, Value>)

  /** The regular-expression library. */
  datatype Regexp = Regexp(compiles: string -> bool, matches: (string, string) -> bool)

  datatype Segment = Name(name: string) | Index(i: nat)

  type Path = seq<Segment>

  datatype Issue = Missing | UnknownField | WrongType | NotInEnum | BadPattern | NoMatch | NotAnObject | UnknownType

  datatype Problem = Problem(path: Path, issue: Issue)

  predicate IsExtension(key: string) {
    |key| >= 2 && key[0] == 'x' && key[1] == '_'
  }

  predicate Declares(s: Schema, key: string) {
    exists f | f in s.fields :: f.name == key
  }

  predicate UpperCase(s: string) {
    forall c | c in s :: 'A' <= c <= 'Z'
  }

  /** `^-?(0|[1-9][0-9]*)(\.[0-9]+)?$` */
  predicate ValidDecimal(s: string) {
    ValidUnsigned(if s != "" && s[0] == '-' then s[1..] else s)
  }

  predicate ValidUnsigned(t: string) {
    var dot := IndexOf(t, '.');
    var whole := t[..dot];
    && AllDigits(whole) && whole != "" && (whole == "0" || whole[0] != '0')
    && (dot < |t| ==> AllDigits(t[dot + 1..]) && dot + 1 < |t|)
  }

  /** The checks on a value that do not look inside it, in the order they report. */
  function ScalarIssues(f: Field, val: Value, re: Regexp): seq<Issue> {
    match f.ftype
    case TAny => []
    case TString =>
      if !val.Str? then [WrongType]
      else
        (if f.enum != [] && val.s !in f.enum then [NotInEnum] else [])
        + (if f.pattern == "" then []
           else if !re.compiles(f.pattern) then [BadPattern]
           else if !re.matches(f.pattern, val.s) then [NoMatch] else [])
    case TDecimal => if val.Str? && ValidDecimal(val.s) then [] else [WrongType]
    case TCurrency => if val.Str? && |val.s| == 3 && UpperCase(val.s) then [] else [WrongType]
    case TCountry => if val.Str? && |val.s| == 2 && UpperCase(val.s) then [] else [WrongType]
    case TInteger => if val.Num? && val.isInt64 then [] else [WrongType]
    case TNumber => if val.Num? then [] else [WrongType]
    case TLatitude => if InDegrees(val, 90.0) then [] else [WrongType]
    case TLongitude => if InDegrees(val, 180.0) then [] else [WrongType]
    case TBoolean => if val.Bool? then [] else [WrongType]
    case TObject => if val.Obj? then [] else [WrongType]
    case TArray => if val.Arr? then [] else [WrongType]
    case TUnknown(_) => [UnknownType]
  }

  predicate InDegrees(val: Value, limit: real) {
    val.Num? && val.float.Some? && -limit <= val.float.value <= limit
  }

  function ElementField(f: Field): Field {
    Field("", f.elem, false, f.enum, None, TAny, f.pattern)
  }

  // ---- what the leaf checks mean ----

  const DIGITS := "0123456789"
  const CAPITALS := "ABCDEFGHIJKLMNOPQRSTUVWXYZ"

  predicate Over(s: string, alphabet: string) {
    forall c | c in s :: c in alphabet
  }

  /** An optional minus, digits without a superfluous leading zero, and optionally a point
      and digits. */
  ghost predicate IsDecimalText(s: string) {
    exists sign, whole, fraction :: s == sign + whole + fraction && IsDecimal(sign, whole, fraction)
  }

  predicate IsDecimal(sign: string, whole: string, fraction: string) {
    && sign in ["", "-"]
    && whole != "" && Over(whole, DIGITS) && (whole[0] == '0' ==> |whole| == 1)
    && (fraction == "" || (|fraction| > 1 && fraction[0] == '.' && Over(fraction[1..], DIGITS)))
  }

  lemma DigitsAreDigits(s: string)
    ensures AllDigits(s) <==> Over(s, DIGITS)
  {
    assert forall c :: c in DIGITS <==> '0' <= c <= '9' by {
      forall c | '0' <= c <= '9'
        ensures c in DIGITS
      {
        assert c == DIGITS[c as int - 48];
      }
    }
    assert forall i | 0 <= i < |s| :: s[i] in s;
  }

  lemma CapitalsAreCapitals(s: string)
    ensures UpperCase(s) <==> Over(s, CAPITALS)
  {
    assert forall c :: c in CAPITALS <==> 'A' <= c <= 'Z' by {
      forall c | 'A' <= c <= 'Z'
        ensures c in CAPITALS
      {
        assert c == CAPITALS[c as int - 65];
      }
    }
  }

  lemma ValidDecimalIff(s: string)
    ensures ValidDecimal(s) <==> IsDecimalText(s)
  {
    hide IsDecimal, ValidUnsigned;
    var sign := if s != "" && s[0] == '-' then "-" else "";
    if ValidDecimal(s) {
      var whole, fraction := UnsignedSplits(s[|sign|..]);
      assert s == sign + whole + fraction;
      SignKeepsDecimal(sign, whole, fraction);
    }
    forall sign, whole, fraction | s == sign + whole + fraction && IsDecimal(sign, whole, fraction)
      ensures ValidDecimal(s)
    {
      DecimalStarts(sign, whole, fraction);
      assert s == sign + (whole + fraction);
      assert whole + fraction == if s != "" && s[0] == '-' then s[1..] else s;
      DecimalIsValid(whole, fraction);
    }
  }

  lemma SignKeepsDecimal(sign: string, whole: string, fraction: string)
    requires sign in ["", "-"] && IsDecimal("", whole, fraction)
    ensures IsDecimal(sign, whole, fraction)
  {
  }

  lemma DecimalStarts(sign: string, whole: string, fraction: string)
    requires IsDecimal(sign, whole, fraction)
    ensures sign in ["", "-"] && whole != "" && whole[0] != '-' && IsDecimal("", whole, fraction)
  {
    DigitsAreDigits(whole);
  }

  lemma UnsignedSplits(t: string) returns (whole: string, fraction: string)
    requires ValidUnsigned(t)
    ensures t == whole + fraction && IsDecimal("", whole, fraction)
  {
    var dot := IndexOf(t, '.');
    whole, fraction := t[..dot], t[dot..];
    hide IndexOf, AllDigits, Over;
    DigitsAreDigits(whole);
    if fraction != "" {
      assert fraction[1..] == t[dot + 1..];
      DigitsAreDigits(fraction[1..]);
    }
  }

  lemma DecimalIsValid(whole: string, fraction: string)
    requires IsDecimal("", whole, fraction)
    ensures ValidUnsigned(whole + fraction)
  {
    var t := whole + fraction;
    DigitsAreDigits(whole);
    DotAfter(whole, fraction);
    hide Over, IndexOf, AllDigits;
    if fraction != "" {
      DigitsAreDigits(fraction[1..]);
      assert t[|whole| + 1..] == fraction[1..];
    }
  }

  lemma DotAfter(whole: string, fraction: string)
    requires AllDigits(whole) && (fraction == "" || fraction[0] == '.')
    ensures var t := whole + fraction; IndexOf(t, '.') == |whole| && t[..|whole|] == whole
  {
    var t := whole + fraction;
    assert forall i | 0 <= i < |whole| :: t[i] == whole[i];
    IndexOfAt(t, '.', |whole|);
  }

  /** What a value of each type is, in the words of the contract. */
  ghost predicate LeafFits(f: Field, val: Value, re: Regexp) {
    match f.ftype
    case TAny => true
    case TString =>
      && val.Str? && (f.enum == [] || val.s in f.enum)
      && (f.pattern == "" || (re.compiles(f.pattern) && re.matches(f.pattern, val.s)))
    case TDecimal => val.Str? && IsDecimalText(val.s)
    case TCurrency => val.Str? && |val.s| == 3 && Over(val.s, CAPITALS)
    case TCountry => val.Str? && |val.s| == 2 && Over(val.s, CAPITALS)
    case TInteger => val.Num? && val.isInt64
    case TNumber => val.Num?
    case TLatitude => val.Num? && exists d :: val.float == Some(d) && d <= 90.0 && -d <= 90.0
    case TLongitude => val.Num? && exists d :: val.float == Some(d) && d <= 180.0 && -d <= 180.0
    case TBoolean => val == Bool(true) || val == Bool(false)
    case TObject => val.Obj?
    case TArray => val.Arr?
    case TUnknown(_) => false
  }

  /** The checks report nothing exactly for such values; a string of the right kind can
      miss its enum and its pattern at once, everything else is one wrong type. */
  lemma LeafChecks(f: Field, val: Value, re: Regexp)
    ensures ScalarIssues(f, val, re) == [] <==> LeafFits(f, val, re)
    ensures f.ftype == TString && val.Str? ==>
      && (NotInEnum in ScalarIssues(f, val, re) <==> f.enum != [] && val.s !in f.enum)
      && (BadPattern in ScalarIssues(f, val, re) <==> f.pattern != "" && !re.compiles(f.pattern))
      && (NoMatch in ScalarIssues(f, val, re) <==>
            f.pattern != "" && re.compiles(f.pattern) && !re.matches(f.pattern, val.s))
    ensures !LeafFits(f, val, re) && !(f.ftype == TString && val.Str?) ==>
      ScalarIssues(f, val, re) == [if f.ftype.TUnknown? then UnknownType else WrongType]
  {
    if val.Str? {
      ValidDecimalIff(val.s);
      CapitalsAreCapitals(val.s);
    }
    hide ValidDecimal, IsDecimalText, UpperCase, Over;
    if val.Num? && val.float.Some? {
      assert InDegrees(val, 90.0) <==> val.float.value <= 90.0 && -val.float.value <= 90.0;
    }
  }

  /** Only names that begin with x_ are extensions. */
  lemma ExtensionsBeginWithX(key: string)
    ensures IsExtension(key) <==> "x_" <= key
  {
  }

  /** An array without a shape is one whose elements fit the element type, under the
      array's own enum and pattern. */
  lemma ArraysOfLeaves(f: Field, val: Value, lax: bool, re: Regexp)
    requires f.ftype == TArray && f.of.None? && f.elem != TArray
    ensures FieldAccepts(f, val, lax, re) <==>
      val.Arr? && forall i | 0 <= i < |val.items| :: LeafFits(f.(ftype := f.elem), val.items[i], re)
  {
    LeafChecks(f, val, re);
    if val.Arr? {
      forall i | 0 <= i < |val.items|
        ensures FieldAccepts(ElementField(f), val.items[i], lax, re) <==> LeafFits(f.(ftype := f.elem), val.items[i], re)
      {
        LeafChecks(ElementField(f), val.items[i], re);
      }
    }
    hide ScalarIssues, LeafFits;
  }

  // ---- acceptance, as a definition ----

  /** The value has the shape of the schema.  `lax` is the mode in which every
      schema is treated as open. */
  ghost predicate Accepts(s: Schema, v: map<string, Value>, lax: bool, re: Regexp)
    decreases Some(s), 0
  {
    && (forall f | f in s.fields ::
          if f.name in v && v[f.name] != Null then FieldAccepts(f, v[f.name], lax, re) else !f.required)
    && (s.open || lax || forall k | k in v :: IsExtension(k) || Declares(s, k))
  }

  ghost predicate FieldAccepts(f: Field, val: Value, lax: bool, re: Regexp)
    decreases f.of, 1, val
  {
    && ScalarIssues(f, val, re) == []
    && (f.ftype == TObject && f.of.Some? ==> Accepts(f.of.value, val.entries, lax, re))
    && (f.ftype == TArray ==> forall i | 0 <= i < |val.items| ::
          if f.of.Some? then val.items[i].Obj? && Accepts(f.of.value, val.items[i].entries, lax, re)
          else FieldAccepts(ElementField(f), val.items[i], lax, re))
  }

  /** A required field has to be there, and null does not count. */
  lemma RequiredMustBePresent(s: Schema, f: Field, v: map<string, Value>, lax: bool, re: Regexp)
    requires f in s.fields && f.required && Accepts(s, v, lax, re)
    ensures f.name in v && v[f.name] != Null
  {
  }

  /** A null member is as good as an absent one wherever undeclared keys are forgiven. */
  lemma NullIsAbsent(s: Schema, v: map<string, Value>, key: string, lax: bool, re: Regexp)
    requires s.open || lax
    ensures Accepts(s, v[key := Null], lax, re) <==> Accepts(s, v - {key}, lax, re)
  {
    hide FieldAccepts;
  }

  /** Every schema inside the schema opened. */
  function DeepOpen(s: Schema): Schema
    decreases Some(s), 0
  {
    Schema(seq(|s.fields|, i requires 0 <= i < |s.fields| => DeepOpenField(s.fields[i])), true)
  }

  function DeepOpenField(f: Field): Field
    decreases f.of, 1
  {
    match f.of
    case None => f
    case Some(s) => f.(of := Some(DeepOpen(s)))
  }

  /** The lax mode is the closed one on a schema opened at every depth. */
  lemma {:induction false} LaxIsDeepOpen(s: Schema, v: map<string, Value>, re: Regexp)
    ensures Accepts(s, v, true, re) <==> Accepts(DeepOpen(s), v, false, re)
    decreases Some(s), 0
  {
    var t := DeepOpen(s);
    forall i | 0 <= i < |s.fields|
      ensures EntryAccepted(s.fields[i], v, true, re) <==> EntryAccepted(t.fields[i], v, false, re)
    {
      var f := s.fields[i];
      assert t.fields[i] == DeepOpenField(f) && t.fields[i].name == f.name && t.fields[i].required == f.required;
      if f.name in v && v[f.name] != Null {
        LaxFieldIsDeepOpen(f, v[f.name], re);
      }
    }
    hide FieldAccepts, DeepOpenField;
    AcceptsByEntry(s, v, true, re);
    AcceptsByEntry(t, v, false, re);
    hide Accepts, EntryAccepted;
    assert (forall f | f in s.fields :: EntryAccepted(f, v, true, re))
      <==> forall i | 0 <= i < |s.fields| :: EntryAccepted(s.fields[i], v, true, re);
    assert (forall f | f in t.fields :: EntryAccepted(f, v, false, re))
      <==> forall i | 0 <= i < |t.fields| :: EntryAccepted(t.fields[i], v, false, re);
  }

  lemma {:induction false} LaxFieldIsDeepOpen(f: Field, val: Value, re: Regexp)
    ensures FieldAccepts(f, val, true, re) <==> FieldAccepts(DeepOpenField(f), val, false, re)
    decreases f.of, 1, val
  {
    var g := DeepOpenField(f);
    assert ScalarIssues(g, val, re) == ScalarIssues(f, val, re);
    if ScalarIssues(f, val, re) == [] {
      if f.ftype == TObject && f.of.Some? {
        ObjectShape(f, val, re);
        LaxIsDeepOpen(f.of.value, val.entries, re);
      } else if f.ftype == TArray {
        ArrayShape(f, val, re);
        forall i | 0 <= i < |val.items|
          ensures ElementAccepted(f, val.items[i], true, re) <==> ElementAccepted(g, val.items[i], false, re)
        {
          if f.of.None? {
            LaxFieldIsDeepOpen(ElementField(f), val.items[i], re);
            assert DeepOpenField(ElementField(f)) == ElementField(g);
          } else if val.items[i].Obj? {
            LaxIsDeepOpen(f.of.value, val.items[i].entries, re);
          }
        }
      }
    }
  }

  // ---- the problems, as a definition ----

  function Located(path: Path, issues: seq<Issue>): seq<Problem> {
    seq(|issues|, i requires 0 <= i < |issues| => Problem(path, issues[i]))
  }

  /** Every problem of an object, each as often as it is reported. */
  ghost function SchemaProblems(s: Schema, path: Path, v: map<string, Value>, lax: bool, re: Regexp): multiset<Problem>
    decreases Some(s), 0, |s.fields| + 1
  {
    FieldsProblems(s, |s.fields|, path, v, lax, re)
    + (if s.open || lax then multiset{} else multiset(UnknownKeys(s, path, v, v.Keys)))
  }

  /** The problems of the first `n` declared fields. */
  ghost function FieldsProblems(s: Schema, n: nat, path: Path, v: map<string, Value>, lax: bool, re: Regexp)
    : multiset<Problem>
    requires n <= |s.fields|
    decreases Some(s), 0, n
  {
    if n == 0 then multiset{}
    else FieldsProblems(s, n - 1, path, v, lax, re) + EntryProblems(s.fields[n - 1], path, v, lax, re)
  }

  ghost function EntryProblems(f: Field, path: Path, v: map<string, Value>, lax: bool, re: Regexp): multiset<Problem>
    decreases f.of, 2
  {
    var here := path + [Name(f.name)];
    if f.name in v && v[f.name] != Null then FieldProblems(f, here, v[f.name], lax, re)
    else if f.required then multiset{Problem(here, Missing)}
    else multiset{}
  }

  ghost function FieldProblems(f: Field, path: Path, val: Value, lax: bool, re: Regexp): multiset<Problem>
    decreases f.of, 1, val, 1
  {
    var issues := ScalarIssues(f, val, re);
    if issues != [] then multiset(Located(path, issues))
    else if f.ftype == TObject && f.of.Some? && val.Obj? then SchemaProblems(f.of.value, path, val.entries, lax, re)
    else if f.ftype == TArray && val.Arr? then ElementsProblems(f, |val.items|, path, val, lax, re)
    else multiset{}
  }

  /** The problems of the first `n` elements. */
  ghost function ElementsProblems(f: Field, n: nat, path: Path, val: Value, lax: bool, re: Regexp): multiset<Problem>
    requires val.Arr? && n <= |val.items|
    decreases f.of, 1, val, 0, n
  {
    if n == 0 then multiset{}
    else
      ElementsProblems(f, n - 1, path, val, lax, re)
      + ElementProblems(f, path + [Index(n - 1)], val.items[n - 1], lax, re)
  }

  ghost function ElementProblems(f: Field, here: Path, element: Value, lax: bool, re: Regexp): multiset<Problem>
    decreases f.of, 1, element, 2
  {
    if f.of.None? then FieldProblems(ElementField(f), here, element, lax, re)
    else if element.Obj? then SchemaProblems(f.of.value, here, element.entries, lax, re)
    else multiset{Problem(here, NotAnObject)}
  }

  /** Among the keys, those the schema neither declares nor leaves to extensions. */
  ghost function UnknownKeys(s: Schema, path: Path, v: map<string, Value>, keys: set<string>): set<Problem> {
    set k | k in keys && !IsExtension(k) && !Declares(s, k) :: Problem(path + [Name(k)], UnknownField)
  }

  ghost predicate EntryAccepted(f: Field, v: map<string, Value>, lax: bool, re: Regexp) {
    if f.name in v && v[f.name] != Null then FieldAccepts(f, v[f.name], lax, re) else !f.required
  }

  ghost predicate ElementAccepted(f: Field, element: Value, lax: bool, re: Regexp) {
    if f.of.Some? then element.Obj? && Accepts(f.of.value, element.entries, lax, re)
    else FieldAccepts(ElementField(f), element, lax, re)
  }

  /** A schema accepts exactly what has no problem. */
  lemma {:induction false} NoProblemsIffAccepted(s: Schema, path: Path, v: map<string, Value>, lax: bool, re: Regexp)
    ensures SchemaProblems(s, path, v, lax, re) == multiset{} <==> Accepts(s, v, lax, re)
    decreases Some(s), 0, |s.fields| + 1
  {
    NoFieldsProblems(s, |s.fields|, path, v, lax, re);
    assert (forall i | 0 <= i < |s.fields| :: EntryAccepted(s.fields[i], v, lax, re))
      <==> forall f | f in s.fields :: EntryAccepted(f, v, lax, re);
    NoUnknownKeys(s, path, v);
    hide EntryAccepted, FieldsProblems, UnknownKeys, FieldAccepts;
    assert Accepts(s, v, lax, re) <==>
      (forall f | f in s.fields :: EntryAccepted(f, v, lax, re))
      && (s.open || lax || forall k | k in v :: IsExtension(k) || Declares(s, k)) by {
      AcceptsByEntry(s, v, lax, re);
    }
  }

  lemma AcceptsByEntry(s: Schema, v: map<string, Value>, lax: bool, re: Regexp)
    ensures Accepts(s, v, lax, re) <==>
      (forall f | f in s.fields :: EntryAccepted(f, v, lax, re))
      && (s.open || lax || forall k | k in v :: IsExtension(k) || Declares(s, k))
  {
    hide FieldAccepts;
  }

  lemma NoUnknownKeys(s: Schema, path: Path, v: map<string, Value>)
    ensures multiset(UnknownKeys(s, path, v, v.Keys)) == multiset{} <==> forall k | k in v :: IsExtension(k) || Declares(s, k)
  {
    var unknown := UnknownKeys(s, path, v, v.Keys);
    assert multiset(unknown) == multiset{} <==> unknown == {} by {
      assert |multiset(unknown)| == |unknown|;
    }
    assert forall k | k in v && !IsExtension(k) && !Declares(s, k) :: Problem(path + [Name(k)], UnknownField) in unknown;
  }

  lemma {:induction false} NoFieldsProblems(s: Schema, n: nat, path: Path, v: map<string, Value>, lax: bool, re: Regexp)
    requires n <= |s.fields|
    ensures FieldsProblems(s, n, path, v, lax, re) == multiset{} <==>
      forall i | 0 <= i < n :: EntryAccepted(s.fields[i], v, lax, re)
    decreases Some(s), 0, n
  {
    if n > 0 {
      var f := s.fields[n - 1];
      NoFieldsProblems(s, n - 1, path, v, lax, re);
      if f.name in v && v[f.name] != Null {
        NoFieldProblems(f, path + [Name(f.name)], v[f.name], lax, re);
      }
      hide FieldProblems, FieldAccepts;
      NeitherHasAny(FieldsProblems(s, n - 1, path, v, lax, re), EntryProblems(f, path, v, lax, re));
      assert EntryProblems(f, path, v, lax, re) == multiset{} <==> EntryAccepted(f, v, lax, re);
    }
  }

  lemma NeitherHasAny(a: multiset<Problem>, b: multiset<Problem>)
    ensures a + b == multiset{} <==> a == multiset{} && b == multiset{}
  {
    assert |a + b| == |a| + |b|;
  }

  lemma {:induction false} NoFieldProblems(f: Field, path: Path, val: Value, lax: bool, re: Regexp)
    ensures FieldProblems(f, path, val, lax, re) == multiset{} <==> FieldAccepts(f, val, lax, re)
    decreases f.of, 1, val, 1
  {
    var issues := ScalarIssues(f, val, re);
    if issues != [] {
      assert |multiset(Located(path, issues))| == |issues|;
    } else if f.ftype == TObject && f.of.Some? {
      ObjectShape(f, val, re);
      NoProblemsIffAccepted(f.of.value, path, val.entries, lax, re);
    } else if f.ftype == TArray {
      ArrayShape(f, val, re);
      NoElementsProblems(f, |val.items|, path, val, lax, re);
      assert FieldAccepts(f, val, lax, re) <==>
        forall i | 0 <= i < |val.items| :: ElementAccepted(f, val.items[i], lax, re);
    }
  }

  lemma {:induction false} NoElementsProblems(f: Field, n: nat, path: Path, val: Value, lax: bool, re: Regexp)
    requires val.Arr? && n <= |val.items|
    ensures ElementsProblems(f, n, path, val, lax, re) == multiset{} <==>
      forall i | 0 <= i < n :: ElementAccepted(f, val.items[i], lax, re)
    decreases f.of, 1, val, 0, n
  {
    hide Accepts, FieldAccepts, SchemaProblems, FieldProblems, ScalarIssues;
    if n > 0 {
      var element, here := val.items[n - 1], path + [Index(n - 1)];
      NoElementsProblems(f, n - 1, path, val, lax, re);
      if f.of.None? {
        NoFieldProblems(ElementField(f), here, element, lax, re);
      } else if element.Obj? {
        NoProblemsIffAccepted(f.of.value, here, element.entries, lax, re);
      }
      assert ElementProblems(f, here, element, lax, re) == multiset{} <==> ElementAccepted(f, element, lax, re);
      NeitherHasAny(ElementsProblems(f, n - 1, path, val, lax, re), ElementProblems(f, here, element, lax, re));
    }
  }

  // ---- the validator, which appends to a shared report ----

  class Report {
    var problems: seq<Problem>

    constructor ()
      ensures problems == []
    {
      problems := [];
    }

    method Add(path: Path, issue: Issue)
      modifies this
      ensures problems == old(problems) + [Problem(path, issue)]
    {
      problems := problems + [Problem(path, issue)];
    }

    /** One message per issue. */
    method AddAll(path: Path, issues: seq<Issue>)
      modifies this
      ensures problems == old(problems) + Located(path, issues)
    {
      for i := 0 to |issues|
        invariant problems == old(problems) + Located(path, issues[..i])
      {
        Add(path, issues[i]);
        assert Located(path, issues[..i + 1]) == Located(path, issues[..i]) + [Problem(path, issues[i])];
      }
      assert issues[..|issues|] == issues;
    }
  }

  /** The report has grown by exactly these problems. */
  ghost predicate Grew(before: seq<Problem>, after: seq<Problem>, more: multiset<Problem>) {
    before <= after && multiset(after) == multiset(before) + more
  }

  lemma GrewByNothing(before: seq<Problem>, after: seq<Problem>, more: multiset<Problem>)
    requires Grew(before, after, more)
    ensures after == before <==> more == multiset{}
  {
    assert |multiset(after)| == |multiset(before)| + |more|;
  }

  lemma GrewTwice(a: seq<Problem>, b: seq<Problem>, c: seq<Problem>, m: multiset<Problem>, n: multiset<Problem>)
    requires Grew(a, b, m) && Grew(b, c, n)
    ensures Grew(a, c, m + n)
  {
  }

  lemma GrewByOne(before: seq<Problem>, p: Problem)
    ensures Grew(before, before + [p], multiset{p})
  {
  }

  /** `Schema.validate`. */
  method ValidateInto(s: Schema, path: Path, v: map<string, Value>, report: Report, lax: bool, re: Regexp)
    modifies report
    ensures Grew(old(report.problems), report.problems, SchemaProblems(s, path, v, lax, re))
    ensures report.problems == old(report.problems) <==> Accepts(s, v, lax, re)
    decreases Some(s), 0
  {
    hide Grew, Accepts, FieldAccepts, FieldProblems;
    ghost var before := report.problems;
    GrewFromTheStart(before);
    NoProblemsIffAccepted(s, path, v, lax, re);
    var i := 0;
    while i < |s.fields|
      invariant 0 <= i <= |s.fields|
      invariant Grew(before, report.problems, FieldsProblems(s, i, path, v, lax, re))
    {
      ghost var sofar := report.problems;
      EntryInto(s.fields[i], path, v, report, lax, re);
      GrewTwice(before, sofar, report.problems, FieldsProblems(s, i, path, v, lax, re),
                EntryProblems(s.fields[i], path, v, lax, re));
      i := i + 1;
    }
    ghost var sofar := report.problems;
    if s.open || lax {
      GrewFromTheStart(sofar);
    } else {
      UnknownInto(s, path, v, report);
    }
    GrewTwice(before, sofar, report.problems, FieldsProblems(s, |s.fields|, path, v, lax, re),
              if s.open || lax then multiset{} else multiset(UnknownKeys(s, path, v, v.Keys)));
    GrewByNothing(before, report.problems, SchemaProblems(s, path, v, lax, re));
  }

  method EntryInto(f: Field, path: Path, v: map<string, Value>, report: Report, lax: bool, re: Regexp)
    modifies report
    ensures Grew(old(report.problems), report.problems, EntryProblems(f, path, v, lax, re))
    decreases f.of, 2
  {
    hide Grew, Accepts, FieldAccepts, FieldProblems;
    ghost var before := report.problems;
    GrewFromTheStart(before);
    var here := path + [Name(f.name)];
    if f.name !in v || v[f.name] == Null {
      if f.required {
        GrewByOne(before, Problem(here, Missing));
        report.Add(here, Missing);
      }
    } else {
      CheckInto(f, here, v[f.name], report, lax, re);
    }
  }

  lemma GrewFromTheStart(before: seq<Problem>)
    ensures Grew(before, before, multiset{})
  {
  }

  /** The keys a closed schema neither declares nor leaves to extensions. */
  method UnknownInto(s: Schema, path: Path, v: map<string, Value>, report: Report)
    modifies report
    ensures Grew(old(report.problems), report.problems, multiset(UnknownKeys(s, path, v, v.Keys)))
  {
    hide Grew;
    ghost var before := report.problems;
    var rest := v.Keys;
    GrewFromTheStart(before);
    assert v.Keys - rest == {} && multiset(UnknownKeys(s, path, v, {})) == multiset{};
    while rest != {}
      invariant rest <= v.Keys
      invariant Grew(before, report.problems, multiset(UnknownKeys(s, path, v, v.Keys - rest)))
      decreases rest
    {
      var k :| k in rest;
      ghost var sofar, done := report.problems, v.Keys - rest;
      UnknownKeyOrNot(s, path, v, done, k);
      if !IsExtension(k) && !Declares(s, k) {
        report.Add(path + [Name(k)], UnknownField);
        GrewByOne(sofar, Problem(path + [Name(k)], UnknownField));
        GrewTwice(before, sofar, report.problems, multiset(UnknownKeys(s, path, v, done)),
                  multiset{Problem(path + [Name(k)], UnknownField)});
      }
      rest := rest - {k};
      assert v.Keys - rest == done + {k};
    }
    assert v.Keys - rest == v.Keys;
  }

  lemma UnknownKeyOrNot(s: Schema, path: Path, v: map<string, Value>, keys: set<string>, k: string)
    requires k !in keys
    ensures var p := Problem(path + [Name(k)], UnknownField);
      multiset(UnknownKeys(s, path, v, keys + {k})) ==
        if !IsExtension(k) && !Declares(s, k) then multiset(UnknownKeys(s, path, v, keys)) + multiset{p}
        else multiset(UnknownKeys(s, path, v, keys))
  {
    var p := Problem(path + [Name(k)], UnknownField);
    var was, now := UnknownKeys(s, path, v, keys), UnknownKeys(s, path, v, keys + {k});
    forall j | (path + [Name(j)]) == path + [Name(k)]
      ensures j == k
    {
      assert (path + [Name(j)])[|path|] == (path + [Name(k)])[|path|];
    }
    assert p !in was;
    if !IsExtension(k) && !Declares(s, k) {
      assert now == was + {p};
    } else {
      assert now == was;
    }
  }

  /** `Field.check`. */
  method CheckInto(f: Field, path: Path, val: Value, report: Report, lax: bool, re: Regexp)
    modifies report
    ensures Grew(old(report.problems), report.problems, FieldProblems(f, path, val, lax, re))
    ensures report.problems == old(report.problems) <==> FieldAccepts(f, val, lax, re)
    decreases f.of, 1, val, 1
  {
    hide ScalarIssues, Accepts, SchemaProblems, ElementsProblems;
    ghost var before := report.problems;
    NoFieldProblems(f, path, val, lax, re);
    var issues := ScalarIssues(f, val, re);
    report.AddAll(path, issues);
    if issues == [] {
      assert report.problems == before;
      if f.ftype == TObject && f.of.Some? {
        ObjectShape(f, val, re);
        ValidateInto(f.of.value, path, val.entries, report, lax, re);
      } else if f.ftype == TArray {
        ArrayShape(f, val, re);
        ElementsInto(f, path, val, report, lax, re);
      }
    }
    GrewByNothing(before, report.problems, FieldProblems(f, path, val, lax, re));
  }

  lemma ObjectShape(f: Field, val: Value, re: Regexp)
    requires f.ftype == TObject && ScalarIssues(f, val, re) == []
    ensures val.Obj?
  {
    assert !val.Obj? ==> WrongType in ScalarIssues(f, val, re);
  }

  lemma ArrayShape(f: Field, val: Value, re: Regexp)
    requires f.ftype == TArray && ScalarIssues(f, val, re) == []
    ensures val.Arr?
  {
    assert !val.Arr? ==> WrongType in ScalarIssues(f, val, re);
  }

  /** The elements of an array, each against the shape or the element type. */
  method ElementsInto(f: Field, path: Path, val: Value, report: Report, lax: bool, re: Regexp)
    requires f.ftype == TArray && val.Arr?
    modifies report
    ensures Grew(old(report.problems), report.problems, ElementsProblems(f, |val.items|, path, val, lax, re))
    decreases f.of, 1, val, 0
  {
    hide Grew, ScalarIssues, Accepts, FieldAccepts, SchemaProblems, FieldProblems;
    ghost var before := report.problems;
    GrewFromTheStart(before);
    var i := 0;
    while i < |val.items|
      invariant 0 <= i <= |val.items|
      invariant Grew(before, report.problems, ElementsProblems(f, i, path, val, lax, re))
    {
      ghost var sofar := report.problems;
      ElementInto(f, path + [Index(i)], val.items[i], report, lax, re);
      GrewTwice(before, sofar, report.problems, ElementsProblems(f, i, path, val, lax, re),
                ElementProblems(f, path + [Index(i)], val.items[i], lax, re));
      i := i + 1;
    }
  }

  method ElementInto(f: Field, here: Path, element: Value, report: Report, lax: bool, re: Regexp)
    modifies report
    ensures Grew(old(report.problems), report.problems, ElementProblems(f, here, element, lax, re))
    decreases f.of, 1, element, 2
  {
    hide Grew, ScalarIssues, Accepts, FieldAccepts, SchemaProblems, FieldProblems;
    ghost var before := report.problems;
    if f.of.None? {
      CheckInto(ElementField(f), here, element, report, lax, re);
    } else if element.Obj? {
      ValidateInto(f.of.value, here, element.entries, report, lax, re);
    } else {
      GrewByOne(before, Problem(here, NotAnObject));
      report.Add(here, NotAnObject);
    }
  }

  /** `Schema.Validate` and `Schema.ValidateOpen`; a nil schema accepts anything. */
  method Validate(s: Option<Schema>, v: map<string, Value>, lax: bool, re: Regexp) returns (problems: seq<Problem>)
    ensures problems == [] <==> s.None? || Accepts(s.value, v, lax, re)
    ensures multiset(problems) == if s.None? then multiset{} else SchemaProblems(s.value, [], v, lax, re)
  {
    if s.None? {
      return [];
    }
    var report := new Report();
    ValidateInto(s.value, [], v, report, lax, re);
    return report.problems;
  }

  // ---- additive evolution ----

  /** Same name, type and pattern; not newly required; a non-empty enum may grow. */
  ghost predicate FieldEvolves(f: Field, g: Field)
    decreases f.of, 1
  {
    && f.name == g.name && f.ftype == g.ftype && f.elem == g.elem && f.pattern == g.pattern
    && (g.required ==> f.required)
    && EnumEvolves(f.enum, g.enum)
    && f.of.Some? == g.of.Some?
    && (f.of.Some? ==> Evolves(f.of.value, g.of.value))
  }

  ghost predicate EnumEvolves(was: seq<string>, now: seq<string>) {
    now == [] || (was != [] && forall s | s in was :: s in now)
  }

  /** A field nobody could have sent before: optional, its name new and not an extension's. */
  ghost predicate Added(s: Schema, g: Field) {
    !g.required && !IsExtension(g.name) && !Declares(s, g.name)
  }

  /** Nothing removed, renamed, retyped or made required; a closed schema may gain fields. */
  ghost predicate Evolves(s: Schema, t: Schema)
    decreases Some(s), 0
  {
    && (s.open ==> t.open)
    && (forall g | g in t.fields :: (exists f | f in s.fields :: FieldEvolves(f, g)) || (!s.open && Added(s, g)))
    && (forall f | f in s.fields :: Declares(t, f.name))
  }

  lemma ScalarIssuesEvolve(f: Field, g: Field, val: Value, re: Regexp)
    requires f.ftype == g.ftype && f.pattern == g.pattern && EnumEvolves(f.enum, g.enum)
    requires ScalarIssues(f, val, re) == []
    ensures ScalarIssues(g, val, re) == []
  {
    if f.ftype == TString {
      assert f.enum != [] && val.s !in f.enum ==> NotInEnum in ScalarIssues(f, val, re);
      assert f.pattern != "" && !re.compiles(f.pattern) ==> BadPattern in ScalarIssues(f, val, re);
      assert f.pattern != "" && re.compiles(f.pattern) && !re.matches(f.pattern, val.s) ==> NoMatch in ScalarIssues(f, val, re);
    }
  }

  lemma {:induction false} FieldEvolutionAccepts(f: Field, g: Field, val: Value, re: Regexp)
    requires FieldEvolves(f, g) && FieldAccepts(f, val, false, re)
    ensures FieldAccepts(g, val, false, re)
    decreases f.of, 1, val
  {
    ScalarIssuesEvolve(f, g, val, re);
    if f.ftype == TObject && f.of.Some? {
      EvolutionAccepts(f.of.value, g.of.value, val.entries, re);
    } else if f.ftype == TArray {
      forall i | 0 <= i < |val.items|
        ensures ElementAccepted(g, val.items[i], false, re)
      {
        assert ElementAccepted(f, val.items[i], false, re);
        if f.of.Some? {
          EvolutionAccepts(f.of.value, g.of.value, val.items[i].entries, re);
        } else {
          FieldEvolutionAccepts(ElementField(f), ElementField(g), val.items[i], re);
        }
      }
    }
  }

  /** What a schema accepted, every additive evolution of it accepts, at any depth. */
  lemma {:induction false} EvolutionAccepts(s: Schema, t: Schema, v: map<string, Value>, re: Regexp)
    requires Evolves(s, t) && Accepts(s, v, false, re)
    ensures Accepts(t, v, false, re)
    decreases Some(s), 0
  {
    forall g | g in t.fields
      ensures EntryAccepted(g, v, false, re)
    {
      if f :| f in s.fields && FieldEvolves(f, g) {
        assert EntryAccepted(f, v, false, re);
        if f.name in v && v[f.name] != Null {
          FieldEvolutionAccepts(f, g, v[f.name], re);
        }
      } else {
        assert Added(s, g);
        assert g.name !in v;
      }
    }
  }

  /** Adding optional fields to a closed schema changes the verdict on exactly the
      objects that carry one of the new names. */
  lemma AddedFieldsExactly(s: Schema, more: seq<Field>, v: map<string, Value>, re: Regexp)
    requires !s.open && forall g | g in more :: Added(s, g)
    ensures var t := s.(fields := s.fields + more);
      Accepts(s, v, false, re) <==> Accepts(t, v, false, re) && forall g | g in more :: g.name !in v
  {
    var t := s.(fields := s.fields + more);
    assert forall f :: f in t.fields <==> f in s.fields || f in more;
    assert forall f | f in s.fields :: EntryAccepted(f, v, false, re) <==>
      (if f.name in v && v[f.name] != Null then FieldAccepts(f, v[f.name], false, re) else !f.required);
    if Accepts(s, v, false, re) {
      forall g | g in more
        ensures g.name !in v
      {
        assert Added(s, g);
      }
    } else if Accepts(t, v, false, re) && forall g | g in more :: g.name !in v {
      forall k | k in v
        ensures IsExtension(k) || Declares(s, k)
      {
        if !IsExtension(k) {
          assert Declares(t, k);
          var f :| f in t.fields && f.name == k;
          assert f in s.fields;
        }
      }
    }
  }

  /** Inputs are checked in lax mode, where undeclared keys pass through untyped:
      there a new optional field is compatible exactly with the objects whose value
      under that name already fits it. */
  lemma AddedFieldsInLaxMode(s: Schema, more: seq<Field>, v: map<string, Value>, re: Regexp)
    requires forall g | g in more :: Added(s, g)
    ensures var t := s.(fields := s.fields + more);
      Accepts(t, v, true, re) <==>
        Accepts(s, v, true, re) && forall g | g in more :: g.name in v && v[g.name] != Null ==> FieldAccepts(g, v[g.name], true, re)
  {
    var t := s.(fields := s.fields + more);
    assert forall f :: f in t.fields <==> f in s.fields || f in more;
    forall g | g in more
      ensures !g.required
    {
      assert Added(s, g);
    }
  }

  // ---- evolution of inputs ----

  /** In lax mode: what an evolution asks of the values it knows and its predecessor
      let through untyped.  A field that evolved only passes the question down; a new
      one has to fit. */
  ghost predicate NewFieldsFit(s: Schema, t: Schema, v: map<string, Value>, re: Regexp)
    decreases Some(t), 0
  {
    forall g | g in t.fields :: EntryFits(s, g, v, re)
  }

  ghost predicate EntryFits(s: Schema, g: Field, v: map<string, Value>, re: Regexp)
    decreases g.of, 2
  {
    g.name in v && v[g.name] != Null ==>
      if exists f :: f in s.fields && FieldEvolves(f, g)
      then forall f | f in s.fields && FieldEvolves(f, g) :: InnerFieldsFit(f, g, v[g.name], re)
      else FieldAccepts(g, v[g.name], true, re)
  }

  ghost predicate InnerFieldsFit(f: Field, g: Field, val: Value, re: Regexp)
    decreases g.of, 1
  {
    f.of.Some? && g.of.Some? ==>
      && (g.ftype == TObject && val.Obj? ==> NewFieldsFit(f.of.value, g.of.value, val.entries, re))
      && (g.ftype == TArray && val.Arr? ==> forall i | 0 <= i < |val.items| && val.items[i].Obj? ::
            NewFieldsFit(f.of.value, g.of.value, val.items[i].entries, re))
  }

  lemma {:induction false} InputFieldEvolvesIff(f: Field, g: Field, val: Value, re: Regexp)
    requires FieldEvolves(f, g) && FieldAccepts(f, val, true, re)
    ensures FieldAccepts(g, val, true, re) <==> InnerFieldsFit(f, g, val, re)
    decreases f.of, 1, val
  {
    ScalarIssuesEvolve(f, g, val, re);
    if f.ftype == TObject && f.of.Some? {
      ObjectShape(f, val, re);
      InputEvolvesIff(f.of.value, g.of.value, val.entries, re);
    } else if f.ftype == TArray {
      ArrayShape(f, val, re);
      forall i | 0 <= i < |val.items|
        ensures ElementAccepted(g, val.items[i], true, re) <==>
          (f.of.Some? ==> NewFieldsFit(f.of.value, g.of.value, val.items[i].entries, re))
      {
        assert ElementAccepted(f, val.items[i], true, re);
        if f.of.Some? {
          InputEvolvesIff(f.of.value, g.of.value, val.items[i].entries, re);
        } else {
          InputFieldEvolvesIff(ElementField(f), ElementField(g), val.items[i], re);
        }
      }
    }
  }

  /** Inputs are checked in lax mode, where undeclared keys pass through untyped: there
      an additive evolution accepts what was valid exactly when the values under the
      names it adds, at any depth, happen to fit. */
  lemma {:induction false} InputEvolvesIff(s: Schema, t: Schema, v: map<string, Value>, re: Regexp)
    requires Evolves(s, t) && Accepts(s, v, true, re)
    ensures Accepts(t, v, true, re) <==> NewFieldsFit(s, t, v, re)
    decreases Some(s), 0
  {
    forall g | g in t.fields
      ensures EntryAccepted(g, v, true, re) <==> EntryFits(s, g, v, re)
    {
      forall f | f in s.fields && FieldEvolves(f, g)
        ensures EntryAccepted(f, v, true, re)
        ensures f.name in v && v[f.name] != Null ==>
          (FieldAccepts(g, v[f.name], true, re) <==> InnerFieldsFit(f, g, v[f.name], re))
      {
        assert EntryAccepted(f, v, true, re);
        if f.name in v && v[f.name] != Null {
          InputFieldEvolvesIff(f, g, v[f.name], re);
        }
      }
    }
    hide FieldAccepts, InnerFieldsFit, FieldEvolves;
    assert Accepts(t, v, true, re) <==> forall g | g in t.fields :: EntryAccepted(g, v, true, re);
  }

  /** A note that used to pass through untyped is rejected once the contract types it. */
  lemma NewInputFieldRejects(re: Regexp)
    ensures var s, t := Schema([], false), Schema([Plain("note", TString, false)], false);
      var v := map["note" := Bool(true)];
      Evolves(s, t) && Accepts(s, v, true, re) && !Accepts(t, v, true, re)
  {
    var g := Plain("note", TString, false);
    assert Added(Schema([], false), g);
    assert WrongType in ScalarIssues(g, Bool(true), re);
    assert g in Schema([g], false).fields;
  }

  // ---- every schema evolves into itself ----

  lemma {:induction false} EvolvesReflexive(s: Schema)
    ensures Evolves(s, s)
    decreases Some(s), 0
  {
    forall g | g in s.fields
      ensures FieldEvolves(g, g) && Declares(s, g.name)
    {
      FieldEvolvesReflexive(g);
    }
  }

  lemma {:induction false} FieldEvolvesReflexive(f: Field)
    ensures FieldEvolves(f, f)
    decreases f.of, 1
  {
    if f.of.Some? {
      EvolvesReflexive(f.of.value);
    }
  }

  // ---- why the evolution rules are what they are ----

  function Plain(name: string, ftype: FieldType, required: bool): Field {
    Field(name, ftype, required, [], None, TAny, "")
  }

  /** A new field named like an extension can reject what was valid. */
  lemma ExtensionNamesAreNotFree(re: Regexp)
    ensures var s, t := Schema([], false), Schema([Plain("x_note", TString, false)], false);
      var v := map["x_note" := Bool(true)];
      Accepts(s, v, false, re) && !Accepts(t, v, false, re)
  {
    var g := Plain("x_note", TString, false);
    assert WrongType in ScalarIssues(g, Bool(true), re);
    assert g in Schema([g], false).fields;
  }

  /** Giving an enum to a field that had none narrows it. */
  lemma EmptyEnumMayNotGrow(re: Regexp)
    ensures var f := Plain("kind", TString, false);
      var s, t := Schema([f], false), Schema([f.(enum := ["a"])], false);
      var v := map["kind" := Str("b")];
      Accepts(s, v, false, re) && !Accepts(t, v, false, re)
  {
    var f := Plain("kind", TString, false);
    var g := f.(enum := ["a"]);
    assert Str("b").s !in g.enum;
    assert NotInEnum in ScalarIssues(g, Str("b"), re);
    assert g in Schema([g], false).fields;
    assert Declares(Schema([f], false), "kind") by {
      assert f in Schema([f], false).fields;
    }
  }

  // ---- the schemas derived from schemas ----

  function OpenSchema(s: Schema): Schema {
    s.(open := true)
  }

  /** What is valid under a schema is valid under its opening, which is an evolution;
      what the opening alone accepts carries an undeclared key at the top level. */
  lemma OpenSchemaAccepts(s: Schema, v: map<string, Value>, re: Regexp)
    ensures Accepts(s, v, false, re) ==> Accepts(OpenSchema(s), v, false, re)
    ensures Accepts(s, v, false, re) <==>
      Accepts(OpenSchema(s), v, false, re) && (s.open || forall k | k in v :: IsExtension(k) || Declares(s, k))
  {
    OpeningEvolves(s);
    hide Evolves;
    if Accepts(s, v, false, re) {
      EvolutionAccepts(s, OpenSchema(s), v, re);
    }
  }

  lemma OpeningEvolves(s: Schema)
    ensures Evolves(s, OpenSchema(s))
  {
    EvolvesReflexive(s);
    hide FieldEvolves;
    forall f | f in s.fields
      ensures Declares(OpenSchema(s), f.name) && FieldEvolves(f, f)
    {
      FieldEvolvesReflexive(f);
    }
  }

  function Req(name: string, ftype: FieldType): Field { Plain(name, ftype, true) }

  function Opt(name: string, ftype: FieldType): Field { Plain(name, ftype, false) }

  function Enum(f: Field, values: seq<string>): Field { f.(enum := values) }

  function Object(f: Field, s: Schema): Field { f.(of := Some(s)) }

  function Strings(f: Field): Field { f.(ftype := TArray, elem := TString) }

  /** The shared shapes and closed sets the confirm output refers to. */
  datatype Shapes = Shapes(statuses: seq<string>, channels: seq<string>, declineCodes: seq<string>,
                           card: Schema, cash: Schema, seller: Schema, action: Schema)

  /** The output of commerce.payments.confirm. */
  function ConfirmOutput(p: Shapes): Schema {
    Schema(ConfirmIdentity(p) + ConfirmDetails(p), false)
  }

  function ConfirmIdentity(p: Shapes): seq<Field> {
    [
      Req("order_ref", TString),
      Enum(Req("status", TString), p.statuses),
      Req("amount", TDecimal),
      Req("currency", TCurrency),
      Req("provider_ref", TString),
      Opt("event_id", TString),
      Enum(Opt("kind", TString), ["payment", "refund", "dispute"]),
      Opt("method", TString),
      Opt("installments", TInteger),
      Opt("paid_at", TString),
      Opt("occurred_at", TString),
      Opt("amount_refunded", TDecimal)
    ]
  }

  function ConfirmDetails(p: Shapes): seq<Field> {
    [
      Opt("fee", TDecimal),
      Opt("net_amount", TDecimal),
      Opt("test_mode", TBoolean),
      Enum(Opt("channel", TString), p.channels),
      Opt("session_id", TString),
      Opt("device_id", TString),
      Object(Opt("card", TObject), p.card),
      Object(Opt("cash", TObject), p.cash),
      Object(Opt("seller", TObject), p.seller),
      Opt("provider_status", TString),
      Opt("status_detail", TString),
      Strings(Opt("also_captured", TAny))
    ]
  }

  function SubmitExtras(p: Shapes): seq<Field> {
    [Object(Opt("action", TObject), p.action), Enum(Opt("decline_code", TString), p.declineCodes), Opt("retryable", TBoolean)]
  }

  /** `submitOutput`: the result is closed whatever the argument was. */
  function SubmitOutput(confirm: Schema, p: Shapes): Schema {
    Schema(confirm.fields + SubmitExtras(p), false)
  }

  /** For any confirm shape that is closed and leaves the three names free, the
      valid confirm answers are exactly the valid submit answers without them. */
  lemma SubmitExtendsConfirm(confirm: Schema, p: Shapes, v: map<string, Value>, re: Regexp)
    requires !confirm.open
    requires forall g | g in SubmitExtras(p) :: !Declares(confirm, g.name)
    ensures Accepts(confirm, v, false, re) <==>
      Accepts(SubmitOutput(confirm, p), v, false, re) && forall g | g in SubmitExtras(p) :: g.name !in v
  {
    var more := SubmitExtras(p);
    assert more[0].name == "action" && more[1].name == "decline_code" && more[2].name == "retryable";
    assert forall g | g in more :: Added(confirm, g);
    assert confirm.(fields := confirm.fields + more) == SubmitOutput(confirm, p);
    AddedFieldsExactly(confirm, more, v, re);
  }

  /** Every valid confirm answer is a valid submit answer. */
  lemma ConfirmIsValidSubmit(p: Shapes, v: map<string, Value>, re: Regexp)
    requires Accepts(ConfirmOutput(p), v, false, re)
    ensures Accepts(SubmitOutput(ConfirmOutput(p), p), v, false, re)
  {
    hide Accepts;
    NamesAreFree(p);
    SubmitExtendsConfirm(ConfirmOutput(p), p, v, re);
  }

  /** The name differs from action, decline_code and retryable. */
  predicate FreeOfExtras(name: string) {
    |name| >= 3 && name[0] != 'r' && !(name[0] == 'a' && name[1] == 'c') && !(name[0] == 'd' && name[2] == 'c')
  }

  lemma NamesAreFree(p: Shapes)
    ensures forall g | g in SubmitExtras(p) :: !Declares(ConfirmOutput(p), g.name)
  {
    IdentityNames(p);
    DetailNames(p);
    hide ConfirmIdentity, ConfirmDetails;
    forall f | f in ConfirmOutput(p).fields
      ensures FreeOfExtras(f.name)
    {
    }
    forall g | g in SubmitExtras(p)
      ensures !FreeOfExtras(g.name)
    {
    }
  }

  lemma IdentityNames(p: Shapes)
    ensures forall f | f in ConfirmIdentity(p) :: FreeOfExtras(f.name)
  {
    var fs := ConfirmIdentity(p);
    assert forall i | 0 <= i < |fs| :: FreeOfExtras(fs[i].name);
  }

  lemma DetailNames(p: Shapes)
    ensures forall f | f in ConfirmDetails(p) :: FreeOfExtras(f.name)
  {
    var fs := ConfirmDetails(p);
    assert forall i | 0 <= i < |fs| :: FreeOfExtras(fs[i].name);
  }
}
