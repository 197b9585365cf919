/** The rule templates of src/templates.js, as they are declared: each takes
    `(value, key, param)` and answers undefined (the rule passed) or a
    message string that names the key. */
module Templates {

  import opened Wrappers
  import opened Text
  import opened JsValues

  /** A template as declared: (value, key, param) -> message or undefined. */
  type Declared = (JValue, JValue, JValue) -> JValue

  /** The rule failed: the template produced a message. */
  predicate Fails(r: JValue) {
    Truthy(r)
  }

  function FieldMessage(key: JValue, tail: string): string {
    "Field '" + Display(key) + "' " + tail
  }

  /** `Number.isInteger(v)`. */
  predicate IsInteger(v: JValue) {
    v.Num? && v.n.Floor as real == v.n
  }

  /** `a < b` between a number and a converted number; NaN (None) compares false. */
  predicate LessThan(a: real, b: Option<real>) {
    b.Some? && a < b.value
  }

  predicate GreaterThan(a: real, b: Option<real>) {
    b.Some? && a > b.value
  }

  /** `a === b` between two numbers: NaN (None) equals nothing, itself included. */
  predicate StrictEqualNumbers(a: Option<real>, b: Option<real>) {
    a.Some? && b.Some? && a.value == b.value
  }

  /** `parseFloat(v)`, read here as `Number` of the whole text of v: the two
      agree on every text that is a decimal literal with white space around
      it, while `parseFloat` also reads the literal at the start of a longer
      text ("12px" is 12) and makes a blank text NaN. Its one use compares it
      with NaN, which never holds whatever it returns. */
  function ParseFloat(v: JValue): Option<real> {
    StringToNumber(Display(v))
  }

  /** `parseInt(v)` on the text of v. */
  function ParseIntOf(v: JValue): Option<real> {
    match ParseInt(Display(v))
    case Some(i) => Some(i as real)
    case None => None
  }

  // --------------------------------------------------------- templates

  function Required(value: JValue, key: JValue, param: JValue): (r: JValue)
    ensures Fails(r) <==> value.Undefined?
  {
    if value.Undefined? then Str(FieldMessage(key, "is required")) else Undefined
  }

  function Integer(value: JValue, key: JValue, param: JValue): (r: JValue)
    ensures Fails(r) <==> !value.Undefined? && !IsInteger(value)
  {
    if !value.Undefined? && !IsInteger(value) then Str(FieldMessage(key, "is not a valid 'integer' value")) else Undefined
  }

  /** As written: `typeof value !== 'undefined' && typeof value !== 'number'
      || parseFloat(value) === NaN`, where `&&` binds tighter than `||`. */
  function Float(value: JValue, key: JValue, param: JValue): JValue
  {
    if (!value.Undefined? && !value.Num?) || StrictEqualNumbers(ParseFloat(value), None)
    then Str(FieldMessage(key, "is not a valid 'float' value")) else Undefined
  }

  function Number(value: JValue, key: JValue, param: JValue): (r: JValue)
    ensures Fails(r) <==> !value.Undefined? && !value.Num?
  {
    if !value.Undefined? && !value.Num? then Str(FieldMessage(key, "is not a valid 'number' value")) else Undefined
  }

  function String(value: JValue, key: JValue, param: JValue): (r: JValue)
    ensures Fails(r) <==> !value.Undefined? && !value.Str?
  {
    if !value.Undefined? && !value.Str? then Str(FieldMessage(key, "is not a valid 'string' value")) else Undefined
  }

  function Boolean(value: JValue, key: JValue, param: JValue): (r: JValue)
    ensures Fails(r) <==> !value.Undefined? && !value.Bool?
  {
    if !value.Undefined? && !value.Bool? then Str(FieldMessage(key, "is not a valid 'boolean' value")) else Undefined
  }

  function Array(value: JValue, key: JValue, param: JValue): (r: JValue)
    ensures Fails(r) <==> !value.Undefined? && !value.Arr?
  {
    if !value.Undefined? && !value.Arr? then Str(FieldMessage(key, "is not a valid 'array' value")) else Undefined
  }

  function LengthMessage(bound: string, key: JValue, param: JValue): string {
    "The " + bound + " length of '" + Display(key) + "' is '" + Display(param) + "' characters"
  }

  /** `value.length < param`: the param is converted with `Number`. */
  function Min(value: JValue, key: JValue, param: JValue): (r: JValue)
    ensures Fails(r) <==> value.Str? && LessThan(|value.s| as real, ToNumber(param))
  {
    if !value.Undefined? && value.Str? && LessThan(|value.s| as real, ToNumber(param))
    then Str(LengthMessage("minimum", key, param))
    else Undefined
  }

  function Max(value: JValue, key: JValue, param: JValue): (r: JValue)
    ensures Fails(r) <==> value.Str? && GreaterThan(|value.s| as real, ToNumber(param))
  {
    if !value.Undefined? && value.Str? && GreaterThan(|value.s| as real, ToNumber(param))
    then Str(LengthMessage("maximum", key, param))
    else Undefined
  }

  /** `value < parseInt(param)` on numbers only. */
  function Major(value: JValue, key: JValue, param: JValue): (r: JValue)
    ensures Fails(r) <==> value.Num? && LessThan(value.n, ParseIntOf(param))
  {
    if value.Num? && LessThan(value.n, ParseIntOf(param))
    then Str(FieldMessage(key, "must be major then '" + Display(param) + "'"))
    else Undefined
  }

  function Minor(value: JValue, key: JValue, param: JValue): (r: JValue)
    ensures Fails(r) <==> value.Num? && GreaterThan(value.n, ParseIntOf(param))
  {
    if value.Num? && GreaterThan(value.n, ParseIntOf(param))
    then Str(FieldMessage(key, "must be minor then '" + Display(param) + "'"))
    else Undefined
  }

  function Email(value: JValue, key: JValue, param: JValue): JValue
  {
    if !value.Undefined? && (!value.Str? || !IsEmail(value.s))
    then Str(FieldMessage(key, "is not a valid 'email' value"))
    else Undefined
  }

  // ------------------------------------------------------------- catalog

  /** The name -> template list src/templates.js builds, in push order. */
  const Catalog: seq<(string, Declared)> := [
    ("required", Required),
    ("integer", Integer),
    ("float", Float),
    ("number", Number),
    ("string", String),
    ("boolean", Boolean),
    ("array", Array),
    ("min", Min),
    ("max", Max),
    ("major", Major),
    ("minor", Minor),
    ("email", Email)
  ]

  // ---------------------------------------------------- email pattern

  /** `[a-z0-9]` under the `i` flag. */
  predicate IsAlnum(c: char) {
    'a' <= c <= 'z' || 'A' <= c <= 'Z' || '0' <= c <= '9'
  }

  /** `[a-z]` under the `i` flag. */
  predicate IsAlpha(c: char) {
    'a' <= c <= 'z' || 'A' <= c <= 'Z'
  }

  /** `[a-z0-9.]` under the `i` flag. */
  predicate IsLocal(c: char) {
    IsAlnum(c) || c == '.'
  }

  /** One or more characters of a class: `[...]+`. */
  predicate Plus(s: string, cls: char -> bool) {
    s != [] && forall i :: 0 <= i < |s| ==> cls(s[i])
  }

  /** `[a-z]+(\.[a-z]+)?$`, the part after the first dot of the domain. */
  ghost predicate TopLevelPattern(t: string) {
    Plus(t, IsAlpha)
    || exists c :: 0 < c < |t| && t[c] == '.' && Plus(t[..c], IsAlpha) && Plus(t[c + 1..], IsAlpha)
  }

  /** The whole pattern `^[a-z0-9.]+@[a-z0-9]+\.[a-z]+(\.[a-z]+)?$` (flag
      `i`), read as a relation on the positions of '@' and the first dot. */
  ghost predicate EmailPattern(s: string) {
    exists a, b :: 0 < a < b < |s| && s[a] == '@' && s[b] == '.'
      && Plus(s[..a], IsLocal) && Plus(s[a + 1..b], IsAlnum) && TopLevelPattern(s[b + 1..])
  }

  function IndexOf(s: string, c: char): (i: nat)
    ensures i <= |s|
    ensures i < |s| ==> s[i] == c
    ensures forall j :: 0 <= j < i ==> s[j] != c
  {
    if s == [] then 0 else if s[0] == c then 0 else 1 + IndexOf(s[1..], c)
  }

  /** A recognizer for the email pattern: split at the first '@', then the
      domain on its dots. */
  predicate IsEmail(s: string) {
    var a := IndexOf(s, '@');
    a < |s| &&
    var parts := Split(s[a + 1..], '.');
    Plus(s[..a], IsLocal) && (|parts| == 2 || |parts| == 3)
    && Plus(parts[0], IsAlnum) && Plus(parts[1], IsAlpha) && (|parts| == 3 ==> Plus(parts[2], IsAlpha))
  }

  /** The recognizer accepts exactly the strings the pattern matches. */
  lemma EmailRecognizerCorrect(s: string)
    ensures IsEmail(s) <==> EmailPattern(s)
  {
    if IsEmail(s) {
      EmailSound(s);
    }
    if EmailPattern(s) {
      EmailComplete(s);
    }
  }

  lemma PlusExcludes(s: string, cls: char -> bool, c: char)
    requires Plus(s, cls) && !cls(c)
    ensures c !in s
  {
  }

  lemma JoinTwo(p: string, q: string, sep: char)
    ensures Join([p, q], sep) == p + [sep] + q
  {
    assert [p, q][1..] == [q];
  }

  lemma JoinThree(p: string, q: string, r: string, sep: char)
    ensures Join([p, q, r], sep) == p + [sep] + (q + [sep] + r)
  {
    assert [p, q, r][1..] == [q, r];
    JoinTwo(q, r, sep);
  }

  lemma EmailSound(s: string)
    requires IsEmail(s)
    ensures EmailPattern(s)
  {
    var a := IndexOf(s, '@');
    var d := s[a + 1..];
    var parts := Split(d, '.');
    JoinSplit(d, '.');
    var b := a + 1 + |parts[0]|;
    var t := s[b + 1..];
    if |parts| == 2 {
      assert parts == [parts[0], parts[1]];
      JoinTwo(parts[0], parts[1], '.');
      assert d == parts[0] + ['.'] + parts[1];
      assert t == parts[1];
      assert Plus(t, IsAlpha);
    } else {
      assert parts == [parts[0], parts[1], parts[2]];
      JoinThree(parts[0], parts[1], parts[2], '.');
      assert d == parts[0] + ['.'] + (parts[1] + ['.'] + parts[2]);
      assert t == parts[1] + ['.'] + parts[2];
      var c := |parts[1]|;
      assert t[..c] == parts[1] && t[c + 1..] == parts[2] && t[c] == '.';
      assert Plus(t[..c], IsAlpha) && Plus(t[c + 1..], IsAlpha);
    }
    assert TopLevelPattern(t);
    assert s[a + 1..b] == parts[0] && s[b] == '.';
    assert 0 < a < b < |s| && s[a] == '@' && s[b] == '.'
      && Plus(s[..a], IsLocal) && Plus(s[a + 1..b], IsAlnum) && TopLevelPattern(s[b + 1..]);
  }

  lemma FirstAt(s: string, a: nat)
    requires a < |s| && s[a] == '@' && Plus(s[..a], IsLocal)
    ensures IndexOf(s, '@') == a
  {
    forall i | 0 <= i < a ensures s[i] != '@' {
      assert s[..a][i] == s[i];
    }
  }

  lemma EmailComplete(s: string)
    requires EmailPattern(s)
    ensures IsEmail(s)
  {
    var a, b :| 0 < a < b < |s| && s[a] == '@' && s[b] == '.'
      && Plus(s[..a], IsLocal) && Plus(s[a + 1..b], IsAlnum) && TopLevelPattern(s[b + 1..]);
    EmailAt(s, a, b);
  }

  lemma EmailAt(s: string, a: nat, b: nat)
    requires 0 < a < b < |s| && s[a] == '@' && s[b] == '.'
    requires Plus(s[..a], IsLocal) && Plus(s[a + 1..b], IsAlnum) && TopLevelPattern(s[b + 1..])
    ensures IsEmail(s)
  {
    FirstAt(s, a);
    PlusExcludes(s[a + 1..b], IsAlnum, '.');
    var t := s[b + 1..];
    if Plus(t, IsAlpha) {
      EmailAtTwoLabels(s, a, b);
    } else {
      var c :| 0 < c < |t| && t[c] == '.' && Plus(t[..c], IsAlpha) && Plus(t[c + 1..], IsAlpha);
      EmailAtThreeLabels(s, a, b, c);
    }
  }

  lemma EmailAtTwoLabels(s: string, a: nat, b: nat)
    requires 0 < a < b < |s| && IndexOf(s, '@') == a && s[b] == '.'
    requires Plus(s[..a], IsLocal) && Plus(s[a + 1..b], IsAlnum) && '.' !in s[a + 1..b]
    requires Plus(s[b + 1..], IsAlpha)
    ensures IsEmail(s)
  {
    var d, host, t := s[a + 1..], s[a + 1..b], s[b + 1..];
    assert d == host + ['.'] + t;
    DomainTwoLabels(d, host, t);
    EmailFromLabels(s, a, [host, t]);
  }

  lemma EmailAtThreeLabels(s: string, a: nat, b: nat, c: nat)
    requires 0 < a < b < |s| && IndexOf(s, '@') == a && s[b] == '.'
    requires Plus(s[..a], IsLocal) && Plus(s[a + 1..b], IsAlnum) && '.' !in s[a + 1..b]
    requires 0 < c < |s[b + 1..]| && s[b + 1..][c] == '.'
    requires Plus(s[b + 1..][..c], IsAlpha) && Plus(s[b + 1..][c + 1..], IsAlpha)
    ensures IsEmail(s)
  {
    var d, host, t := s[a + 1..], s[a + 1..b], s[b + 1..];
    assert d == host + ['.'] + t;
    assert t == t[..c] + ['.'] + t[c + 1..];
    DomainThreeLabels(d, host, t[..c], t[c + 1..]);
    EmailFromLabels(s, a, [host, t[..c], t[c + 1..]]);
  }

  lemma EmailFromLabels(s: string, a: nat, parts: seq<string>)
    requires a < |s| && IndexOf(s, '@') == a && Plus(s[..a], IsLocal)
    requires Split(s[a + 1..], '.') == parts && (|parts| == 2 || |parts| == 3)
    requires Plus(parts[0], IsAlnum) && Plus(parts[1], IsAlpha) && (|parts| == 3 ==> Plus(parts[2], IsAlpha))
    ensures IsEmail(s)
  {
  }

  lemma DomainTwoLabels(d: string, host: string, t: string)
    requires d == host + ['.'] + t && '.' !in host && Plus(t, IsAlpha)
    ensures Split(d, '.') == [host, t]
  {
    PlusExcludes(t, IsAlpha, '.');
    JoinTwo(host, t, '.');
    SplitJoin([host, t], '.');
  }

  lemma DomainThreeLabels(d: string, host: string, t1: string, t2: string)
    requires d == host + ['.'] + (t1 + ['.'] + t2) && '.' !in host
    requires Plus(t1, IsAlpha) && Plus(t2, IsAlpha)
    ensures Split(d, '.') == [host, t1, t2]
  {
    PlusExcludes(t1, IsAlpha, '.');
    PlusExcludes(t2, IsAlpha, '.');
    JoinThree(host, t1, t2, '.');
    SplitJoin([host, t1, t2], '.');
  }

  // ------------------------------------------------------------ lemmas

  /** `email` lets undefined through, rejects every other non-string, and
      rejects a string exactly when the pattern does not match it. */
  lemma EmailFailsIff(value: JValue, key: JValue, param: JValue)
    ensures Fails(Email(value, key, param)) <==> !value.Undefined? && !(value.Str? && EmailPattern(value.s))
  {
    if value.Str? {
      EmailRecognizerCorrect(value.s);
    }
  }

  /** Every type and format template lets an absent value through; only
      `required` rejects it. */
  lemma AbsentPassesAllButRequired(key: JValue, param: JValue)
    ensures Fails(Required(Undefined, key, param))
    ensures !Fails(Integer(Undefined, key, param)) && !Fails(Float(Undefined, key, param))
    ensures !Fails(Number(Undefined, key, param)) && !Fails(String(Undefined, key, param))
    ensures !Fails(Boolean(Undefined, key, param)) && !Fails(Array(Undefined, key, param))
    ensures !Fails(Min(Undefined, key, param)) && !Fails(Max(Undefined, key, param))
    ensures !Fails(Major(Undefined, key, param)) && !Fails(Minor(Undefined, key, param))
    ensures !Fails(Email(Undefined, key, param))
  {
    assert !StrictEqualNumbers(ParseFloat(Undefined), None);
  }

  /** `required` accepts every defined value: "", 0, false, null and [] pass. */
  lemma RequiredAcceptsFalsyValues(key: JValue, param: JValue)
    ensures !Fails(Required(Str(""), key, param)) && !Fails(Required(Num(0.0), key, param))
    ensures !Fails(Required(Bool(false), key, param)) && !Fails(Required(Null, key, param))
    ensures !Fails(Required(Arr([]), key, param))
  {
  }

  /** `float` rejects exactly the values `number` rejects: the NaN comparison
      in its condition can never hold. */
  lemma FloatIsNumber(value: JValue, key: JValue, param: JValue)
    ensures Fails(Float(value, key, param)) <==> Fails(Number(value, key, param))
  {
    assert !StrictEqualNumbers(ParseFloat(value), None);
  }

  /** With a decimal bound n, `min` fails exactly on strings shorter than n
      and `max` exactly on strings longer than n. */
  lemma MinMaxDecimalBound(s: string, key: JValue, n: nat)
    ensures Fails(Min(Str(s), key, Str(NatToString(n)))) <==> |s| < n
    ensures Fails(Max(Str(s), key, Str(NatToString(n)))) <==> |s| > n
  {
    NumberOfNatText(n);
  }

  /** `Number` reads a bound with white space around it as the bound itself,
      so "3 " is a minimum of 3. */
  lemma MinMaxPaddedBound(s: string, key: JValue, pre: string, n: nat, post: string)
    requires AllSpace(pre) && AllSpace(post)
    ensures Fails(Min(Str(s), key, Str(pre + NatToString(n) + post))) <==> |s| < n
    ensures Fails(Max(Str(s), key, Str(pre + NatToString(n) + post))) <==> |s| > n
  {
    PaddedNatText(pre, n, post);
  }

  lemma PaddedNatText(pre: string, n: nat, post: string)
    requires AllSpace(pre) && AllSpace(post)
    ensures ToNumber(Str(pre + NatToString(n) + post)) == Some(n as real)
  {
    var t := NatToString(n);
    assert IsDigit(t[0]) && IsDigit(t[|t| - 1]);
    TrimPadded(pre, t, post);
    NumberOfNatText(n);
  }

  lemma NumberOfNatText(n: nat)
    ensures StringToNumber(NatToString(n)) == Some(n as real)
  {
    var t := NatToString(n);
    TrimDigits(t);
    assert '.' !in t;
    SplitFree(t, '.');
    NatToStringRoundTrip(n);
  }

  /** `min` and `max` never fail on a missing or non-numeric bound, nor on a
      value that is not a string. */
  lemma MinMaxNeedStringAndNumber(value: JValue, key: JValue, param: JValue)
    requires !value.Str? || ToNumber(param).None?
    ensures !Fails(Min(value, key, param)) && !Fails(Max(value, key, param))
  {
  }

  /** With a decimal bound n, `major` fails exactly on numbers below n and
      `minor` exactly on numbers above n; equality passes both. */
  lemma MajorMinorDecimalBound(x: real, key: JValue, n: nat)
    ensures Fails(Major(Num(x), key, Str(NatToString(n)))) <==> x < n as real
    ensures Fails(Minor(Num(x), key, Str(NatToString(n)))) <==> x > n as real
  {
    ParseIntNatToString(n);
  }

  /** `major` and `minor` ignore non-numbers and unparsable bounds. */
  lemma MajorMinorNeedNumber(value: JValue, key: JValue, param: JValue)
    requires !value.Num? || ParseIntOf(param).None?
    ensures !Fails(Major(value, key, param)) && !Fails(Minor(value, key, param))
  {
  }

  /** `k` occurs in `s`. */
  predicate Mentions(s: string, k: string) {
    k <= s || (s != [] && Mentions(s[1..], k))
  }

  /** The template passed (undefined) or failed with a message naming the key. */
  predicate NothingOrNamesKey(r: JValue, key: JValue) {
    r.Undefined? || (r.Str? && Mentions(r.s, Display(key)))
  }

  lemma {:induction false} MentionsAt(pre: string, k: string)
    ensures Mentions(pre + k, k)
  {
    if pre != [] {
      MentionsAt(pre[1..], k);
      assert (pre + k)[1..] == pre[1..] + k;
    }
  }

  /** Text appended after an occurrence keeps it. */
  lemma {:induction false} MentionsExtend(s: string, k: string, post: string)
    requires Mentions(s, k)
    ensures Mentions(s + post, k)
  {
    if !(k <= s) {
      MentionsExtend(s[1..], k, post);
      assert (s + post)[1..] == s[1..] + post;
    }
  }

  lemma FieldMessageNamesKey(key: JValue, tail: string)
    ensures Mentions(FieldMessage(key, tail), Display(key))
  {
    var k := Display(key);
    MentionsAt("Field '", k);
    MentionsExtend("Field '" + k, k, "' ");
    MentionsExtend("Field '" + k + "' ", k, tail);
  }

  lemma LengthMessageNamesKey(bound: string, key: JValue, param: JValue)
    ensures Mentions(LengthMessage(bound, key, param), Display(key))
  {
    var k := Display(key);
    var pre := "The " + bound + " length of '";
    MentionsAt(pre, k);
    MentionsExtend(pre + k, k, "' is '");
    MentionsExtend(pre + k + "' is '", k, Display(param));
    MentionsExtend(pre + k + "' is '" + Display(param), k, "' characters");
  }

  lemma PresenceAndNumericNameKey(value: JValue, key: JValue, param: JValue)
    ensures NothingOrNamesKey(Required(value, key, param), key)
    ensures NothingOrNamesKey(Integer(value, key, param), key)
    ensures NothingOrNamesKey(Float(value, key, param), key)
  {
    FieldMessageNamesKey(key, "is required");
    FieldMessageNamesKey(key, "is not a valid 'integer' value");
    FieldMessageNamesKey(key, "is not a valid 'float' value");
  }

  lemma TypeTemplatesNameKey(value: JValue, key: JValue, param: JValue)
    ensures NothingOrNamesKey(Number(value, key, param), key)
    ensures NothingOrNamesKey(String(value, key, param), key)
    ensures NothingOrNamesKey(Boolean(value, key, param), key)
    ensures NothingOrNamesKey(Array(value, key, param), key)
  {
    FieldMessageNamesKey(key, "is not a valid 'number' value");
    FieldMessageNamesKey(key, "is not a valid 'string' value");
    FieldMessageNamesKey(key, "is not a valid 'boolean' value");
    FieldMessageNamesKey(key, "is not a valid 'array' value");
  }

  lemma LengthTemplatesNameKey(value: JValue, key: JValue, param: JValue)
    ensures NothingOrNamesKey(Min(value, key, param), key)
    ensures NothingOrNamesKey(Max(value, key, param), key)
  {
    LengthMessageNamesKey("minimum", key, param);
    LengthMessageNamesKey("maximum", key, param);
  }

  lemma BoundTemplatesNameKey(value: JValue, key: JValue, param: JValue)
    ensures NothingOrNamesKey(Major(value, key, param), key)
    ensures NothingOrNamesKey(Minor(value, key, param), key)
  {
    FieldMessageNamesKey(key, "must be major then '" + Display(param) + "'");
    FieldMessageNamesKey(key, "must be minor then '" + Display(param) + "'");
  }

  lemma EmailNamesKey(value: JValue, key: JValue, param: JValue)
    ensures NothingOrNamesKey(Email(value, key, param), key)
  {
    FieldMessageNamesKey(key, "is not a valid 'email' value");
  }

  /** Every template passes with nothing or fails with a message that names
      the key it was given. */
  lemma MessageNamesKey(value: JValue, key: JValue, param: JValue)
    ensures NothingOrNamesKey(Required(value, key, param), key)
    ensures NothingOrNamesKey(Integer(value, key, param), key)
    ensures NothingOrNamesKey(Float(value, key, param), key)
    ensures NothingOrNamesKey(Number(value, key, param), key)
    ensures NothingOrNamesKey(String(value, key, param), key)
    ensures NothingOrNamesKey(Boolean(value, key, param), key)
    ensures NothingOrNamesKey(Array(value, key, param), key)
    ensures NothingOrNamesKey(Min(value, key, param), key)
    ensures NothingOrNamesKey(Max(value, key, param), key)
    ensures NothingOrNamesKey(Major(value, key, param), key)
    ensures NothingOrNamesKey(Minor(value, key, param), key)
    ensures NothingOrNamesKey(Email(value, key, param), key)
  {
    PresenceAndNumericNameKey(value, key, param);
    TypeTemplatesNameKey(value, key, param);
    LengthTemplatesNameKey(value, key, param);
    BoundTemplatesNameKey(value, key, param);
    EmailNamesKey(value, key, param);
  }

  /** The catalog registers each name once. */
  lemma CatalogNamesDistinct()
    ensures forall i, j :: 0 <= i < j < |Catalog| ==> Catalog[i].0 != Catalog[j].0
  {
  }

  /** The list holds no `object` template. */
  lemma CatalogLacksObject()
    ensures forall i :: 0 <= i < |Catalog| ==> Catalog[i].0 != "object"
  {
  }
}
