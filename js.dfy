/**
 * The JavaScript built-ins the front end relies on, with their ECMAScript meaning:
 * white space, `parseInt` with no radix, number-to-string conversion, the global
 * replacement `s.replace(/\s+/g, '_')`, and the dynamic values (truthiness, `||`,
 * property reads and property keys) that the JSON from the API arrives as.
 */
module Js {
  import opened Wrappers

  /**
   * The WhiteSpace and LineTerminator code points: what the regular-expression class `\s`
   * matches and what `parseInt` skips before the number.
   */
  predicate IsWhitespace(c: char) {
    || c == '\t' || c == '\n' || c == '\U{B}' || c == '\U{C}' || c == '\r' || c == ' '
    || c == '\U{A0}' || c == '\U{1680}' || ('\U{2000}' <= c <= '\U{200A}')
    || c == '\U{2028}' || c == '\U{2029}' || c == '\U{202F}' || c == '\U{205F}'
    || c == '\U{3000}' || c == '\U{FEFF}'
  }

  // ---------------------------------------------------------------------------------
  // parseInt(string) with no radix argument
  // ---------------------------------------------------------------------------------

  /** The value of `c` as a digit in radix up to 36, or 36 when it is no digit at all. */
  function DigitValue(c: char): (d: nat)
    ensures d <= 36
    ensures d < 10 <==> '0' <= c <= '9'
  {
    if '0' <= c <= '9' then c as int - '0' as int
    else if 'a' <= c <= 'z' then c as int - 'a' as int + 10
    else if 'A' <= c <= 'Z' then c as int - 'A' as int + 10
    else 36
  }

  predicate IsDigit(c: char, radix: nat) {
    DigitValue(c) < radix
  }

  /** `s` without its leading white space. */
  function TrimStart(s: string): (r: string)
    ensures |r| <= |s| && r == s[|s| - |r|..]
    ensures forall i :: 0 <= i < |s| - |r| ==> IsWhitespace(s[i])
    ensures r == [] || !IsWhitespace(r[0])
    decreases |s|
  {
    if s != [] && IsWhitespace(s[0]) then TrimStart(s[1..]) else s
  }

  /** The longest prefix of `s` made of digits of `radix`. */
  function DigitPrefix(s: string, radix: nat): (p: string)
    ensures |p| <= |s| && p == s[..|p|]
    ensures forall i :: 0 <= i < |p| ==> IsDigit(p[i], radix)
    ensures |p| < |s| ==> !IsDigit(s[|p|], radix)
    decreases |s|
  {
    if s != [] && IsDigit(s[0], radix) then [s[0]] + DigitPrefix(s[1..], radix) else []
  }

  /** The number the digits `ds` denote in `radix`, most significant first. */
  function DigitsValue(ds: string, radix: nat): nat
    decreases |ds|
  {
    if ds == [] then 0
    else DigitsValue(ds[..|ds| - 1], radix) * radix + DigitValue(ds[|ds| - 1])
  }

  /** The digits after any sign: hexadecimal after `0x` or `0X`, decimal otherwise, as far as they go. */
  function ParseUnsigned(u: string): Option<nat> {
    var hex := |u| >= 2 && u[0] == '0' && (u[1] == 'x' || u[1] == 'X');
    var radix := if hex then 16 else 10;
    var ds := DigitPrefix(if hex then u[2..] else u, radix);
    if ds == [] then None else Some(DigitsValue(ds, radix))
  }

  /** An optional sign, then the digits. */
  function ParseSigned(t: string): Option<int> {
    if t != [] && (t[0] == '-' || t[0] == '+') then
      match ParseUnsigned(t[1..])
      case None => None
      case Some(v) => Some(if t[0] == '-' then 0 - v else v)
    else
      match ParseUnsigned(t)
      case None => None
      case Some(v) => Some(v)
  }

  /**
   * `parseInt(s)`: skip white space, take an optional sign, read hexadecimal after `0x`
   * or `0X` and decimal otherwise, as far as the digits go. `None` is `NaN`, which
   * `JSON.stringify` writes as `null`.
   */
  function ParseInt(s: string): Option<int> {
    ParseSigned(TrimStart(s))
  }

  /** A string that starts with neither white space, a sign nor a digit parses as `NaN`. */
  lemma {:induction false} ParseIntNoDigits(s: string)
    requires s != [] && !IsWhitespace(s[0]) && s[0] != '-' && s[0] != '+' && !('0' <= s[0] <= '9')
    ensures ParseInt(s) == None
  {
    assert TrimStart(s) == s;
    assert DigitPrefix(s, 10) == [];
  }

  // ---------------------------------------------------------------------------------
  // Number to string
  // ---------------------------------------------------------------------------------

  function DecimalDigit(d: nat): (c: char)
    requires d < 10
    ensures '0' <= c <= '9' && DigitValue(c) == d
  {
    ('0' as int + d) as char
  }

  /** The decimal numeral of `n`, without leading zeros. */
  function NatToString(n: nat): (s: string)
    ensures s != []
    ensures forall i :: 0 <= i < |s| ==> '0' <= s[i] <= '9'
    ensures DigitsValue(s, 10) == n
    decreases n
  {
    if n < 10 then [DecimalDigit(n)]
    else
      var s := NatToString(n / 10) + [DecimalDigit(n % 10)];
      assert s[..|s| - 1] == NatToString(n / 10);
      s
  }

  /** `String(n)` and `${n}` for an integral number. */
  function IntToString(n: int): (s: string)
    ensures s != []
    ensures forall i :: 0 <= i < |s| ==> s[i] == '-' || '0' <= s[i] <= '9'
  {
    if n < 0 then "-" + NatToString(-n) else NatToString(n)
  }

  /** A string made only of decimal digits is its own longest decimal prefix. */
  lemma {:induction false} AllDigitsPrefix(s: string)
    requires forall i :: 0 <= i < |s| ==> '0' <= s[i] <= '9'
    ensures DigitPrefix(s, 10) == s
    decreases |s|
  {
    if s != [] {
      AllDigitsPrefix(s[1..]);
    }
  }

  /** A decimal numeral reads back as the number it was written from. */
  lemma {:induction false} ParseUnsignedOfNatToString(n: nat)
    ensures ParseUnsigned(NatToString(n)) == Some(n)
  {
    var digits := NatToString(n);
    AllDigitsPrefix(digits);
    assert !(|digits| >= 2 && digits[1] == 'x');
    assert !(|digits| >= 2 && digits[1] == 'X');
  }

  /** A numeral after a minus sign reads back as the negated number. */
  lemma {:induction false} ParseSignedNegative(m: nat)
    ensures ParseSigned("-" + NatToString(m)) == Some(0 - m)
  {
    ParseUnsignedOfNatToString(m);
    assert ("-" + NatToString(m))[1..] == NatToString(m);
  }

  /** A numeral without a sign reads back as the number. */
  lemma {:induction false} ParseSignedNonNegative(m: nat)
    ensures ParseSigned(NatToString(m)) == Some(m)
  {
    ParseUnsignedOfNatToString(m);
  }

  /** A minus sign or a digit is not white space. */
  lemma {:induction false} SignOrDigitNotWhitespace(c: char)
    requires c == '-' || '0' <= c <= '9'
    ensures !IsWhitespace(c)
  {
  }

  /** A string that starts with a minus sign or a digit is read by `parseInt` with no white space skipped. */
  lemma {:induction false} ParseIntOfSigned(s: string, v: int)
    requires s != [] && (s[0] == '-' || '0' <= s[0] <= '9')
    requires ParseSigned(s) == Some(v)
    ensures ParseInt(s) == Some(v)
  {
    SignOrDigitNotWhitespace(s[0]);
  }

  /** The sign and digits `String(n)` writes read back as `n`. */
  lemma {:induction false} ParseSignedOfIntToString(n: int)
    ensures ParseSigned(IntToString(n)) == Some(n)
  {
    if n < 0 {
      ParseSignedNegative(-n);
    } else {
      ParseSignedNonNegative(n);
    }
  }

  /** Reading back a number written with `String` gives the number: `parseInt(String(n)) == n`. */
  lemma {:induction false} ParseIntOfIntToString(n: int)
    ensures ParseInt(IntToString(n)) == Some(n)
  {
    ParseSignedOfIntToString(n);
    ParseIntOfSigned(IntToString(n), n);
  }

  /** Leading white space is what `TrimStart` removes. */
  lemma {:induction false} TrimStartSkips(w: string, s: string)
    requires forall i :: 0 <= i < |w| ==> IsWhitespace(w[i])
    ensures TrimStart(w + s) == TrimStart(s)
    decreases |w|
  {
    if w != [] {
      assert (w + s)[1..] == w[1..] + s;
      TrimStartSkips(w[1..], s);
    } else {
      assert w + s == s;
    }
  }

  /** White space in front of a numeral changes nothing. */
  lemma {:induction false} ParseIntSkipsWhitespace(w: string, s: string)
    requires forall i :: 0 <= i < |w| ==> IsWhitespace(w[i])
    ensures ParseInt(w + s) == ParseInt(s)
  {
    TrimStartSkips(w, s);
  }

  // ---------------------------------------------------------------------------------
  // s.replace(/\s+/g, '_')
  // ---------------------------------------------------------------------------------

  /**
   * `s.replace(/\s+/g, '_')`: the global search matches each maximal run of white space
   * in turn and puts one underscore in its place; every other character is copied.
   */
  function ReplaceWhitespaceRuns(s: string): (r: string)
    ensures forall i :: 0 <= i < |r| ==> !IsWhitespace(r[i])
    ensures |r| <= |s|
    decreases |s|
  {
    if s == [] then []
    else if IsWhitespace(s[0]) then "_" + ReplaceWhitespaceRuns(TrimStart(s))
    else [s[0]] + ReplaceWhitespaceRuns(s[1..])
  }

  /**
   * The same replacement read one character at a time: a white-space character becomes an
   * underscore when the character before it was not white space, and vanishes otherwise.
   */
  function ReplaceStepwise(s: string, afterWhitespace: bool): string
    decreases |s|
  {
    if s == [] then []
    else if IsWhitespace(s[0]) then (if afterWhitespace then "" else "_") + ReplaceStepwise(s[1..], true)
    else [s[0]] + ReplaceStepwise(s[1..], false)
  }

  /** Inside a run of white space, the character-at-a-time reading emits nothing until the run ends. */
  lemma {:induction false} StepwiseSkipsRun(s: string)
    ensures ReplaceStepwise(s, true) == ReplaceStepwise(TrimStart(s), true)
    decreases |s|
  {
    if s != [] && IsWhitespace(s[0]) {
      StepwiseSkipsRun(s[1..]);
    }
  }

  /** The run-at-a-time replacement and the character-at-a-time reading agree on every string. */
  lemma {:induction false} ReplaceWhitespaceRunsStepwise(s: string)
    ensures ReplaceWhitespaceRuns(s) == ReplaceStepwise(s, false)
    decreases |s|
  {
    if s == [] {
    } else if IsWhitespace(s[0]) {
      var rest := TrimStart(s);
      ReplaceWhitespaceRunsStepwise(rest);
      StepwiseSkipsRun(s[1..]);
      assert TrimStart(s[1..]) == rest;
      if rest != [] {
        assert ReplaceStepwise(rest, true) == ReplaceStepwise(rest, false);
      }
    } else {
      ReplaceWhitespaceRunsStepwise(s[1..]);
    }
  }

  /** A string without white space comes back unchanged, so the replacement is idempotent. */
  lemma {:induction false} ReplaceWhitespaceRunsIdentity(s: string)
    requires forall i :: 0 <= i < |s| ==> !IsWhitespace(s[i])
    ensures ReplaceWhitespaceRuns(s) == s
    decreases |s|
  {
    if s != [] {
      ReplaceWhitespaceRunsIdentity(s[1..]);
    }
  }

  // ---------------------------------------------------------------------------------
  // Dynamic values
  // ---------------------------------------------------------------------------------

  /** A JSON-shaped JavaScript value; numbers are integral here. */
  datatype JsValue =
    | Undefined
    | Null
    | Bool(b: bool)
    | Number(n: int)
    | Str(s: string)
    | Array(items: seq<JsValue>)
    | Object(props: map<string, JsValue>)

  /** What `if (v)`, `!v` and `.filter(Boolean)` make of `v`. */
  predicate Truthy(v: JsValue) {
    match v
    case Undefined => false
    case Null => false
    case Bool(b) => b
    case Number(n) => n != 0
    case Str(s) => s != ""
    case Array(_) => true
    case Object(_) => true
  }

  /** `a || b`: `a` when it is truthy, `b` otherwise. */
  function Or(a: JsValue, b: JsValue): (r: JsValue)
    ensures Truthy(r) <==> Truthy(a) || Truthy(b)
  {
    if Truthy(a) then a else b
  }

  /**
   * `v?.key` for a property no array or string carries: an object's own property, and
   * `undefined` for a missing property and for every other value.
   */
  function Member(v: JsValue, key: string): JsValue {
    if v.Object? && key in v.props then v.props[key] else Undefined
  }

  /** `String(v)`, the key `acc[v]` stores under. */
  function PropertyKey(v: JsValue): string
    decreases v, 1
  {
    match v
    case Undefined => "undefined"
    case Null => "null"
    case Bool(b) => if b then "true" else "false"
    case Number(n) => IntToString(n)
    case Str(s) => s
    case Array(items) => JoinItems(items, v)
    case Object(_) => "[object Object]"
  }

  /** `items.join(',')`, where `undefined` and `null` contribute nothing. */
  function JoinItems(items: seq<JsValue>, ghost whole: JsValue): string
    requires forall x :: x in items ==> x < whole
    decreases whole, 0, |items|
  {
    if items == [] then ""
    else
      assert items[0] in items;
      assert forall x :: x in items[1..] ==> x in items;
      (if items[0].Undefined? || items[0].Null? then "" else PropertyKey(items[0]))
      + (if |items| == 1 then "" else "," + JoinItems(items[1..], whole))
  }
}
