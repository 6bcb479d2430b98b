/**
 * The two JavaScript conversions the buy form's share check relies on
 * (index.js:198, 202), for string arguments, as ECMAScript defines them:
 * whether `Number(s)` is NaN (s is not a StringNumericLiteral), and
 * `parseInt(s)` without a radix.
 */
module JsNumber {

  /** A `parseInt` result: an integer, or NaN. */
  datatype Num = Int(value: int) | NaN

  /** `x < 1` on a `parseInt` result: every comparison with NaN is false. */
  predicate LessThanOne(n: Num) {
    n.Int? && n.value < 1
  }

  /** StrWhiteSpaceChar: WhiteSpace (with the Zs space separators) or LineTerminator. */
  predicate IsStrWhiteSpace(c: char) {
    c == '\t' || c == '\U{B}' || c == '\U{C}' || c == ' ' || c == '\U{A0}' || c == '\U{FEFF}' ||
    c == '\n' || c == '\r' || c == '\U{2028}' || c == '\U{2029}' ||
    c == '\U{1680}' || ('\U{2000}' <= c <= '\U{200A}') || c == '\U{202F}' || c == '\U{205F}' || c == '\U{3000}'
  }

  function TrimStart(s: string): (r: string)
    ensures r == [] || !IsStrWhiteSpace(r[0])
    ensures |r| <= |s| && r == s[|s| - |r|..]
    ensures forall k :: 0 <= k < |s| - |r| ==> IsStrWhiteSpace(s[k])
  {
    if s != [] && IsStrWhiteSpace(s[0]) then TrimStart(s[1..]) else s
  }

  function TrimEnd(s: string): (r: string)
    ensures r == [] || !IsStrWhiteSpace(r[|r| - 1])
    ensures |r| <= |s| && r == s[..|r|]
    ensures forall k :: |r| <= k < |s| ==> IsStrWhiteSpace(s[k])
  {
    if s != [] && IsStrWhiteSpace(s[|s| - 1]) then TrimEnd(s[..|s| - 1]) else s
  }

  predicate IsRadixDigit(c: char, radix: nat) {
    if radix == 16 then ('0' <= c <= '9') || ('a' <= c <= 'f') || ('A' <= c <= 'F')
    else '0' <= c && (c as int) < ('0' as int) + radix
  }

  predicate AllRadixDigits(s: string, radix: nat) {
    forall k :: 0 <= k < |s| ==> IsRadixDigit(s[k], radix)
  }

  /** NonDecimalIntegerLiteral: `0x`, `0o` or `0b` (either case) and at least one digit. */
  predicate IsNonDecimalIntegerLiteral(t: string) {
    |t| >= 3 && t[0] == '0' &&
    (((t[1] == 'x' || t[1] == 'X') && AllRadixDigits(t[2..], 16)) ||
     ((t[1] == 'o' || t[1] == 'O') && AllRadixDigits(t[2..], 8)) ||
     ((t[1] == 'b' || t[1] == 'B') && AllRadixDigits(t[2..], 2)))
  }

  /** Index of the first character satisfying `e` or `E` (or `.`), else `|s|`. */
  function IndexOfExponent(s: string): (k: nat)
    ensures k <= |s| && (k < |s| ==> s[k] == 'e' || s[k] == 'E')
    ensures forall j :: 0 <= j < k ==> s[j] != 'e' && s[j] != 'E'
  {
    if s == [] || s[0] == 'e' || s[0] == 'E' then 0 else 1 + IndexOfExponent(s[1..])
  }

  function IndexOfDot(s: string): (k: nat)
    ensures k <= |s| && (k < |s| ==> s[k] == '.')
    ensures forall j :: 0 <= j < k ==> s[j] != '.'
  {
    if s == [] || s[0] == '.' then 0 else 1 + IndexOfDot(s[1..])
  }

  /** `DecimalDigits`, `DecimalDigits.`, `DecimalDigits.DecimalDigits` or `.DecimalDigits`. */
  predicate IsMantissa(m: string) {
    var d := IndexOfDot(m);
    if d == |m| then |m| >= 1 && AllRadixDigits(m, 10)
    else |m| >= 2 && AllRadixDigits(m[..d], 10) && AllRadixDigits(m[d + 1..], 10)
  }

  /** ExponentPart, or nothing: `e` or `E`, an optional sign, at least one digit. */
  predicate IsOptionalExponent(e: string) {
    e == [] ||
    (|e| >= 2 && (e[0] == 'e' || e[0] == 'E') &&
     var f := if e[1] == '+' || e[1] == '-' then e[2..] else e[1..];
     |f| >= 1 && AllRadixDigits(f, 10))
  }

  predicate IsUnsignedDecimalLiteral(t: string) {
    t == "Infinity" ||
    (var k := IndexOfExponent(t); IsMantissa(t[..k]) && IsOptionalExponent(t[k..]))
  }

  predicate IsDecimalLiteral(t: string) {
    if |t| >= 1 && (t[0] == '+' || t[0] == '-') then IsUnsignedDecimalLiteral(t[1..])
    else IsUnsignedDecimalLiteral(t)
  }

  /** StringNumericLiteral: white space around nothing, a decimal literal or a non-decimal integer. */
  predicate IsStringNumericLiteral(s: string) {
    var t := TrimEnd(TrimStart(s));
    t == [] || IsNonDecimalIntegerLiteral(t) || IsDecimalLiteral(t)
  }

  /**
   * `isNaN(Number(s))` for a string `s`. The empty string and a string of
   * white space only convert to 0, so they are not NaN.
   */
  predicate NumberIsNaN(s: string)
    ensures (forall k :: 0 <= k < |s| ==> IsStrWhiteSpace(s[k])) ==> !NumberIsNaN(s)
  {
    !IsStringNumericLiteral(s)
  }

  function DigitValue(c: char): nat {
    if '0' <= c <= '9' then (c - '0') as nat
    else if 'a' <= c <= 'z' then (c - 'a') as nat + 10
    else if 'A' <= c <= 'Z' then (c - 'A') as nat + 10
    else 0
  }

  /** Value of a digit string, most significant digit first. */
  function DigitsValue(s: string, radix: nat): nat {
    if s == [] then 0 else DigitsValue(s[..|s| - 1], radix) * radix + DigitValue(s[|s| - 1])
  }

  /** Length of the longest prefix of radix digits. */
  function DigitPrefix(s: string, radix: nat): (k: nat)
    ensures k <= |s| && AllRadixDigits(s[..k], radix)
    ensures k < |s| ==> !IsRadixDigit(s[k], radix)
  {
    if s == [] || !IsRadixDigit(s[0], radix) then 0
    else
      var k := 1 + DigitPrefix(s[1..], radix);
      assert s[..k] == [s[0]] + s[1..][..k - 1];
      k
  }

  /** The input with a leading `+` or `-` taken off, and whether it was `-`. */
  function StripSign(t: string): (bool, string) {
    if |t| >= 1 && t[0] == '-' then (true, t[1..])
    else if |t| >= 1 && t[0] == '+' then (false, t[1..])
    else (false, t)
  }

  /** The radix and the digits: a `0x` or `0X` prefix selects 16, anything else 10. */
  function StripRadixPrefix(u: string): (nat, string) {
    if |u| >= 2 && u[0] == '0' && (u[1] == 'x' || u[1] == 'X') then (16, u[2..]) else (10, u)
  }

  /**
   * `parseInt(s)`: leading white space skipped, one sign, an optional hex
   * prefix, then the longest run of digits; NaN when that run is empty.
   */
  function ParseInt(s: string): (r: Num)
    ensures (forall k :: 0 <= k < |s| ==> !('0' <= s[k] <= '9')) ==> r == NaN
    ensures r.Int? && r.value < 0 ==> StripSign(TrimStart(s)).0
  {
    var (negative, u) := StripSign(TrimStart(s));
    var (radix, w) := StripRadixPrefix(u);
    var k := DigitPrefix(w, radix);
    var magnitude: int := DigitsValue(w[..k], radix);
    if k == 0 then NaN else Int(if negative then -magnitude else magnitude)
  }

  lemma {:induction false} DigitPrefixOfDigits(d: string, rest: string, radix: nat)
    requires AllRadixDigits(d, radix)
    requires rest == [] || !IsRadixDigit(rest[0], radix)
    ensures DigitPrefix(d + rest, radix) == |d|
  {
    if d != [] {
      assert (d + rest)[1..] == d[1..] + rest;
      DigitPrefixOfDigits(d[1..], rest, radix);
    } else {
      assert d + rest == rest;
    }
  }

  /**
   * `parseInt` reads the integer prefix: decimal digits `d` followed by a
   * non-digit give the value of `d` (unless `d` is `0` and an `x` follows,
   * which makes the input hexadecimal).
   */
  lemma ParseIntPrefix(d: string, rest: string)
    requires |d| >= 1 && AllRadixDigits(d, 10)
    requires rest == [] || !IsRadixDigit(rest[0], 10)
    requires !(d == "0" && |rest| >= 1 && (rest[0] == 'x' || rest[0] == 'X'))
    ensures ParseInt(d + rest) == Int(DigitsValue(d, 10))
  {
    var s := d + rest;
    assert s[0] == d[0];
    assert !IsStrWhiteSpace(s[0]) by { assert IsRadixDigit(d[0], 10); }
    assert StripRadixPrefix(s) == (10, s) by {
      if |d| >= 2 {
        assert s[1] == d[1] && IsRadixDigit(d[1], 10);
      } else if |rest| >= 1 {
        assert s[1] == rest[0];
      }
    }
    DigitPrefixOfDigits(d, rest, 10);
    assert s[..|d|] == d;
    ParseIntUnsigned(s);
  }

  /** `parseInt` of a string that starts with a character that is neither white space nor a sign, in base 10. */
  lemma ParseIntUnsigned(s: string)
    requires s != [] && !IsStrWhiteSpace(s[0]) && s[0] != '-' && s[0] != '+'
    requires StripRadixPrefix(s) == (10, s)
    ensures var k := DigitPrefix(s, 10);
      ParseInt(s) == if k == 0 then NaN else Int(DigitsValue(s[..k], 10))
  {
    assert TrimStart(s) == s;
    assert StripSign(s) == (false, s);
  }

  /** A string with no white space at either end is its own trimmed form. */
  lemma NoTrim(s: string)
    requires s != [] && !IsStrWhiteSpace(s[0]) && !IsStrWhiteSpace(s[|s| - 1])
    ensures TrimEnd(TrimStart(s)) == s
  {
  }

  /** `Number(".5")` is 0.5, not NaN: ".5" is a mantissa with no integer digits. */
  lemma PointFiveIsNumber()
    ensures !NumberIsNaN(".5")
  {
    NoTrim(".5");
    var t := ".5";
    assert IndexOfExponent(t) == 2 by {
      assert t[1..] == "5" && "5"[1..] == [];
    }
    assert t[..2] == t && t[2..] == [];
    assert IndexOfDot(t) == 0;
    assert t[..0] == [] && t[1..] == "5";
    assert AllRadixDigits("5", 10);
    assert IsMantissa(t);
    assert IsUnsignedDecimalLiteral(t);
  }

  /** `parseInt(".5")` reads no digit and is NaN. */
  lemma PointFiveIsNotInt()
    ensures ParseInt(".5") == NaN
  {
    assert StripRadixPrefix(".5") == (10, ".5");
    ParseIntUnsigned(".5");
    assert DigitPrefix(".5", 10) == 0;
  }

  /** `Number("1")` is not NaN and `parseInt("1")` is 1. */
  lemma OneIsInt()
    ensures !NumberIsNaN("1") && ParseInt("1") == Int(1)
  {
    NoTrim("1");
    var t := "1";
    assert t[1..] == [] && t[..1] == t;
    assert IndexOfExponent(t) == 1;
    assert IndexOfDot(t) == 1;
    assert IsMantissa(t);
    assert IsUnsignedDecimalLiteral(t);
    assert StripRadixPrefix(t) == (10, t);
    ParseIntUnsigned(t);
    assert DigitPrefix(t, 10) == 1;
    assert DigitsValue(t, 10) == 1 by { assert t[..0] == []; }
  }
}
