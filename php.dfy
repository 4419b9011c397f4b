/** PHP values and the few PHP built-ins the plugin's decisions rest on:
    empty(), intval(), loose `==` against a string literal, round(), and
    the decimal text of an integer. */
module Php {

  datatype Option<T> = None | Some(value: T)

  /** A value as PHP holds it in an options array or a post-meta row.
      PDecimal is a float that was rounded to two decimals (round(x, 2)),
      kept exactly as a count of hundredths. */
  datatype PhpValue =
    | PNull
    | PBool(b: bool)
    | PInt(i: int)
    | PDecimal(hundredths: int)
    | PStr(s: string)
    | PArray(entries: seq<(string, PhpValue)>)

  /** PHP's empty(): the falsy values. */
  predicate Empty(v: PhpValue) {
    match v
    case PNull => true
    case PBool(b) => !b
    case PInt(i) => i == 0
    case PDecimal(h) => h == 0
    case PStr(s) => s == "" || s == "0"
    case PArray(e) => e == []
  }

  /** isset($a[$k]): the key is present and its value is not null. */
  predicate IsSet(a: map<string, PhpValue>, k: string) {
    k in a && a[k] != PNull
  }

  predicate IsDigit(c: char) {
    '0' <= c <= '9'
  }

  predicate AllDigits(s: string) {
    forall i :: 0 <= i < |s| ==> IsDigit(s[i])
  }

  /** The whitespace intval() skips before a number. */
  predicate IsSpace(c: char) {
    c == ' ' || c == '\t' || c == '\n' || c == '\r' || c as int == 11 || c as int == 12
  }

  function DigitChar(d: nat): (c: char)
    requires d < 10
    ensures IsDigit(c) && c as int - '0' as int == d
  {
    ('0' as int + d) as char
  }

  /** The decimal text of n, without leading zeros. */
  function NatToDecimal(n: nat): (s: string)
    ensures |s| >= 1 && AllDigits(s)
    ensures s[0] == '0' ==> n == 0
  {
    if n < 10 then [DigitChar(n)] else NatToDecimal(n / 10) + [DigitChar(n % 10)]
  }

  /** (string)$i for an integer. */
  function IntToDecimal(i: int): (s: string)
    ensures |s| >= 1 && (s[0] == '-' || IsDigit(s[0]))
  {
    if i < 0 then "-" + NatToDecimal(-i) else NatToDecimal(i)
  }

  /** The value of a string of decimal digits. */
  function DigitsValue(s: string): nat
    requires AllDigits(s)
  {
    if s == [] then 0 else DigitsValue(s[..|s| - 1]) * 10 + (s[|s| - 1] as int - '0' as int)
  }

  /** The length of the longest prefix of s made of decimal digits. */
  function DigitRun(s: string): (n: nat)
    ensures n <= |s| && AllDigits(s[..n])
    ensures n < |s| ==> !IsDigit(s[n])
  {
    if s == [] || !IsDigit(s[0]) then 0
    else
      var n := 1 + DigitRun(s[1..]);
      assert s[..n] == [s[0]] + s[1..][..n - 1];
      n
  }

  function SkipSpace(s: string): (t: string)
    ensures |t| <= |s|
    ensures t == [] || !IsSpace(t[0])
  {
    if s != [] && IsSpace(s[0]) then SkipSpace(s[1..]) else s
  }

  /** intval() of a string: optional leading whitespace, an optional sign,
      then the longest run of decimal digits (none gives 0). */
  function LeadingInt(s: string): int {
    var t := SkipSpace(s);
    if t != [] && (t[0] == '-' || t[0] == '+') then
      var magnitude: int := DigitsValue(t[1..][..DigitRun(t[1..])]);
      if t[0] == '-' then -magnitude else magnitude
    else
      DigitsValue(t[..DigitRun(t)])
  }

  /** Division rounding toward zero, as PHP's (int) cast of a quotient does. */
  function TruncDiv(n: int, d: int): int
    requires d > 0
  {
    if n >= 0 then n / d else -((-n) / d)
  }

  /** PHP's intval(). */
  function IntVal(v: PhpValue): int {
    match v
    case PNull => 0
    case PBool(b) => if b then 1 else 0
    case PInt(i) => i
    case PDecimal(h) => TruncDiv(h, 100)
    case PStr(s) => LeadingInt(s)
    case PArray(e) => if e == [] then 0 else 1
  }

  /** PHP 8's loose `v == s` where s is a string literal that is not
      numeric (such as 'lossy'): null compares as "", a bool compares
      with the truth value of s, an int compares by its decimal text,
      a float's text is numeric and never equal, an array never equal. */
  predicate LooseEqualsText(v: PhpValue, s: string) {
    match v
    case PNull => s == ""
    case PBool(b) => b == !(s == "" || s == "0")
    case PInt(i) => IntToDecimal(i) == s
    case PDecimal(_) => false
    case PStr(t) => t == s
    case PArray(_) => false
  }

  /** PHP's round($n / $d): to the nearest integer, halves away from zero. */
  function RoundDiv(n: int, d: int): int
    requires d > 0
  {
    if n >= 0 then (2 * n + d) / (2 * d) else -((2 * (-n) + d) / (2 * d))
  }

  function Min(a: int, b: int): int { if a <= b then a else b }

  function Max(a: int, b: int): int { if a >= b then a else b }

  /** The decimal digits of n read back give n. */
  lemma {:induction false} DigitsValueOfDecimal(n: nat)
    ensures DigitsValue(NatToDecimal(n)) == n
  {
    var s := NatToDecimal(n);
    if n >= 10 {
      DigitsValueOfDecimal(n / 10);
      assert s[..|s| - 1] == NatToDecimal(n / 10);
    }
  }

  /** The digit run of an all-digit string is the whole string. */
  lemma {:induction false} DigitRunOfDigits(s: string)
    requires AllDigits(s)
    ensures DigitRun(s) == |s|
  {
    if s != [] {
      DigitRunOfDigits(s[1..]);
    }
  }

  /** intval() inverts the decimal text of an integer: intval((string)$i) == $i. */
  lemma IntValOfDecimalText(i: int)
    ensures IntVal(PStr(IntToDecimal(i))) == i
  {
    var s := IntToDecimal(i);
    assert SkipSpace(s) == s;
    if i < 0 {
      assert s[1..] == NatToDecimal(-i);
      DigitRunOfDigits(s[1..]);
      assert s[1..][..DigitRun(s[1..])] == NatToDecimal(-i);
      DigitsValueOfDecimal(-i);
    } else {
      DigitRunOfDigits(s);
      assert s[..DigitRun(s)] == s;
      DigitsValueOfDecimal(i);
    }
  }

  /** The result of round(n / d) is within one half of n / d:
      d * (2r - 1) <= 2n <= d * (2r + 1). */
  lemma RoundDivBounds(n: int, d: int)
    requires d > 0
    ensures d * (2 * RoundDiv(n, d) - 1) <= 2 * n <= d * (2 * RoundDiv(n, d) + 1)
  {
    var m := if n >= 0 then n else -n;
    var q := (2 * m + d) / (2 * d);
    HalfUpBounds(m, d, q);
    if n < 0 {
      assert RoundDiv(n, d) == -q;
      assert d * (2 * (-q) - 1) == -(d * (2 * q + 1));
      assert d * (2 * (-q) + 1) == -(d * (2 * q - 1));
    }
  }

  /** The quotient rounded half up of a non-negative m by d. */
  lemma HalfUpBounds(m: int, d: int, q: int)
    requires d > 0 && m >= 0 && q == (2 * m + d) / (2 * d)
    ensures d * (2 * q - 1) <= 2 * m < d * (2 * q + 1)
  {
    var rem := (2 * m + d) % (2 * d);
    assert 2 * m + d == 2 * d * q + rem && 0 <= rem < 2 * d;
    assert d * (2 * q - 1) == 2 * d * q - d;
    assert d * (2 * q + 1) == 2 * d * q + d;
  }

  /** round() of a quotient is never below 0 when the quotient is not. */
  lemma RoundDivNonNegative(n: int, d: int)
    requires d > 0 && n >= 0
    ensures RoundDiv(n, d) >= 0
  {
  }

  /** Cancelling a positive factor from a strict inequality. */
  lemma CancelFactor(a: int, x: int, y: int)
    requires a > 0 && a * x < a * y
    ensures x < y
  {
  }
}
