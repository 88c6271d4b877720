/** Optional values: `None` stands for JavaScript's `undefined`, `null` and `NaN`. */
module Wrappers {
  datatype Option<+T> = None | Some(value: T)
}

/**
 * The two JavaScript number builtins the core relies on, restricted to
 * integers: `Number.prototype.toString()` (the Firestore document key of a
 * Farcaster id) and `parseInt(s, 10)` (the airdrop amount field).
 */
module JsNumbers {
  import opened Wrappers

  predicate IsDigit(c: char) { '0' <= c <= '9' }

  function DigitValue(c: char): (d: nat)
    requires IsDigit(c)
    ensures d < 10
  {
    c as int - '0' as int
  }

  function DigitChar(d: nat): (c: char)
    requires d < 10
    ensures IsDigit(c) && DigitValue(c) == d
  {
    ('0' as int + d) as char
  }

  predicate AllDigits(s: string) { forall i :: 0 <= i < |s| ==> IsDigit(s[i]) }

  /** The value of a string of decimal digits, most significant digit first. */
  function DigitsValue(s: string): nat
    requires AllDigits(s)
  {
    if s == [] then 0 else DigitsValue(s[..|s| - 1]) * 10 + DigitValue(s[|s| - 1])
  }

  /** `n.toString()` for a non-negative integer: its decimal digits without leading zeros. */
  function NatToString(n: nat): (s: string)
    ensures s != [] && AllDigits(s)
    ensures |s| > 1 ==> s[0] != '0'
  {
    if n < 10 then [DigitChar(n)] else NatToString(n / 10) + [DigitChar(n % 10)]
  }

  /** `i.toString()` for an integer: a minus sign before the digits of a negative one. */
  function IntToString(i: int): (s: string)
    ensures s != []
    ensures s[0] == '-' <==> i < 0
  {
    if i < 0 then "-" + NatToString(-i) else NatToString(i)
  }

  lemma {:induction false} NatToStringValue(n: nat)
    ensures DigitsValue(NatToString(n)) == n
  {
    if n >= 10 {
      var s := NatToString(n);
      assert s[..|s| - 1] == NatToString(n / 10);
      NatToStringValue(n / 10);
    }
  }

  /**
   * The characters `parseInt` skips before the number: the WhiteSpace
   * (including every space separator of Unicode category Zs) and
   * LineTerminator code points of ECMAScript's StrWhiteSpaceChar.
   */
  predicate IsJsSpace(c: char)
  {
    c == '\t' || c == '\n' || c == '\U{B}' || c == '\U{C}' || c == '\r' || c == ' '
    || c == '\U{A0}' || c == '\U{1680}' || ('\U{2000}' <= c <= '\U{200A}')
    || c == '\U{2028}' || c == '\U{2029}' || c == '\U{202F}' || c == '\U{205F}'
    || c == '\U{3000}' || c == '\U{FEFF}'
  }

  /** `s` without its leading white space. */
  function TrimStart(s: string): (r: string)
    ensures |r| <= |s| && r == s[|s| - |r|..]
    ensures r == [] || !IsJsSpace(r[0])
    ensures forall i :: 0 <= i < |s| - |r| ==> IsJsSpace(s[i])
  {
    if s != [] && IsJsSpace(s[0]) then TrimStart(s[1..]) else s
  }

  /** The longest prefix of `s` made of decimal digits. */
  function DigitPrefix(s: string): (r: string)
    ensures r <= s && AllDigits(r)
    ensures |r| == |s| || !IsDigit(s[|r|])
  {
    if s != [] && IsDigit(s[0]) then [s[0]] + DigitPrefix(s[1..]) else []
  }

  /** The sign `parseInt` reads: true when `t` starts with a minus sign. */
  predicate IsNegative(t: string) { t != [] && t[0] == '-' }

  /** `t` without a leading `+` or `-`. */
  function Unsigned(t: string): (u: string)
    ensures u == t || (t != [] && (t[0] == '+' || t[0] == '-') && u == t[1..])
  {
    if t != [] && (t[0] == '+' || t[0] == '-') then t[1..] else t
  }

  /**
   * `parseInt(s, 10)`: skip white space, read an optional sign, then the
   * longest run of decimal digits, ignoring whatever follows; `None` is NaN,
   * the result when no digit follows the sign.
   */
  function ParseInt(s: string): (r: Option<int>)
    ensures r.Some? <==> (var u := Unsigned(TrimStart(s)); u != [] && IsDigit(u[0]))
    ensures r.Some? && r.value < 0 ==> IsNegative(TrimStart(s))
  {
    var t := TrimStart(s);
    var digits := DigitPrefix(Unsigned(t));
    var magnitude: int := if digits == [] then 0 else DigitsValue(digits);
    if digits == [] then None
    else if IsNegative(t) then Some(-magnitude)
    else Some(magnitude)
  }

  lemma {:induction false} DigitPrefixOfDigits(d: string, rest: string)
    requires AllDigits(d)
    requires rest == [] || !IsDigit(rest[0])
    ensures DigitPrefix(d + rest) == d
  {
    if d != [] {
      assert (d + rest)[1..] == d[1..] + rest;
      DigitPrefixOfDigits(d[1..], rest);
    }
  }

  /** `parseInt` of a run of digits followed by a non-digit. */
  lemma {:induction false} ParseIntOfDigits(d: string, rest: string)
    requires d != [] && AllDigits(d)
    requires rest == [] || !IsDigit(rest[0])
    ensures ParseInt(d + rest) == Some(DigitsValue(d))
  {
    var s := d + rest;
    assert s[0] == d[0];
    assert TrimStart(s) == s;
    assert Unsigned(s) == s;
    DigitPrefixOfDigits(d, rest);
  }

  /** `parseInt` of a minus sign followed by a run of digits and a non-digit. */
  lemma {:induction false} ParseIntOfNegatedDigits(s: string, d: string, rest: string)
    requires d != [] && AllDigits(d)
    requires rest == [] || !IsDigit(rest[0])
    requires s != [] && s[0] == '-' && s[1..] == d + rest
    ensures ParseInt(s) == Some(-(DigitsValue(d) as int))
  {
    assert TrimStart(s) == s;
    assert IsNegative(s) && Unsigned(s) == d + rest;
    DigitPrefixOfDigits(d, rest);
  }

  lemma {:induction false} NegativeToStringShape(i: int, rest: string)
    requires i < 0
    ensures IntToString(i) + rest != [] && (IntToString(i) + rest)[0] == '-'
    ensures (IntToString(i) + rest)[1..] == NatToString(-i) + rest
  {
  }

  /**
   * `parseInt` reads back what `toString` wrote, whatever non-digit text
   * follows it.
   */
  lemma {:induction false} ParseIntAfterToString(i: int, rest: string)
    requires rest == [] || !IsDigit(rest[0])
    ensures ParseInt(IntToString(i) + rest) == Some(i)
  {
    if i < 0 {
      ParseIntAfterNegativeToString(i, rest);
    } else {
      NatToStringValue(i);
      ParseIntOfDigits(NatToString(i), rest);
    }
  }

  lemma {:induction false} ParseIntAfterNegativeToString(i: int, rest: string)
    requires i < 0
    requires rest == [] || !IsDigit(rest[0])
    ensures ParseInt(IntToString(i) + rest) == Some(i)
  {
    var s, d := IntToString(i) + rest, NatToString(-i);
    NegativeToStringShape(i, rest);
    assert s != [] && s[0] == '-' && s[1..] == d + rest;
    NatToStringValue(-i);
    assert DigitsValue(d) == -i;
    ParseIntOfNegatedDigits(s, d, rest);
    assert ParseInt(s) == Some(i);
  }

  /** Distinct integers have distinct decimal strings. */
  lemma {:induction false} IntToStringInjective(i: int, j: int)
    ensures IntToString(i) == IntToString(j) ==> i == j
  {
    ParseIntAfterToString(i, []);
    ParseIntAfterToString(j, []);
    assert IntToString(i) + [] == IntToString(i);
    assert IntToString(j) + [] == IntToString(j);
  }

  /** `parseInt` finds a number only in text that contains a digit. */
  lemma {:induction false} ParseIntNeedsDigit(s: string)
    requires forall i :: 0 <= i < |s| ==> !IsDigit(s[i])
    ensures ParseInt(s).None?
  {
    var t := TrimStart(s);
    var u := Unsigned(t);
    if u != [] {
      assert u[0] == s[|s| - |u|];
    }
  }
}
