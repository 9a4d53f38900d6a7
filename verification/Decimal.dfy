/** Decimal printing and reading of integers. */
module Decimal {
  import opened Common

  predicate IsDigit(c: char) { '0' <= c <= '9' }

  function DigitChar(d: nat): (c: char)
    requires d < 10
    ensures IsDigit(c) && DigitValue(c) == d
  {
    '0' + d as char
  }

  function DigitValue(c: char): (d: nat)
    requires IsDigit(c)
    ensures d < 10
  {
    (c - '0') as nat
  }

  /** The decimal digits of a natural number. */
  function Digits(n: nat): (s: string)
    ensures s != [] && forall i :: 0 <= i < |s| ==> IsDigit(s[i])
  {
    if n < 10 then [DigitChar(n)] else Digits(n / 10) + [DigitChar(n % 10)]
  }

  /** The value of a string of digits. */
  function Value(s: string): nat
    requires forall i :: 0 <= i < |s| ==> IsDigit(s[i])
  {
    if s == [] then 0 else 10 * Value(s[..|s| - 1]) + DigitValue(s[|s| - 1])
  }

  lemma {:induction false} ValueOfDigits(n: nat)
    ensures Value(Digits(n)) == n
  {
    if n >= 10 {
      ValueOfDigits(n / 10);
      var s := Digits(n);
      assert s[..|s| - 1] == Digits(n / 10);
    } else {
      assert Digits(n)[..0] == [];
    }
  }

  function Magnitude(n: int): nat { if n < 0 then -n else n }

  function Print(n: int): string {
    (if n < 0 then "-" else "") + Digits(Magnitude(n))
  }

  /** The longest prefix of digits. */
  function DigitPrefix(s: string): (n: nat)
    ensures n <= |s| && forall i :: 0 <= i < n ==> IsDigit(s[i])
  {
    if s == [] || !IsDigit(s[0]) then 0 else 1 + DigitPrefix(s[1..])
  }

  lemma {:induction false} AllDigits(s: string)
    requires forall i :: 0 <= i < |s| ==> IsDigit(s[i])
    ensures DigitPrefix(s) == |s|
  {
    if s != [] { AllDigits(s[1..]); }
  }

  predicate IsSpace(c: char) { c == ' ' || '\t' <= c <= '\r' }

  /** Reads a long as `strtol` does in base ten: spaces, a sign, digits, clamped. */
  function Read(s: string): Long {
    if s != [] && IsSpace(s[0]) then Read(s[1..])
    else
      var negative := s != [] && s[0] == '-';
      var rest := if s != [] && (s[0] == '-' || s[0] == '+') then s[1..] else s;
      var n: int := Value(rest[..DigitPrefix(rest)]);
      if negative then (if -n < LONG_MIN then LONG_MIN else -n)
      else (if n > LONG_MAX then LONG_MAX else n)
  }

  lemma ReadDigits(digits: string)
    requires digits != [] && forall i :: 0 <= i < |digits| ==> IsDigit(digits[i])
    ensures Read(digits) == if Value(digits) > LONG_MAX then LONG_MAX else Value(digits)
    ensures Read("-" + digits) == if Value(digits) > LONG_MAX then LONG_MIN else 0 - Value(digits)
  {
    hide Value;
    AllDigits(digits);
    assert digits[..|digits|] == digits;
    assert IsDigit(digits[0]) && !IsSpace(digits[0]);
    var negative := "-" + digits;
    assert negative[0] == '-' && !IsSpace(negative[0]) && negative[1..] == digits;
  }

  /** Printing and reading a long is the identity. */
  lemma ReadPrint(n: Long)
    ensures Read(Print(n)) == n
  {
    hide Read, Digits, Value;
    ReadDigits(Digits(Magnitude(n)));
    ValueOfDigits(Magnitude(n));
    assert "" + Digits(Magnitude(n)) == Digits(Magnitude(n));
  }

  /** The digits of a number are those of its tens and then that of its units. */
  lemma DecimalDigits(n: nat)
    ensures n < 10 ==> Digits(n) == ["0123456789"[n]]
    ensures n >= 10 ==> Digits(n) == Digits(n / 10) + ["0123456789"[n % 10]]
  {
  }

  lemma {:induction false} PrefixOf(digits: string, rest: string)
    requires forall i :: 0 <= i < |digits| ==> IsDigit(digits[i])
    requires rest != "" ==> !IsDigit(rest[0])
    ensures DigitPrefix(digits + rest) == |digits|
  {
    if digits != "" {
      assert (digits + rest)[1..] == digits[1..] + rest;
      PrefixOf(digits[1..], rest);
    } else {
      assert digits + rest == rest;
    }
  }

  lemma {:induction false} ReadSkips(spaces: string, s: string)
    requires forall i :: 0 <= i < |spaces| ==> spaces[i] == ' ' || '\t' <= spaces[i] <= '\r'
    ensures Read(spaces + s) == Read(s)
  {
    if spaces != "" {
      assert (spaces + s)[1..] == spaces[1..] + s;
      ReadSkips(spaces[1..], s);
    } else {
      assert spaces + s == s;
    }
  }

  /** Spaces before a number and anything after its digits are ignored, and a value too large
      for a long is clamped. */
  lemma ReadExactly(spaces: string, sign: string, digits: string, rest: string)
    requires forall i :: 0 <= i < |spaces| ==> spaces[i] == ' ' || '\t' <= spaces[i] <= '\r'
    requires sign in {"", "+", "-"} && digits != "" && forall i :: 0 <= i < |digits| ==> IsDigit(digits[i])
    requires rest != "" ==> !IsDigit(rest[0])
    ensures var n: int := if sign == "-" then 0 - Value(digits) else Value(digits);
            Read(spaces + (sign + (digits + rest))) ==
            if n < LONG_MIN then LONG_MIN else if n > LONG_MAX then LONG_MAX else n
  {
    hide Value;
    var number := sign + (digits + rest);
    ReadSkips(spaces, number);
    PrefixOf(digits, rest);
    assert (digits + rest)[..|digits|] == digits && (digits + rest)[0] == digits[0];
    if sign == "" {
      assert number == digits + rest;
    } else {
      assert number[0] == sign[0] && number[1..] == digits + rest;
    }
  }
}
