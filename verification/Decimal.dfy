/** Numbers as text: std::to_string, strtol and atoi. */
module Decimal {

  const TWO_31: int := 0x8000_0000
  const TWO_32: int := 0x1_0000_0000
  const TWO_63: int := 0x8000_0000_0000_0000
  const TWO_64: int := 0x1_0000_0000_0000_0000

  predicate IsDigit(c: char)
  {
    '0' <= c <= '9'
  }

  function DigitOf(d: nat): (c: char)
    requires d < 10
    ensures IsDigit(c) && c as int - '0' as int == d
  {
    ('0' as int + d) as char
  }

  /** The decimal digits of n, without leading zeros. */
  function Digits(n: nat): (s: string)
    ensures |s| > 0 && forall i :: 0 <= i < |s| ==> IsDigit(s[i])
  {
    if n < 10 then [DigitOf(n)] else Digits(n / 10) + [DigitOf(n % 10)]
  }

  function ToString(z: int): string
  {
    if z < 0 then "-" + Digits(-z) else Digits(z)
  }

  /** The number a string of digits denotes. */
  function Value(s: string): nat
    requires forall i :: 0 <= i < |s| ==> IsDigit(s[i])
  {
    if s == [] then 0
    else
      assert IsDigit(s[|s| - 1]);
      Value(s[..|s| - 1]) * 10 + (s[|s| - 1] as int - '0' as int)
  }

  /** The longest prefix of digits. */
  function DigitPrefix(s: string): (p: string)
    ensures p <= s && forall i :: 0 <= i < |p| ==> IsDigit(p[i])
    ensures |p| < |s| ==> !IsDigit(s[|p|])
  {
    if s == [] || !IsDigit(s[0]) then [] else [s[0]] + DigitPrefix(s[1..])
  }

  function SkipSpaces(s: string): string
  {
    if s != [] && (s[0] == ' ' || '\t' <= s[0] <= '\r') then SkipSpaces(s[1..]) else s
  }

  function Clamp(z: int): int
  {
    if z >= TWO_63 then TWO_63 - 1 else if z < -TWO_63 then -TWO_63 else z
  }

  /** strtol(s, nullptr, 10): blanks, a sign, digits; saturating at the ends of long. */
  function Strtol(s: string): int
  {
    var t := SkipSpaces(s);
    if t != [] && t[0] == '-' then Clamp(0 - Value(DigitPrefix(t[1..])))
    else if t != [] && t[0] == '+' then Clamp(Value(DigitPrefix(t[1..])))
    else Clamp(Value(DigitPrefix(t)))
  }

  /** The two's complement int a wider integer is cut down to. */
  function ToInt32(z: int): int
  {
    var r := z % TWO_32;
    if r >= TWO_31 then r - TWO_32 else r
  }

  function Atoi(s: string): int
  {
    ToInt32(Strtol(s))
  }

  lemma {:induction false} ValueOfDigits(n: nat)
    ensures Value(Digits(n)) == n
  {
    var s := Digits(n);
    if n < 10 {
      assert s[..|s| - 1] == [];
    } else {
      ValueOfDigits(n / 10);
      assert s[..|s| - 1] == Digits(n / 10);
    }
  }

  lemma {:induction false} DigitPrefixOf(d: string, rest: string)
    requires forall i :: 0 <= i < |d| ==> IsDigit(d[i])
    requires rest == [] || !IsDigit(rest[0])
    ensures DigitPrefix(d + rest) == d
  {
    if d == [] {
      assert d + rest == rest;
    } else {
      DigitPrefixOf(d[1..], rest);
      assert (d + rest)[1..] == d[1..] + rest;
    }
  }

  /** strtol reads back what to_string printed, whatever follows, up to the end of long. */
  lemma StrtolOfDigits(n: nat, rest: string)
    requires rest == [] || !IsDigit(rest[0])
    ensures Strtol(Digits(n) + rest) == Clamp(n)
  {
    hide Digits, DigitPrefix, Value;
    var s := Digits(n) + rest;
    assert s[0] == Digits(n)[0];
    assert SkipSpaces(s) == s;
    DigitPrefixOf(Digits(n), rest);
    ValueOfDigits(n);
  }

  lemma AtoiOfDigits(n: nat, rest: string)
    requires n < TWO_31 && (rest == [] || !IsDigit(rest[0]))
    ensures Atoi(Digits(n) + rest) == n
  {
    hide Strtol, Digits;
    StrtolOfDigits(n, rest);
  }
}
