/** Python's `str(int)` and `hex(int)` renderings, with the parsers that
    invert them. */
module Numerals {
  import opened Text

  /** The lower-case digit for `d`, as Python's `hex` writes it. */
  function DigitChar(d: nat): char
    requires d < 16
  {
    if d < 10 then ('0' as int + d) as char else ('a' as int + d - 10) as char
  }

  /** The value of a digit character, or -1 for any other character. */
  function DigitValue(c: char): int
  {
    if '0' <= c <= '9' then c as int - '0' as int
    else if 'a' <= c <= 'f' then c as int - 'a' as int + 10
    else -1
  }

  /** The digits of `n` in base `b`, most significant first, with no leading zero. */
  function Digits(n: nat, b: nat): (r: string)
    requires 2 <= b <= 16
    ensures |r| >= 1
    ensures forall i :: 0 <= i < |r| ==> 0 <= DigitValue(r[i]) < b
    ensures |r| > 1 ==> r[0] != '0'
    decreases n
  {
    if n < b then [DigitChar(n)]
    else
      DivMod(n, b);
      Digits(n / b, b) + [DigitChar(n % b)]
  }

  lemma DivMod(n: nat, b: nat)
    requires 2 <= b <= n
    ensures 0 <= n % b < b && 1 <= n / b < n
    ensures n == (n / b) * b + n % b
  {
  }

  function ParseDigits(s: string, b: nat): int
    decreases |s|
  {
    if |s| == 0 then 0 else ParseDigits(s[..|s| - 1], b) * b + DigitValue(s[|s| - 1])
  }

  lemma {:induction false} DigitsRoundTrip(n: nat, b: nat)
    requires 2 <= b <= 16
    ensures ParseDigits(Digits(n, b), b) == n
    decreases n
  {
    var s := Digits(n, b);
    if n >= b {
      DivMod(n, b);
      DigitsRoundTrip(n / b, b);
      assert s[..|s| - 1] == Digits(n / b, b);
      assert DigitValue(s[|s| - 1]) == n % b;
    } else {
      assert s[..0] == [];
    }
  }

  /** `str(i)` */
  function IntToString(i: int): (r: string)
    ensures '_' !in r
  {
    if i < 0 then "-" + Digits(-i, 10) else Digits(i, 10)
  }

  /** Reads back what `IntToString` writes. */
  function ParseInt(s: string): int
  {
    if |s| > 0 && s[0] == '-' then -ParseDigits(s[1..], 10) else ParseDigits(s, 10)
  }

  lemma IntToStringRoundTrip(i: int)
    ensures ParseInt(IntToString(i)) == i
  {
    var s := IntToString(i);
    if i < 0 {
      DigitsRoundTrip(-i, 10);
      assert s[1..] == Digits(-i, 10);
    } else {
      DigitsRoundTrip(i, 10);
      assert DigitValue(s[0]) >= 0;
    }
  }

  /** Distinct integers print differently. */
  lemma IntToStringInjective(i: int, j: int)
    requires IntToString(i) == IntToString(j)
    ensures i == j
  {
    IntToStringRoundTrip(i);
    IntToStringRoundTrip(j);
  }

  /** `hex(i)`: `0x` and lower-case digits, with a leading `-` for negatives. */
  function Hex(i: int): string
  {
    if i < 0 then "-0x" + Digits(-i, 16) else "0x" + Digits(i, 16)
  }

  /** Reads back what `Hex` writes. */
  function ParseHex(s: string): int
  {
    if |s| >= 3 && s[0] == '-' then -ParseDigits(s[3..], 16)
    else if |s| >= 2 then ParseDigits(s[2..], 16)
    else 0
  }

  lemma HexRoundTrip(i: int)
    ensures ParseHex(Hex(i)) == i
  {
    var s := Hex(i);
    if i < 0 {
      DigitsRoundTrip(-i, 16);
      assert s[3..] == Digits(-i, 16);
    } else {
      DigitsRoundTrip(i, 16);
      assert s[2..] == Digits(i, 16);
    }
  }
}
