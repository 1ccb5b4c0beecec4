/**
 * Decimal rendering of natural numbers, as Python's `str(n)` and the
 * zero-padded `%m`, `%d` and `%Y` fields of `strftime` produce it, and the
 * parser that undoes it.
 */
module Decimal {

  predicate IsDigit(c: char) {
    '0' <= c <= '9'
  }

  predicate AllDigits(s: string) {
    forall i :: 0 <= i < |s| ==> IsDigit(s[i])
  }

  function DigitChar(d: nat): (c: char)
    requires d < 10
    ensures IsDigit(c)
  {
    ('0' as int + d) as char
  }

  function DigitValue(c: char): int {
    c as int - '0' as int
  }

  /** `str(n)` for a non-negative Python int: no leading zeros. */
  function Digits(n: nat): (s: string)
    ensures 1 <= |s|
    ensures AllDigits(s)
    ensures n < 10 <==> |s| == 1
  {
    if n < 10 then [DigitChar(n)] else Digits(n / 10) + [DigitChar(n % 10)]
  }

  /** Left-pads `Digits(n)` with zeros up to `width` characters, as `%02d` does. */
  function Padded(n: nat, width: nat): (s: string)
    ensures AllDigits(s)
    ensures |s| == if |Digits(n)| < width then width else |Digits(n)|
  {
    Zeros(width - |Digits(n)|) + Digits(n)
  }

  function Zeros(k: int): (s: string)
    ensures |s| == if k < 0 then 0 else k
    ensures forall i :: 0 <= i < |s| ==> s[i] == '0'
    decreases k
  {
    if k <= 0 then [] else ['0'] + Zeros(k - 1)
  }

  /** The value of a string of decimal digits (read from the right). */
  function ParseDigits(s: string): int
  {
    if s == [] then 0 else ParseDigits(s[..|s| - 1]) * 10 + DigitValue(s[|s| - 1])
  }

  lemma {:induction false} ParseDigitsOfDigits(n: nat)
    ensures ParseDigits(Digits(n)) == n
  {
    if n >= 10 {
      var s := Digits(n);
      assert s[..|s| - 1] == Digits(n / 10);
      ParseDigitsOfDigits(n / 10);
    }
  }

  lemma {:induction false} ParseDigitsIgnoresLeadingZero(s: string)
    ensures ParseDigits(['0'] + s) == ParseDigits(s)
    decreases |s|
  {
    if s != [] {
      var t := ['0'] + s;
      assert t[..|t| - 1] == ['0'] + s[..|s| - 1];
      ParseDigitsIgnoresLeadingZero(s[..|s| - 1]);
    } else {
      assert ['0'] + s == ['0'];
      assert (['0'] + s)[..0] == [];
    }
  }

  lemma {:induction false} ParseDigitsIgnoresZeros(k: int, s: string)
    ensures ParseDigits(Zeros(k) + s) == ParseDigits(s)
    decreases k
  {
    if k > 0 {
      assert Zeros(k) + s == ['0'] + (Zeros(k - 1) + s);
      ParseDigitsIgnoresLeadingZero(Zeros(k - 1) + s);
      ParseDigitsIgnoresZeros(k - 1, s);
    } else {
      assert Zeros(k) + s == s;
    }
  }

  /** Zero padding loses nothing: the padded rendering parses back to `n`. */
  lemma PaddedRoundTrip(n: nat, width: nat)
    ensures ParseDigits(Padded(n, width)) == n
  {
    ParseDigitsIgnoresZeros(width - |Digits(n)|, Digits(n));
    ParseDigitsOfDigits(n);
  }

  /** Numbers below 100 take at most two digits, four-digit years exactly four. */
  lemma {:induction false} DigitsLength(n: nat)
    ensures n < 100 ==> |Digits(n)| <= 2
    ensures 1000 <= n < 10000 ==> |Digits(n)| == 4
  {
    if n >= 10 {
      DigitsLength(n / 10);
    }
  }
}
