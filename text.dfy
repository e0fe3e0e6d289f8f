/** ASCII characters and decimal numerals. */
module Text {

  predicate IsDigit(c: char) {
    '0' <= c <= '9'
  }

  /** `str.isdigit` on an ASCII string: not empty, digits only. */
  predicate AllDigits(s: string) {
    s != [] && forall i :: 0 <= i < |s| ==> IsDigit(s[i])
  }

  function DigitValue(c: char): (v: int)
    requires IsDigit(c)
    ensures 0 <= v <= 9
  {
    c as int - '0' as int
  }

  function DigitChar(v: int): (c: char)
    requires 0 <= v <= 9
    ensures IsDigit(c) && DigitValue(c) == v
  {
    ('0' as int + v) as char
  }

  /** The value of a numeral: `int(s)` for a string of digits. */
  function NumeralValue(s: string): (v: nat)
    requires forall i :: 0 <= i < |s| ==> IsDigit(s[i])
    decreases |s|
  {
    if s == [] then 0 else NumeralValue(s[..|s| - 1]) * 10 + DigitValue(s[|s| - 1])
  }

  /** The shortest decimal numeral of `n`: `str(n)` for n >= 0. */
  function Numeral(n: nat): (s: string)
    ensures AllDigits(s)
    ensures NumeralValue(s) == n
    ensures |s| > 1 ==> s[0] != '0'
    decreases n
  {
    if n < 10 then [DigitChar(n)]
    else
      var s := Numeral(n / 10) + [DigitChar(n % 10)];
      assert s[..|s| - 1] == Numeral(n / 10);
      s
  }

  /** `str(n)` for any integer. */
  function IntText(n: int): (s: string)
    ensures s != []
    ensures n >= 0 ==> AllDigits(s) && NumeralValue(s) == n
    ensures n < 0 ==> s[0] == '-' && AllDigits(s[1..]) && NumeralValue(s[1..]) == -n
  {
    if n >= 0 then Numeral(n) else "-" + Numeral(-n)
  }

  /** `n` written with exactly `width` digits, zero-padded on the left, as
      `strftime` writes the fields of a date. */
  function Padded(n: nat, width: nat): (s: string)
    requires n < Power10(width)
    ensures |s| == width
    ensures forall i :: 0 <= i < |s| ==> IsDigit(s[i])
    ensures NumeralValue(s) == n
    decreases width
  {
    if width == 0 then []
    else
      var s := Padded(n / 10, width - 1) + [DigitChar(n % 10)];
      assert s[..|s| - 1] == Padded(n / 10, width - 1);
      s
  }

  /** A year of 1000..9999 written with four digits: its thousands,
      hundreds, tens and units. */
  lemma PaddedYear(n: nat)
    requires 1000 <= n <= 9999
    ensures Padded(n, 4) == [DigitChar(n / 1000), DigitChar(n / 100 % 10), DigitChar(n / 10 % 10), DigitChar(n % 10)]
  {
    var a := n / 10;
    YearQuotients(n);
    PaddedThree(a);
    PaddedLast(n, 4);
  }

  lemma PaddedThree(a: nat)
    requires a < 1000
    ensures Padded(a, 3) == [DigitChar(a / 100), DigitChar(a / 10 % 10), DigitChar(a % 10)]
  {
    var b := a / 10;
    assert b / 10 == a / 100;
    PaddedTwo(b);
    PaddedLast(a, 3);
  }

  lemma PaddedTwo(b: nat)
    requires b < 100
    ensures Padded(b, 2) == [DigitChar(b / 10), DigitChar(b % 10)]
  {
    PaddedLast(b / 10, 1);
    PaddedLast(b, 2);
  }

  lemma YearQuotients(n: nat)
    requires 1000 <= n <= 9999
    ensures n / 10 / 100 == n / 1000 && n / 10 / 10 % 10 == n / 100 % 10 && n / 10 < 1000
  {
  }

  /** The last digit of a padded numeral is the units digit. */
  lemma PaddedLast(n: nat, width: nat)
    requires 0 < width && n < Power10(width)
    ensures Padded(n, width) == Padded(n / 10, width - 1) + [DigitChar(n % 10)]
  {
  }

  function Power10(k: nat): (p: nat)
    ensures p >= 1
  {
    if k == 0 then 1 else 10 * Power10(k - 1)
  }

  /** A numeral of `k` digits is worth less than 10^k. */
  lemma {:induction false} NumeralBound(t: string)
    requires forall i :: 0 <= i < |t| ==> IsDigit(t[i])
    ensures NumeralValue(t) < Power10(|t|)
    decreases |t|
  {
    if t != [] {
      NumeralBound(t[..|t| - 1]);
    }
  }

  /** Zero-padding the value of a numeral to its own width gives the numeral
      back. */
  lemma {:induction false} PaddedNumeral(t: string)
    requires forall i :: 0 <= i < |t| ==> IsDigit(t[i])
    ensures NumeralValue(t) < Power10(|t|)
    ensures Padded(NumeralValue(t), |t|) == t
    decreases |t|
  {
    NumeralBound(t);
    if t != [] {
      var init := t[..|t| - 1];
      PaddedNumeral(init);
      var n := NumeralValue(t);
      assert n / 10 == NumeralValue(init) && n % 10 == DigitValue(t[|t| - 1]);
      assert t == init + [t[|t| - 1]];
    }
  }
}
