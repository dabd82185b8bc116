/** String helpers the command handlers rely on: prefix and suffix tests,
    the last piece of `split('_')`, and JavaScript's `Number()` on the
    strings a button id can end with. */
module Text {

  datatype Option<+T> = None | Some(value: T)

  predicate StartsWith(s: string, prefix: string) {
    |prefix| <= |s| && s[..|prefix|] == prefix
  }

  predicate EndsWith(s: string, suffix: string) {
    |suffix| <= |s| && s[|s| - |suffix|..] == suffix
  }

  /** The last element of `s.split(sep)`: the text after the last `sep`,
      or all of `s` when it holds no `sep`. */
  function LastSegment(s: string, sep: char): (r: string)
    ensures sep !in r
    ensures |r| <= |s| && r == s[|s| - |r|..]
    ensures |r| < |s| ==> s[|s| - |r| - 1] == sep
  {
    if |s| == 0 || s[|s| - 1] == sep then []
    else LastSegment(s[..|s| - 1], sep) + [s[|s| - 1]]
  }

  predicate IsDigit(c: char) {
    '0' <= c <= '9'
  }

  predicate AllDigits(s: string) {
    forall i :: 0 <= i < |s| ==> IsDigit(s[i])
  }

  function DigitValue(c: char): nat
    requires IsDigit(c)
  {
    c as int - '0' as int
  }

  /** Decimal value of a string of digits, most significant first. */
  function DigitsValue(s: string): nat
    requires AllDigits(s)
  {
    if |s| == 0 then 0
    else 10 * DigitsValue(s[..|s| - 1]) + DigitValue(s[|s| - 1])
  }

  /** The digit character of a number below ten. */
  function DigitChar(d: nat): (c: char)
    requires d < 10
    ensures IsDigit(c) && DigitValue(c) == d
  {
    ('0' as int + d) as char
  }

  /** `Number(s)` for the strings modelled here: the empty string reads as
      0, a string of decimal digits as its value; anything else is NaN,
      written `None`. */
  function ParseNumber(s: string): (r: Option<nat>)
    ensures r.None? <==> exists i :: 0 <= i < |s| && !IsDigit(s[i])
    ensures |s| == 0 ==> r == Some(0)
  {
    if AllDigits(s) then Some(DigitsValue(s)) else None
  }

  /** The decimal numeral of `n`, as a template literal renders a
      non-negative integer: no sign and no leading zeros. */
  function Decimal(n: nat): (s: string)
    ensures |s| > 0 && AllDigits(s)
    ensures n < 10 ==> s == [DigitChar(n)]
    decreases n
  {
    if n < 10 then [DigitChar(n)]
    else Decimal(n / 10) + [DigitChar(n % 10)]
  }

  /** Appending a digit shifts the value one decimal place. */
  lemma DigitsValueSnoc(s: string, c: char)
    requires AllDigits(s) && IsDigit(c)
    ensures AllDigits(s + [c])
    ensures DigitsValue(s + [c]) == 10 * DigitsValue(s) + DigitValue(c)
  {
  }

  /** Every numeral `Decimal` writes reads back as the number it renders. */
  lemma {:induction false} ParseDecimal(n: nat)
    ensures ParseNumber(Decimal(n)) == Some(n)
    decreases n
  {
    if n < 10 {
      var s := [DigitChar(n)];
      assert s[..0] == [];
      assert DigitsValue(s) == 10 * DigitsValue([]) + DigitValue(s[0]);
    } else {
      ParseDecimal(n / 10);
      DigitsValueSnoc(Decimal(n / 10), DigitChar(n % 10));
    }
  }
}
