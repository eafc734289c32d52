/**
 * Decimal text of user ids: `strconv.Itoa` (used when a user record is built)
 * and `strconv.Atoi` (used when a user record is saved), over Go's 64-bit `int`.
 */
module Decimal {
  import opened Wrappers

  const MinInt64: int := -0x8000_0000_0000_0000
  const MaxInt64: int := 0x7FFF_FFFF_FFFF_FFFF

  /** Go's `int` on a 64-bit platform. */
  type Int64 = x: int | MinInt64 <= x <= MaxInt64

  predicate IsDigit(c: char) {
    '0' <= c <= '9'
  }

  predicate AllDigits(s: string) {
    forall i :: 0 <= i < |s| ==> IsDigit(s[i])
  }

  function DigitChar(d: nat): (c: char)
    requires d < 10
    ensures IsDigit(c)
  {
    ('0' as int + d) as char
  }

  function DigitValue(c: char): (d: nat)
    requires IsDigit(c)
    ensures d < 10
  {
    c as int - '0' as int
  }

  /** The decimal digits of `n`, most significant first, with no leading zero. */
  function Digits(n: nat): string
    decreases n
  {
    if n < 10 then [DigitChar(n)] else Digits(n / 10) + [DigitChar(n % 10)]
  }

  /** The number a non-empty or empty string of decimal digits denotes (leading zeros allowed). */
  function ValueOf(s: string): nat
    requires AllDigits(s)
  {
    if s == [] then 0 else ValueOf(s[..|s| - 1]) * 10 + DigitValue(s[|s| - 1])
  }

  /** `strconv.Itoa`: a minus sign for negative numbers, then the digits of the magnitude. */
  function Itoa(n: int): string {
    if n < 0 then "-" + Digits(-n) else Digits(n)
  }

  /** The part of `s` after an optional leading `+` or `-`. */
  function Unsigned(s: string): (u: string)
    ensures |u| <= |s|
  {
    if |s| > 0 && (s[0] == '-' || s[0] == '+') then s[1..] else s
  }

  /**
   * `strconv.Atoi`: an optional sign followed by at least one decimal digit,
   * nothing else; a value outside the 64-bit range is an error (`ErrRange`).
   */
  function Atoi(s: string): (r: Option<Int64>)
    ensures r.Some? ==> Unsigned(s) != [] && AllDigits(Unsigned(s))
    ensures r.Some? ==> (r.value < 0 ==> s[0] == '-')
  {
    var u := Unsigned(s);
    if u == [] || !AllDigits(u) then None
    else
      var v: int := if s[0] == '-' then -(ValueOf(u) as int) else ValueOf(u);
      if MinInt64 <= v <= MaxInt64 then Some(v) else None
  }

  /** `Digits` yields a non-empty string of digits that starts with a non-zero digit unless `n` is zero. */
  lemma {:induction false} DigitsShape(n: nat)
    ensures |Digits(n)| > 0 && AllDigits(Digits(n))
    ensures Digits(n)[0] == '0' <==> n == 0
    decreases n
  {
    if n >= 10 {
      DigitsShape(n / 10);
    }
  }

  /** Reading the digits of `n` back gives `n`. */
  lemma {:induction false} ValueOfDigits(n: nat)
    ensures AllDigits(Digits(n)) && ValueOf(Digits(n)) == n
    decreases n
  {
    DigitsShape(n);
    if n >= 10 {
      var s := Digits(n);
      ValueOfDigits(n / 10);
      assert s[..|s| - 1] == Digits(n / 10);
    }
  }

  /** The text `Itoa` writes: an optional `-` (exactly for negative numbers) followed by canonical digits. */
  lemma ItoaShape(n: int)
    ensures |Itoa(n)| > 0 && Itoa(n) != "-"
    ensures Itoa(n)[0] == '-' <==> n < 0
    ensures Itoa(n)[0] != '+'
    ensures AllDigits(Unsigned(Itoa(n)))
  {
    if n < 0 {
      DigitsShape(-n);
      assert Unsigned(Itoa(n)) == Digits(-n);
    } else {
      DigitsShape(n);
    }
  }

  /** `Atoi` maps the text `Itoa` writes for a 64-bit integer back to that integer. */
  lemma AtoiItoa(n: Int64)
    ensures Atoi(Itoa(n)) == Some(n)
  {
    var s := Itoa(n);
    ItoaShape(n);
    var m: nat := if n < 0 then -(n as int) else n;
    var u := Unsigned(s);
    assert u == Digits(m);
    ValueOfDigits(m);
    assert u != [] && AllDigits(u) && ValueOf(u) == m;
    assert (s[0] == '-') == (n < 0);
  }

  /** Distinct ids get distinct decimal texts, so a user's `ID` identifies its numeric id. */
  lemma ItoaInjective(m: Int64, n: Int64)
    requires Itoa(m) == Itoa(n)
    ensures m == n
  {
    AtoiItoa(m);
    AtoiItoa(n);
  }
}
