/** Decimal digits as Python writes and reads them: `str()` of an integer,
    the zero-padded fields of `strftime`, and the value a digit string
    denotes. */
module Decimal {

  predicate IsDigit(c: char) {
    '0' <= c <= '9'
  }

  predicate AllDigits(s: string) {
    forall k :: 0 <= k < |s| ==> IsDigit(s[k])
  }

  function DigitChar(d: nat): (c: char)
    requires d < 10
    ensures IsDigit(c) && c as int - '0' as int == d
  {
    ('0' as int + d) as char
  }

  /** The number a string of digits denotes (the empty string denotes 0). */
  function DigitsValue(s: string): nat
    requires AllDigits(s)
  {
    if s == [] then 0
    else DigitsValue(s[..|s| - 1]) * 10 + (s[|s| - 1] as int - '0' as int)
  }

  function Pow10(w: nat): nat {
    if w == 0 then 1 else 10 * Pow10(w - 1)
  }

  /** The `width` low-order decimal digits of `n`, zero-padded on the left,
      as `%0<width>d` writes them (`%Y`, `%m`, `%d` for field values that fit). */
  function Padded(n: nat, width: nat): (r: string)
    ensures |r| == width
  {
    if width == 0 then [] else Padded(n / 10, width - 1) + [DigitChar(n % 10)]
  }

  lemma {:induction false} PaddedDigits(n: nat, width: nat)
    ensures AllDigits(Padded(n, width))
  {
    if width > 0 {
      PaddedDigits(n / 10, width - 1);
      var r := Padded(n, width);
      assert r[..|r| - 1] == Padded(n / 10, width - 1);
      assert forall k :: 0 <= k < |r| - 1 ==> r[k] == r[..|r| - 1][k];
    }
  }

  /** A padded field reads back as the number, whenever the number fits. */
  lemma {:induction false} PaddedValue(n: nat, width: nat)
    requires n < Pow10(width)
    ensures AllDigits(Padded(n, width)) && DigitsValue(Padded(n, width)) == n
  {
    PaddedDigits(n, width);
    if width > 0 {
      var r := Padded(n, width);
      assert r[..|r| - 1] == Padded(n / 10, width - 1);
      PaddedValue(n / 10, width - 1);
    }
  }

  /** `str(n)` for a natural number: its shortest decimal form, without a
      leading zero unless it is 0. */
  function NatString(n: nat): (r: string)
    ensures |r| >= 1
  {
    if n < 10 then [DigitChar(n)] else NatString(n / 10) + [DigitChar(n % 10)]
  }

  /** `str(n)` is made of digits, without a leading zero unless it is 0. */
  lemma {:induction false} NatStringDigits(n: nat)
    ensures AllDigits(NatString(n))
    ensures |NatString(n)| > 1 ==> NatString(n)[0] != '0'
  {
    if n >= 10 {
      NatStringDigits(n / 10);
      var r := NatString(n);
      assert r[..|r| - 1] == NatString(n / 10);
      assert forall k :: 0 <= k < |r| - 1 ==> r[k] == r[..|r| - 1][k];
      if n / 10 < 10 {
        assert r[0] == DigitChar(n / 10);
      }
    }
  }

  lemma {:induction false} NatStringValue(n: nat)
    ensures AllDigits(NatString(n)) && DigitsValue(NatString(n)) == n
  {
    NatStringDigits(n);
    if n >= 10 {
      var r := NatString(n);
      assert r[..|r| - 1] == NatString(n / 10);
      NatStringValue(n / 10);
    }
  }

  /** `str(n)` for any integer: a minus sign before the magnitude when
      negative. */
  function IntString(n: int): string {
    if n < 0 then "-" + NatString(-n) else NatString(n)
  }
}
