/** Fixed-width decimal fields, as printed by `strftime`'s numeric
    directives (`%Y`, `%m`, `%f`, ...), and the value a field reads back as. */
module Decimal {

  function Pow10(n: nat): (r: nat)
    ensures r >= 1
  {
    if n == 0 then 1 else 10 * Pow10(n - 1)
  }

  predicate IsDigit(c: char) {
    '0' <= c <= '9'
  }

  predicate AllDigits(s: string) {
    forall i :: 0 <= i < |s| ==> IsDigit(s[i])
  }

  function DigitChar(d: nat): (c: char)
    requires d < 10
    ensures IsDigit(c) && c as int - '0' as int == d
  {
    ('0' as int + d) as char
  }

  /** `n` written in exactly `w` decimal digits, with leading zeros. */
  function Pad(n: nat, w: nat): (s: string)
    requires n < Pow10(w)
    ensures |s| == w
    ensures AllDigits(s)
  {
    if w == 0 then ""
    else Pad(n / 10, w - 1) + [DigitChar(n % 10)]
  }

  /** The number a string of digits denotes. */
  function Value(s: string): nat
    requires AllDigits(s)
  {
    if |s| == 0 then 0
    else 10 * Value(s[..|s| - 1]) + (s[|s| - 1] as int - '0' as int)
  }

  /** `n` with its last `b` decimal digits dropped. */
  function DropDigits(n: nat, b: nat): nat {
    if b == 0 then n else DropDigits(n / 10, b - 1)
  }

  /** Reading a padded field back gives the number that was written. */
  lemma {:induction false} ValueOfPad(n: nat, w: nat)
    requires n < Pow10(w)
    ensures Value(Pad(n, w)) == n
  {
    if w > 0 {
      var p := Pad(n / 10, w - 1);
      ValueOfPad(n / 10, w - 1);
      assert (p + [DigitChar(n % 10)])[..w - 1] == p;
    }
  }

  lemma {:induction false} DropDigitsBound(n: nat, a: nat, b: nat)
    requires n < Pow10(a + b)
    ensures DropDigits(n, b) < Pow10(a)
  {
    if b > 0 {
      DropDigitsBound(n / 10, a, b - 1);
    }
  }

  /** The first `a` digits of a field `a + b` digits wide are the field
      for the number without its last `b` digits: cutting a field short
      truncates, it never rounds. */
  lemma {:induction false} PadPrefix(n: nat, a: nat, b: nat)
    requires n < Pow10(a + b)
    ensures DropDigits(n, b) < Pow10(a)
    ensures Pad(n, a + b)[..a] == Pad(DropDigits(n, b), a)
  {
    DropDigitsBound(n, a, b);
    if b > 0 {
      PadPrefix(n / 10, a, b - 1);
      var p := Pad(n / 10, a + b - 1);
      assert Pad(n, a + b) == p + [DigitChar(n % 10)];
      assert (p + [DigitChar(n % 10)])[..a] == p[..a];
    }
  }
}
