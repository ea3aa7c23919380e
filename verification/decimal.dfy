/** Rust's `format!("{}", n)` for an unsigned integer: base-10 digits with
    no sign and no leading zero. Used for the `Content-Length` header. */
module Decimal {
  import opened Common

  predicate IsDigit(c: char) {
    '0' <= c <= '9'
  }

  function DigitChar(d: nat): char
    requires d < 10
  {
    ('0' as int + d) as char
  }

  function DigitValue(c: char): nat
    requires IsDigit(c)
  {
    c as int - '0' as int
  }

  predicate AllDigits(s: string) {
    forall i :: 0 <= i < |s| ==> IsDigit(s[i])
  }

  /** The form `{}` prints: at least one digit, and no leading zero unless the
      number is zero itself. */
  predicate Canonical(s: string) {
    |s| > 0 && AllDigits(s) && (s[0] == '0' ==> |s| == 1)
  }

  /** The decimal rendering of `n`. */
  function Show(n: nat): (s: string)
    ensures |s| > 0 && AllDigits(s)
    ensures s[0] == '0' ==> n == 0
    decreases n
  {
    if n < 10 then [DigitChar(n)] else Show(n / 10) + [DigitChar(n % 10)]
  }

  /** The number a string of digits denotes, most significant digit first. */
  function DigitsValue(s: string): nat
    requires AllDigits(s)
    decreases |s|
  {
    if |s| == 0 then 0
    else DigitsValue(s[..|s| - 1]) * 10 + DigitValue(s[|s| - 1])
  }

  /** Reads back a `Content-Length` value: `None` unless every character is a
      digit and there is at least one. */
  function Parse(s: string): (r: Option<nat>)
    ensures r.Some? <==> |s| > 0 && AllDigits(s)
  {
    if |s| > 0 && AllDigits(s) then Some(DigitsValue(s)) else None
  }

  /** Reading the rendering of `n` gives `n` back, and the rendering is canonical. */
  lemma {:induction false} ParseShow(n: nat)
    ensures Parse(Show(n)) == Some(n)
    ensures Canonical(Show(n))
    decreases n
  {
    var s := Show(n);
    if n < 10 {
      assert s[..|s| - 1] == [];
    } else {
      ParseShow(n / 10);
      assert s[..|s| - 1] == Show(n / 10);
      assert DigitsValue(s) == DigitsValue(Show(n / 10)) * 10 + n % 10;
    }
  }

  /** A canonical digit string is the rendering of the number it denotes, so
      `Show` and `Parse` are inverse bijections between numbers and
      canonical strings. */
  lemma {:induction false} ShowParse(s: string)
    requires Canonical(s)
    ensures Show(DigitsValue(s)) == s
    decreases |s|
  {
    if |s| > 1 {
      var init := s[..|s| - 1];
      assert Canonical(init);
      ShowParse(init);
      assert init[0] != '0';
      LeadingDigitPositive(init);
      assert s == init + [s[|s| - 1]];
    }
  }

  lemma {:induction false} LeadingDigitPositive(s: string)
    requires |s| > 0 && AllDigits(s) && s[0] != '0'
    ensures DigitsValue(s) >= 1
    decreases |s|
  {
    if |s| == 1 {
      assert s[..0] == [];
    } else {
      LeadingDigitPositive(s[..|s| - 1]);
    }
  }

  function Pow10(k: nat): nat {
    if k == 0 then 1 else 10 * Pow10(k - 1)
  }

  /** A number below `10^k` takes at most `k` digits (and at least one). */
  lemma {:induction false} ShowLengthBelow(n: nat, k: nat)
    requires k >= 1
    ensures n < Pow10(k) ==> |Show(n)| <= k
    decreases k
  {
    if n >= 10 && k > 1 {
      ShowLengthBelow(n / 10, k - 1);
    }
  }

  /** A number at least `10^k` takes more than `k` digits. */
  lemma {:induction false} ShowLengthAbove(n: nat, k: nat)
    ensures n >= Pow10(k) ==> |Show(n)| > k
    decreases k
  {
    if k > 0 && n >= Pow10(k) {
      PowPositive(k - 1);
      assert n / 10 >= Pow10(k - 1);
      ShowLengthAbove(n / 10, k - 1);
    }
  }

  lemma {:induction false} PowPositive(k: nat)
    ensures Pow10(k) >= 1
    decreases k
  {
    if k > 0 {
      PowPositive(k - 1);
    }
  }
}
