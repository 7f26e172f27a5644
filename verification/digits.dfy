/** Decimal numerals: the digit runs of the compact timestamp layout and the
    zero-padded integers Go's time formatting and fmt's "%02d" write. */
module Digits {

  predicate IsDigit(c: char) {
    '0' <= c <= '9'
  }

  predicate AllDigits(s: string) {
    forall i :: 0 <= i < |s| ==> IsDigit(s[i])
  }

  function DigitValue(c: char): (v: nat)
    requires IsDigit(c)
    ensures v < 10
  {
    c as int - '0' as int
  }

  function DigitChar(v: nat): (c: char)
    requires v < 10
    ensures IsDigit(c) && DigitValue(c) == v
  {
    ('0' as int + v) as char
  }

  function Pow10(n: nat): (p: nat)
    ensures p >= 1
  {
    if n == 0 then 1 else 10 * Pow10(n - 1)
  }

  lemma {:induction false} Pow10Add(a: nat, b: nat)
    ensures Pow10(a + b) == Pow10(a) * Pow10(b)
  {
    if a > 0 {
      Pow10Add(a - 1, b);
      assert Pow10(a + b) == 10 * Pow10(a - 1 + b);
    }
  }

  /** The number a digit string denotes, most significant digit first. */
  function Value(s: string): (v: nat)
    requires AllDigits(s)
    ensures v < Pow10(|s|)
  {
    if |s| == 0 then 0 else Value(s[..|s| - 1]) * 10 + DigitValue(s[|s| - 1])
  }

  /** n written with exactly w digits, zero-padded on the left; the numeral
      denotes n again. */
  function Fixed(n: nat, w: nat): (s: string)
    requires n < Pow10(w)
    ensures |s| == w && AllDigits(s)
    ensures Value(s) == n
  {
    if w == 0 then []
    else
      var s := Fixed(n / 10, w - 1) + [DigitChar(n % 10)];
      assert s[..w - 1] == Fixed(n / 10, w - 1);
      s
  }

  /** Reading a numeral and writing the number back at the same width gives
      the numeral, leading zeros included. */
  lemma {:induction false} FixedOfValue(s: string)
    requires AllDigits(s)
    ensures Fixed(Value(s), |s|) == s
  {
    if |s| > 0 {
      var init := s[..|s| - 1];
      FixedOfValue(init);
      var v := Value(s);
      assert v / 10 == Value(init) && v % 10 == DigitValue(s[|s| - 1]);
      assert DigitChar(v % 10) == s[|s| - 1];
      assert s == init + [s[|s| - 1]];
    }
  }

  /** Two numerals of one width are equal exactly when their values are. */
  lemma FixedInjective(n: nat, m: nat, w: nat)
    requires n < Pow10(w) && m < Pow10(w)
    ensures Fixed(n, w) == Fixed(m, w) <==> n == m
  {
  }

  /** n in the fewest digits (no leading zero), as strconv and fmt write it. */
  function Decimal(n: nat): (s: string)
    ensures 1 <= |s| && AllDigits(s) && Value(s) == n
    ensures |s| > 1 ==> s[0] != '0'
    ensures n < 10 <==> |s| == 1
  {
    if n < 10 then [DigitChar(n)]
    else
      var h := Decimal(n / 10);
      var s := h + [DigitChar(n % 10)];
      assert s[..|s| - 1] == h;
      assert |h| == 1 ==> Value(h) == DigitValue(h[0]) by {
        if |h| == 1 {
          assert h[..0] == [];
        }
      }
      s
  }
}
