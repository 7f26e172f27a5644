/** Go's `<` on strings, which the row sort uses. Go compares the UTF-8 bytes;
    on well-formed UTF-8 byte order and code-point order agree, so comparing
    Dafny chars gives the same relation. */
module Lex {
  import opened Digits

  predicate Less(a: string, b: string)
    decreases |a|
  {
    if |a| == 0 then |b| > 0
    else if |b| == 0 then false
    else if a[0] != b[0] then a[0] < b[0]
    else Less(a[1..], b[1..])
  }

  lemma {:induction false} LessIrreflexive(a: string)
    ensures !Less(a, a)
    decreases |a|
  {
    if |a| > 0 {
      LessIrreflexive(a[1..]);
    }
  }

  lemma {:induction false} LessTransitive(a: string, b: string, c: string)
    requires Less(a, b) && Less(b, c)
    ensures Less(a, c)
    decreases |a|
  {
    if |a| > 0 && a[0] == b[0] && b[0] == c[0] {
      LessTransitive(a[1..], b[1..], c[1..]);
    }
  }

  /** Any two different strings are ordered one way or the other. */
  lemma {:induction false} LessTotal(a: string, b: string)
    ensures a == b || Less(a, b) || Less(b, a)
    decreases |a|
  {
    if |a| > 0 && |b| > 0 && a[0] == b[0] {
      LessTotal(a[1..], b[1..]);
      if a[1..] == b[1..] {
        assert a == [a[0]] + a[1..] && b == [b[0]] + b[1..];
      }
    }
  }

  /** Comparing two strings whose heads have the same length compares the
      heads first and falls back to the tails only when the heads are equal. */
  lemma {:induction false} LessAppend(x1: string, y1: string, x2: string, y2: string)
    requires |x1| == |x2|
    ensures Less(x1 + y1, x2 + y2) <==> Less(x1, x2) || (x1 == x2 && Less(y1, y2))
    decreases |x1|
  {
    if |x1| == 0 {
      assert x1 + y1 == y1 && x2 + y2 == y2;
    } else {
      assert (x1 + y1)[0] == x1[0] && (x2 + y2)[0] == x2[0];
      assert (x1 + y1)[1..] == x1[1..] + y1;
      assert (x2 + y2)[1..] == x2[1..] + y2;
      LessAppend(x1[1..], y1, x2[1..], y2);
      if x1[0] == x2[0] && x1[1..] == x2[1..] {
        assert x1 == [x1[0]] + x1[1..] && x2 == [x2[0]] + x2[1..];
      }
      if x1 == x2 {
        assert x1[1..] == x2[1..];
      }
    }
  }

  lemma LessSingle(c1: char, c2: char)
    ensures Less([c1], [c2]) <==> c1 < c2
  {
    assert [c1][1..] == [] && [c2][1..] == [];
  }

  /** On zero-padded numerals of one width, string order is numeric order. */
  lemma {:induction false} FixedLess(n: nat, m: nat, w: nat)
    requires n < Pow10(w) && m < Pow10(w)
    ensures Less(Fixed(n, w), Fixed(m, w)) <==> n < m
  {
    if w == 0 {
      assert Fixed(n, w) == [] && Fixed(m, w) == [];
    } else {
      FixedLess(n / 10, m / 10, w - 1);
      LessAppend(Fixed(n / 10, w - 1), [DigitChar(n % 10)], Fixed(m / 10, w - 1), [DigitChar(m % 10)]);
      LessSingle(DigitChar(n % 10), DigitChar(m % 10));
      FixedInjective(n / 10, m / 10, w - 1);
    }
  }
}
