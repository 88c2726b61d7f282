/** Digit strings and the numbers they write. */
module Digits {

  predicate IsDigit(c: char) { '0' <= c <= '9' }

  predicate AllDigits(s: string) {
    forall i :: 0 <= i < |s| ==> IsDigit(s[i])
  }

  function DigitOf(c: char): (d: nat)
    requires IsDigit(c)
    ensures d < 10
  {
    c as int - '0' as int
  }

  function DigitChar(d: nat): (c: char)
    requires d < 10
    ensures IsDigit(c) && DigitOf(c) == d
  {
    ('0' as int + d) as char
  }

  function Val(s: string): nat
    requires AllDigits(s)
  {
    if s == "" then 0 else Val(s[..|s| - 1]) * 10 + DigitOf(s[|s| - 1])
  }

  function Pow10(n: nat): (p: nat)
    ensures p > 0
  {
    if n == 0 then 1 else 10 * Pow10(n - 1)
  }

  function Zeros(n: nat): (s: string)
    ensures |s| == n && AllDigits(s)
  {
    seq(n, _ => '0')
  }

  lemma {:induction false} PowAdds(a: nat, b: nat)
    ensures Pow10(a + b) == Pow10(a) * Pow10(b)
  {
    if a > 0 {
      PowAdds(a - 1, b);
    }
  }

  lemma ValSnoc(s: string, c: char)
    requires AllDigits(s) && IsDigit(c)
    ensures AllDigits(s + [c]) && Val(s + [c]) == Val(s) * 10 + DigitOf(c)
  {
    assert (s + [c])[..|s|] == s;
  }

  lemma Regroup(x: nat, p: nat)
    ensures x * (10 * p) == (x * p) * 10
  {
  }

  lemma {:induction false} ValJoins(a: string, b: string)
    requires AllDigits(a) && AllDigits(b)
    ensures AllDigits(a + b) && Val(a + b) == Val(a) * Pow10(|b|) + Val(b)
  {
    if b == "" {
      assert a + b == a;
    } else {
      var front, last := b[..|b| - 1], b[|b| - 1];
      ValJoins(a, front);
      assert a + b == (a + front) + [last] && b == front + [last];
      ValSnoc(a + front, last);
      ValSnoc(front, last);
      Regroup(Val(a), Pow10(|front|));
    }
  }

  lemma {:induction false} ValBelowPow(s: string)
    requires AllDigits(s)
    ensures Val(s) < Pow10(|s|)
  {
    if s != "" {
      ValBelowPow(s[..|s| - 1]);
    }
  }

  lemma {:induction false} ZerosAreZero(n: nat)
    ensures Val(Zeros(n)) == 0
  {
    if n > 0 {
      assert Zeros(n)[..n - 1] == Zeros(n - 1);
      ZerosAreZero(n - 1);
    }
  }

  /** The decimal text of a natural number. */
  function NatText(n: nat): (s: string)
    ensures AllDigits(s) && |s| > 0
  {
    if n < 10 then [DigitChar(n)] else NatText(n / 10) + [DigitChar(n % 10)]
  }

  lemma {:induction false} NatTextWrites(n: nat)
    ensures Val(NatText(n)) == n
    ensures n > 0 ==> NatText(n)[0] != '0'
  {
    if n < 10 {
      ValSnoc("", DigitChar(n));
      assert "" + [DigitChar(n)] == NatText(n);
    } else {
      NatTextWrites(n / 10);
      ValSnoc(NatText(n / 10), DigitChar(n % 10));
    }
  }

  // ----- Adding one to the last place

  predicate AllNines(s: string) {
    forall i :: 0 <= i < |s| ==> s[i] == '9'
  }

  /** The digit string one higher in its last place; it grows only when it was all nines. */
  function RoundUp(s: string): (r: string)
    requires AllDigits(s)
    ensures AllDigits(r)
    ensures |r| == |s| + if AllNines(s) then 1 else 0
  {
    if s == "" then "1"
    else
      var front, last := s[..|s| - 1], s[|s| - 1];
      if last == '9' then
        assert AllNines(front) ==> AllNines(s);
        assert AllNines(s) ==> AllNines(front);
        RoundUp(front) + "0"
      else front + [DigitChar(DigitOf(last) + 1)]
  }

  lemma {:induction false} RoundUpAddsOne(s: string)
    requires AllDigits(s)
    ensures Val(RoundUp(s)) == Val(s) + 1
  {
    if s == "" {
      ValSnoc("", '1');
      assert "" + "1" == "1";
    } else {
      var front, last := s[..|s| - 1], s[|s| - 1];
      if last == '9' {
        RoundUpAddsOne(front);
        ValSnoc(RoundUp(front), '0');
      } else {
        ValSnoc(front, DigitChar(DigitOf(last) + 1));
      }
    }
  }

  // ----- Division lemmas

  lemma QuotientIs(x: int, y: int, q: int)
    requires y > 0 && q * y <= x < (q + 1) * y
    ensures x / y == q
  {
    var d := x / y;
    QuotientBounds(x, y);
    if d < q {
      ProductRises(d + 1, q, y);
    } else if q < d {
      ProductRises(q + 1, d, y);
    }
  }

  lemma ProductRises(a: int, b: int, y: int)
    requires a <= b && y > 0
    ensures a * y <= b * y
  {
    assert (b - a) * y >= 0;
  }

  lemma QuotientBounds(x: int, y: int)
    requires y > 0
    ensures (x / y) * y <= x < (x / y + 1) * y
  {
  }
}
