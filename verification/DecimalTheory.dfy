/**
 What the decimal texts mean as numbers, for digit strings of any length.
 */
module DecimalTheory {
  import opened Options
  import opened Digits
  import opened DecimalText

  // ----- Rounding

  /** `r` is n / 10^f rounded half up to p places: r = floor(n * 10^p / 10^f + 1/2). */
  ghost predicate IsHalfUp(r: nat, n: nat, f: nat, p: nat) {
    2 * (r * Pow10(f)) <= 2 * (n * Pow10(p)) + Pow10(f) < 2 * ((r + 1) * Pow10(f))
  }

  /** `r` is n / 10^f cut to p places. */
  ghost predicate IsCut(r: nat, n: nat, f: nat, p: nat) {
    r * Pow10(f) <= n * Pow10(p) < (r + 1) * Pow10(f)
  }

  lemma PaddedValue(whole: string, frac: string, places: nat)
    requires AllDigits(whole) && AllDigits(frac) && |frac| <= places
    ensures AllDigits(whole + frac) && AllDigits(whole + Fitted(frac, places))
    ensures Val(whole + Fitted(frac, places)) == Val(whole + frac) * Pow10(places - |frac|)
  {
    var zeros := Zeros(places - |frac|);
    assert whole + (frac + zeros) == (whole + frac) + zeros;
    ValJoins(whole + frac, zeros);
    ZerosAreZero(places - |frac|);
  }

  /** Cutting the fraction splits the number into a kept head and a dropped tail. */
  lemma CutValue(whole: string, frac: string, places: nat)
    requires AllDigits(whole) && AllDigits(frac) && places < |frac|
    ensures AllDigits(whole + frac) && AllDigits(whole + frac[..places]) && AllDigits(frac[places..])
    ensures Val(whole + frac) == Val(whole + frac[..places]) * Pow10(|frac| - places) + Val(frac[places..])
    ensures Val(frac[places..]) < Pow10(|frac| - places)
  {
    var head, tail := whole + frac[..places], frac[places..];
    assert head + tail == whole + frac;
    ValJoins(head, tail);
    ValBelowPow(tail);
  }

  lemma SingleDigit(c: char)
    requires IsDigit(c)
    ensures AllDigits([c]) && Val([c]) == DigitOf(c)
  {
    ValSnoc("", c);
    assert "" + [c] == [c];
  }

  lemma DigitHalf(d: nat, p: nat, rest: nat)
    requires d < 10 && rest < p
    ensures d < 5 <==> 2 * (d * p + rest) < 10 * p
  {
    if d < 5 {
      assert d * p <= 4 * p;
    } else {
      assert 5 * p <= d * p;
    }
  }

  /** The first dropped digit decides which half the dropped tail is in. */
  lemma FirstDroppedDigit(tail: string)
    requires AllDigits(tail) && tail != ""
    ensures DigitOf(tail[0]) < 5 <==> 2 * Val(tail) < Pow10(|tail|)
  {
    hide Val;
    var rest := tail[1..];
    assert tail == [tail[0]] + rest;
    ValJoins([tail[0]], rest);
    ValBelowPow(rest);
    SingleDigit(tail[0]);
    DigitHalf(DigitOf(tail[0]), Pow10(|rest|), Val(rest));
  }

  /** Half-up in terms of the kept head `k`, the unit `w` and the dropped tail `t`, all scaled alike. */
  lemma HalfUpScaled(r: nat, k: nat, w: nat, t: nat)
    requires t < w && r == if 2 * t < w then k else k + 1
    ensures 2 * (r * w) <= 2 * (k * w + t) + w < 2 * ((r + 1) * w)
  {
    assert (k + 1) * w == k * w + w;
    assert (k + 2) * w == k * w + 2 * w;
  }

  lemma HalfUpFromUnit(r: nat, n: nat, f: nat, p: nat, k: nat, tail: nat)
    requires p <= f && n == k * Pow10(f - p) + tail && tail < Pow10(f - p)
    requires r == if 2 * tail < Pow10(f - p) then k else k + 1
    ensures IsHalfUp(r, n, f, p)
  {
    hide Pow10;
    var u, q := Pow10(f - p), Pow10(p);
    PowAdds(f - p, p);
    Distribute(k * u, tail, q);
    Associate(k, u, q);
    Scale(tail, u, q);
    HalvesScale(tail, u, q);
    HalfUpScaled(r, k, u * q, tail * q);
  }

  lemma Distribute(x: int, y: int, z: int)
    ensures (x + y) * z == x * z + y * z
  {
  }

  lemma HalvesScale(a: nat, b: nat, q: nat)
    requires q > 0
    ensures 2 * a < b <==> 2 * (a * q) < b * q
  {
    Associate(2, a, q);
    if 2 * a < b {
      Scale(2 * a, b, q);
    } else {
      ScaleUp(b, 2 * a, q);
    }
  }

  lemma Scale(a: nat, b: nat, q: nat)
    requires a < b && q > 0
    ensures a * q < b * q
  {
    assert (b - a) * q > 0;
  }

  lemma ScaleUp(a: nat, b: nat, q: nat)
    requires a <= b
    ensures a * q <= b * q
  {
    assert (b - a) * q >= 0;
  }

  lemma HalfUpExact(r: nat, n: nat, f: nat, p: nat)
    requires f <= p && r == n * Pow10(p - f)
    ensures IsHalfUp(r, n, f, p)
  {
    hide Pow10;
    PowAdds(p - f, f);
    var a, b := Pow10(p - f), Pow10(f);
    Associate(n, a, b);
    assert r * b == n * Pow10(p);
    Distribute(r, 1, b);
  }

  lemma Associate(x: int, y: int, z: int)
    ensures (x * y) * z == x * (y * z)
  {
  }

  /**
   Carry rounding is correct. For digit strings of any length the rounded text has exactly
   `places` fractional digits, keeps the sign, and its magnitude is the number rounded half up;
   the integer part grows by one digit exactly when every kept digit was a nine and the next
   was five or more.
   */
  lemma RoundingIsHalfUp(p: Parts, places: nat)
    requires Wellformed(p)
    ensures var r := RoundTo(p, places);
      && |r.frac| == places && r.negative == p.negative
      && IsHalfUp(Magnitude(r), Magnitude(p), |p.frac|, places)
      && |r.whole| == |p.whole|
           + if places < |p.frac| && DigitOf(p.frac[places]) >= 5 && AllNines(p.whole + p.frac[..places]) then 1 else 0
  {
    hide IsHalfUp, Val, RoundUp, Pow10;
    var r := RoundTo(p, places);
    if |p.frac| <= places {
      PaddedValue(p.whole, p.frac, places);
      HalfUpExact(Magnitude(r), Magnitude(p), |p.frac|, places);
    } else {
      var kept := p.whole + p.frac[..places];
      CutValue(p.whole, p.frac, places);
      FirstDroppedDigit(p.frac[places..]);
      if DigitOf(p.frac[places]) < 5 {
        assert r.whole + r.frac == kept;
      } else {
        RoundUpAddsOne(kept);
        assert r.whole + r.frac == RoundUp(kept);
      }
      HalfUpFromUnit(Magnitude(r), Magnitude(p), |p.frac|, places, Val(kept), Val(p.frac[places..]));
    }
  }

  // ----- Abbreviated totals

  lemma {:induction false} LeadingZerosIgnored(s: string)
    requires AllDigits(s)
    ensures AllDigits(TrimLeadingZeros(s)) && Val(TrimLeadingZeros(s)) == Val(s)
  {
    hide Val;
    if s != "" && s[0] == '0' {
      LeadingZerosIgnored(s[1..]);
      LeadingZero(s);
    }
  }

  lemma LeadingZero(s: string)
    requires AllDigits(s) && s != "" && s[0] == '0'
    ensures Val(s[1..]) == Val(s)
  {
    hide Val, Pow10;
    var rest := s[1..];
    assert s == ['0'] + rest;
    ValJoins(['0'], rest);
    SingleDigit('0');
    assert 0 * Pow10(|rest|) == 0;
  }

  lemma CloseToUnit(h: nat, n: nat, unit: nat)
    requires 2 * (h * unit) <= 2 * (n * 10) + unit < 2 * ((h + 1) * unit)
    ensures 20 * n <= 2 * (h * unit) + unit && 2 * (h * unit) <= 20 * n + unit
  {
    Distribute(h, 1, unit);
  }

  /**
   An abbreviated total is within one twentieth of its unit. With h the shown tenths and the value
   x = n / 10^f, the claim |h/10 * 10^d - x| <= 10^d / 20 is stated without division.
   */
  lemma AbbreviationIsClose(p: Parts, tier: Tier)
    requires Wellformed(p) && tier in ABBREV_TIERS && |TrimLeadingZeros(p.whole)| > tier.digits
    ensures var shifted := Shifted(p, TrimLeadingZeros(p.whole), tier);
      && Wellformed(shifted)
      && var h, n, unit := Magnitude(RoundTo(shifted, 1)), Magnitude(p), Pow10(tier.digits + |p.frac|);
         20 * n <= 2 * (h * unit) + unit && 2 * (h * unit) <= 20 * n + unit
  {
    hide Val, RoundTo, TrimLeadingZeros;
    var plain := TrimLeadingZeros(p.whole);
    var shifted := Shifted(p, plain, tier);
    LeadingZerosIgnored(p.whole);
    assert shifted.whole + shifted.frac == plain + p.frac;
    ValJoins(plain, p.frac);
    ValJoins(p.whole, p.frac);
    RoundingIsHalfUp(shifted, ABBREV_PLACES);
    assert Pow10(1) == 10 * Pow10(0) == 10;
    CloseToUnit(Magnitude(RoundTo(shifted, 1)), Magnitude(p), Pow10(tier.digits + |p.frac|));
  }

  // ----- Fixed-point integers

  /** The fixed-point integer of a text is its value cut towards zero, with its sign. */
  lemma ToFixedTruncates(p: Parts, places: nat)
    requires Wellformed(p)
    ensures IsCut(Abs(ToFixed(p, places)), Magnitude(p), |p.frac|, places)
    ensures p.negative ==> ToFixed(p, places) <= 0
    ensures !p.negative ==> ToFixed(p, places) >= 0
  {
    hide Val, Pow10;
    var r := Abs(ToFixed(p, places));
    if |p.frac| <= places {
      PaddedValue(p.whole, p.frac, places);
      PowAdds(places - |p.frac|, |p.frac|);
      Associate(Magnitude(p), Pow10(places - |p.frac|), Pow10(|p.frac|));
      Distribute(r, 1, Pow10(|p.frac|));
    } else {
      CutValue(p.whole, p.frac, places);
      var u, q, tail := Pow10(|p.frac| - places), Pow10(places), Val(p.frac[places..]);
      PowAdds(|p.frac| - places, places);
      Distribute(r * u, tail, q);
      Associate(r, u, q);
      Scale(tail, u, q);
      Distribute(r, 1, u * q);
    }
  }

  /** At its own number of places a text is exactly its fixed-point integer. */
  lemma ToFixedExact(p: Parts)
    requires Wellformed(p)
    ensures Abs(ToFixed(p, |p.frac|)) == Magnitude(p)
    ensures p.negative ==> ToFixed(p, |p.frac|) <= 0
    ensures !p.negative ==> ToFixed(p, |p.frac|) >= 0
  {
    assert Fitted(p.frac, |p.frac|) == p.frac;
  }

  lemma PadStartValue(s: string, width: nat)
    requires AllDigits(s)
    ensures Val(PadStart(s, width)) == Val(s)
  {
    hide Val;
    if |s| < width {
      ValJoins(Zeros(width - |s|), s);
      ZerosAreZero(width - |s|);
      assert 0 * Pow10(|s|) == 0;
    }
  }

  lemma FromFixedWrites(v: int, places: nat)
    ensures Magnitude(FromFixedInt(v, places)) == Abs(v)
    ensures ToFixed(FromFixedInt(v, places), places) == v
  {
    var digits := PadStart(NatText(Abs(v)), places + 1);
    NatTextWrites(Abs(v));
    PadStartValue(NatText(Abs(v)), places + 1);
    var parts := FromFixedInt(v, places);
    assert parts.whole + parts.frac == digits;
    assert Fitted(parts.frac, places) == parts.frac;
  }

  // ----- Text round trips

  lemma {:induction false} AllLeading(digits: string, rest: string)
    requires AllDigits(digits) && (rest == "" || !IsDigit(rest[0]))
    ensures LeadingDigits(digits + rest) == |digits|
  {
    if digits == "" {
      assert digits + rest == rest;
    } else {
      assert (digits + rest)[1..] == digits[1..] + rest;
      AllLeading(digits[1..], rest);
    }
  }

  lemma NothingToTrim(s: string)
    requires s != "" && !IsSpace(s[0]) && !IsSpace(s[|s| - 1])
    ensures Trim(s) == s
  {
  }

  lemma JoinedEnds(p: Parts)
    requires Wellformed(p)
    ensures var text := JoinParts(p, false, false);
      text != "" && Trim(text) == text
  {
    var text := JoinParts(p, false, false);
    assert IsDigit(text[|text| - 1]);
    assert text[0] == '-' || IsDigit(text[0]);
    NothingToTrim(text);
  }

  /** Printing parts ungrouped and parsing the text gives the parts back. */
  lemma SplitUndoesJoin(p: Parts)
    requires Wellformed(p)
    ensures SplitDecimal(Some(JoinParts(p, false, false))) == Some(p)
  {
    hide Trim, LeadingDigits;
    var text := JoinParts(p, false, false);
    JoinedEnds(p);
    var body := if p.frac == "" then p.whole else p.whole + "." + p.frac;
    var rest := if p.frac == "" then "" else "." + p.frac;
    assert body == p.whole + rest;
    AllLeading(p.whole, rest);
    assert body[..|p.whole|] == p.whole && body[|p.whole|..] == rest;
    assert p.negative ==> text == "-" + body && text[1..] == body;
    assert !p.negative ==> text == body && text[0] !in {'+', '-'};
    assert rest != "" ==> rest[1..] == p.frac;
  }

  lemma TrimmedIsUntrimmed(p: Parts)
    requires Wellformed(p)
    ensures JoinParts(p, true, false) == JoinParts(p.(frac := TrimZeros(p.frac)), false, false)
    ensures Wellformed(p.(frac := TrimZeros(p.frac)))
  {
  }

  lemma TrimmedFitsBack(frac: string)
    requires AllDigits(frac)
    ensures AllDigits(TrimZeros(frac)) && Fitted(TrimZeros(frac), |frac|) == frac
  {
  }

  /**
   Printer and parser undo each other: for every integer and place count, printing it at those
   places, with or without its trailing zeros, and reading the text back gives the integer.
   */
  lemma FixedRoundTrip(v: int, places: nat, trim: bool)
    ensures ToFixedInt(Some(JoinParts(FromFixedInt(v, places), trim, false)), places) == Some(v)
  {
    hide SplitDecimal, JoinParts;
    var p := FromFixedInt(v, places);
    FromFixedWrites(v, places);
    if trim {
      TrimmedIsUntrimmed(p);
      TrimmedFitsBack(p.frac);
      SplitUndoesJoin(p.(frac := TrimZeros(p.frac)));
    } else {
      SplitUndoesJoin(p);
    }
  }

  // ----- Grouping

  function RemoveCommas(s: string): string {
    if s == "" then ""
    else
      var front := RemoveCommas(s[..|s| - 1]);
      if s[|s| - 1] == ',' then front else front + [s[|s| - 1]]
  }

  ghost predicate NoComma(s: string) {
    forall i :: 0 <= i < |s| ==> s[i] != ','
  }

  lemma {:induction false} RemoveFromJoined(a: string, b: string)
    requires NoComma(b)
    ensures RemoveCommas(a + b) == RemoveCommas(a) + b
  {
    if b == "" {
      assert a + b == a;
    } else {
      assert (a + b)[..|a + b| - 1] == a + b[..|b| - 1];
      RemoveFromJoined(a, b[..|b| - 1]);
    }
  }

  lemma NothingToRemove()
    ensures RemoveCommas("") == ""
  {
  }

  lemma CommaRemoved(g: string)
    ensures RemoveCommas(g + ",") == RemoveCommas(g)
  {
    assert (g + ",")[..|g|] == g;
  }

  /** A separator stands before every third digit from the right, nowhere else and not in front. */
  ghost predicate SetOff(g: string) {
    (g == "" || g[0] != ',') && forall i :: 0 <= i < |g| ==> (g[i] == ',' <==> (|g| - i) % 4 == 0)
  }

  /** Removing the separators inverts grouping, and they stand where they should. */
  lemma {:induction false} GroupingIsInvertible(s: string)
    requires NoComma(s)
    ensures RemoveCommas(Grouped(s)) == s && SetOff(Grouped(s))
    ensures s != "" ==> Grouped(s) != ""
    decreases |s|
  {
    hide RemoveCommas;
    if |s| <= 3 {
      RemoveFromJoined("", s);
      assert "" + s == s;
      NothingToRemove();
    } else {
      var head, tail := s[..|s| - 3], s[|s| - 3..];
      GroupingIsInvertible(head);
      var g := Grouped(head);
      CommaRemoved(g);
      RemoveFromJoined(g + ",", tail);
      assert s == head + tail;
      CommaPlaces(g, tail);
    }
  }

  lemma CommaPlaces(g: string, tail: string)
    requires |tail| == 3 && NoComma(tail) && g != ""
    ensures SetOff(g + "," + tail) <==> SetOff(g)
  {
    var r := g + "," + tail;
    assert r[0] == g[0];
    forall i | 0 <= i < |g| ensures r[i] == g[i] && (|r| - i) % 4 == (|g| - i) % 4 {
      assert |r| - i == (|g| - i) + 4;
    }
    forall i | |g| <= i < |r| ensures r[i] == ',' <==> (|r| - i) % 4 == 0 {
      assert i > |g| ==> r[i] == tail[i - |g| - 1];
    }
    if SetOff(r) {
      forall i | 0 <= i < |g| ensures g[i] == ',' <==> (|g| - i) % 4 == 0 {
        assert r[i] == g[i];
      }
    }
  }

  lemma LastThree(g: string)
    requires SetOff(g)
    ensures |g| <= 3 ==> NoComma(g)
    ensures |g| > 3 ==> |g| > 4 && NoComma(g[|g| - 3..]) && g == g[..|g| - 4] + "," + g[|g| - 3..]
  {
    if |g| > 3 {
      assert g[|g| - 4] == ',';
    }
  }

  lemma GroupedSnoc(s: string, tail: string)
    requires s != "" && |tail| == 3
    ensures Grouped(s + tail) == Grouped(s) + "," + tail
  {
    assert (s + tail)[..|s|] == s && (s + tail)[|s|..] == tail;
  }

  lemma ShortStays(s: string)
    requires |s| <= 3
    ensures Grouped(s) == s
  {
  }

  /** There is only one way to set off the digits: the grouping. */
  lemma {:induction false} GroupedIsOnly(g: string)
    requires SetOff(g)
    ensures g == Grouped(RemoveCommas(g)) && NoComma(RemoveCommas(g))
    ensures g != "" ==> RemoveCommas(g) != ""
    decreases |g|
  {
    hide RemoveCommas, Grouped, SetOff;
    LastThree(g);
    if |g| <= 3 {
      NothingRemoved(g);
      ShortStays(g);
    } else {
      var head, tail := g[..|g| - 4], g[|g| - 3..];
      CommaPlaces(head, tail);
      GroupedIsOnly(head);
      CommaRemoved(head);
      RemoveFromJoined(head + ",", tail);
      GroupedSnoc(RemoveCommas(head), tail);
    }
  }

  lemma NothingRemoved(s: string)
    requires NoComma(s)
    ensures RemoveCommas(s) == s
  {
    RemoveFromJoined("", s);
    assert "" + s == s;
    NothingToRemove();
  }

  // ----- Truncated division

  /** `q` is the exact ratio x / y cut towards zero. */
  ghost predicate IsTruncated(q: int, x: int, y: int)
    requires y != 0
  {
    && Abs(q) * Abs(y) <= Abs(x) < (Abs(q) + 1) * Abs(y)
    && ((x < 0) == (y < 0) ==> q >= 0) && ((x < 0) != (y < 0) ==> q <= 0)
  }

  lemma TruncDivTruncates(x: int, y: int)
    requires y != 0
    ensures IsTruncated(TruncDiv(x, y), x, y)
  {
    var a, b := Abs(x), Abs(y);
    var q := a / b;
    QuotientBounds(a, b);
    assert q >= 0;
    assert Abs(TruncDiv(x, y)) == q;
  }

  lemma AbsScales(x: int, k: nat)
    requires k > 0
    ensures Abs(x * k) == Abs(x) * k && ((x * k < 0) == (x < 0)) && (x != 0 ==> x * k != 0)
  {
    if x < 0 {
      assert (-x) * k == -(x * k) && (-x) * k > 0;
    } else {
      assert x * k >= 0;
    }
    if x > 0 {
      assert x * k > 0;
    }
  }

  lemma TruncatedCancels(q: int, x: int, y: int, k: nat)
    requires y != 0 && k > 0 && y * k != 0
    requires IsTruncated(q, x, y)
    ensures IsTruncated(q, x * k, y * k)
  {
    AbsScales(x, k);
    AbsScales(y, k);
    var a, b, c := Abs(q), Abs(y), Abs(x);
    Associate(a, b, k);
    Associate(a + 1, b, k);
    ScaleUp(a * b, c, k);
    Scale(c, (a + 1) * b, k);
  }

  /**
   `bpText`: for operands of any scale the printed integer is the exact ratio of the two
   numbers in hundredths of a basis point, num * 10^6 / den, cut towards zero.
   */
  lemma BpIsTruncatedRatio(num: Parts, den: Parts)
    requires Wellformed(num) && Wellformed(den)
    ensures BpQuotient(num, den).None? <==> Magnitude(den) == 0
    ensures var n, d := ToFixed(num, |num.frac|), ToFixed(den, |den.frac|);
      var x, y := n * Pow10(|den.frac| + 6), d * Pow10(|num.frac|);
      BpQuotient(num, den).Some? ==> y != 0 && IsTruncated(BpQuotient(num, den).value, x, y)
  {
    ToFixedExact(num);
    ToFixedExact(den);
    var n, d := ToFixed(num, |num.frac|), ToFixed(den, |den.frac|);
    if d != 0 {
      hide IsTruncated, TruncDiv, ToFixed, Magnitude;
      var np, dp := |num.frac|, |den.frac| + BP_SHIFT;
      AbsScales(d, Pow10(np));
      if dp >= np {
        var x := n * Pow10(dp - np);
        TruncDivTruncates(x, d);
        TruncatedCancels(TruncDiv(x, d), x, d, Pow10(np));
        PowAdds(dp - np, np);
        Associate(n, Pow10(dp - np), Pow10(np));
      } else {
        var y := d * Pow10(np - dp);
        AbsScales(d, Pow10(np - dp));
        TruncDivTruncates(n, y);
        PowAdds(np - dp, dp);
        Associate(d, Pow10(np - dp), Pow10(dp));
        TruncatedCancels(TruncDiv(n, y), n, y, Pow10(dp));
      }
    }
  }

  /** The text `bpText` shows reads back as that quotient at two places. */
  lemma BpTextReadsBack(numerator: Option<string>, denominator: Option<string>)
    requires SplitDecimal(numerator).Some? && SplitDecimal(denominator).Some?
    ensures var q := BpQuotient(SplitDecimal(numerator).value, SplitDecimal(denominator).value);
      q.Some? ==> ToFixedInt(Some(BpText(numerator, denominator)), 2) == q
  {
    hide SplitDecimal, BpQuotient, ToFixedInt, JoinParts;
    var q := BpQuotient(SplitDecimal(numerator).value, SplitDecimal(denominator).value);
    if q.Some? {
      FixedRoundTrip(q.value, BP_PLACES, false);
    }
  }

  // ----- Price bins

  /** The aligned value is a multiple of the bin width next to the price, on the side towards zero. */
  lemma AlignedTowardsZero(p: int, b: int)
    requires b > 0
    ensures var aligned := TruncDiv(p, b) * b;
      && (p >= 0 ==> aligned <= p < aligned + b)
      && (p < 0 ==> aligned - b < p <= aligned)
  {
    QuotientBounds(Abs(p), b);
    var q := Abs(p) / b;
    assert (q + 1) * b == q * b + b;
    assert (-q) * b == -(q * b);
  }

  /**
   `priceBinText` shows the bin that holds the price, bin <= price < bin + width, exactly when the
   price is not negative or is a multiple of the width: below zero the cut goes up instead of down.
   */
  lemma BinHoldsPrice(price: Parts, bin: Parts)
    requires Wellformed(price) && Wellformed(bin) && PriceBin(price, bin).Some?
    ensures var places := Larger(|price.frac|, |bin.frac|);
      var p, b, aligned := ToFixed(price, places), ToFixed(bin, places), PriceBin(price, bin).value;
      && b > 0 && (exists k :: aligned == k * b)
      && (aligned <= p < aligned + b <==> p >= 0 || p % b == 0)
  {
    var places := Larger(|price.frac|, |bin.frac|);
    var p, b := ToFixed(price, places), ToFixed(bin, places);
    AlignedTowardsZero(p, b);
    AlignedMultiples(p, b);
    assert PriceBin(price, bin).value == TruncDiv(p, b) * b;
  }

  lemma AlignedMultiples(p: int, b: int)
    requires b > 0
    ensures TruncDiv(p, b) * b == p <==> p % b == 0
  {
    var k := p / b;
    assert p == k * b + p % b;
    if p % b == 0 {
      UnitCountIsExact(p, b);
      assert exists j :: p == j * b by { assert p == k * b; }
    } else {
      AlignedTowardsZero(p, b);
      NoMultiple(p, b, TruncDiv(p, b));
    }
  }

  lemma NoMultiple(p: int, b: int, j: int)
    requires b > 0 && p % b != 0
    ensures p != j * b
  {
    assert p == (p / b) * b + p % b;
    if p == j * b {
      QuotientIs(p, b, j);
    }
  }

  /** A bin that holds the price is the only one. */
  lemma BinIsUnique(p: int, b: int, i: int, j: int)
    requires b > 0 && i * b <= p < i * b + b && j * b <= p < j * b + b
    ensures i == j
  {
    QuotientIs(p, b, i);
    QuotientIs(p, b, j);
  }

  /** A price of -1.5 in bins of 1 is shown at -1, above the price. */
  lemma NegativePriceGoesUp()
    ensures PriceBin(Parts(true, "1", "5"), Parts(false, "1", "")) == Some(-10)
    ensures ToFixed(Parts(true, "1", "5"), 1) == -15
  {
    assert "1" + "5" == "15" && "1" + "0" == "10";
    ValSnoc("", '1');
    ValSnoc("1", '5');
    ValSnoc("1", '0');
    assert "" + "1" == "1" && "1" + ['5'] == "15" && "1" + ['0'] == "10";
    assert Fitted("5", 1) == "5" && Fitted("", 1) == "0";
  }

  /** The shown bin text reads back as the aligned price. */
  lemma PriceBinTextReadsBack(price: Option<string>, bin: Option<string>)
    requires SplitDecimal(price).Some? && SplitDecimal(bin).Some?
    ensures var p, b := SplitDecimal(price).value, SplitDecimal(bin).value;
      var places := Larger(|p.frac|, |b.frac|);
      PriceBin(p, b).Some? ==>
        PriceBinText(price, bin).Some?
        && ToFixedInt(PriceBinText(price, bin), places) == PriceBin(p, b)
  {
    hide SplitDecimal, PriceBin, ToFixedInt, JoinParts;
    var p, b := SplitDecimal(price).value, SplitDecimal(bin).value;
    if PriceBin(p, b).Some? {
      FixedRoundTrip(PriceBin(p, b).value, Larger(|p.frac|, |b.frac|), true);
    }
  }

  // ----- Counts and sums

  /** A unit count is shown exactly when the division is exact, and then times the unit it is the value. */
  lemma UnitCountIsExact(v: int, u: int)
    requires u > 0
    ensures TruncMod(v, u) == 0 <==> TruncDiv(v, u) * u == v
    ensures (exists k :: v == k * u) ==> TruncMod(v, u) == 0
  {
    if k :| v == k * u {
      var a := Abs(k);
      assert Abs(v) == a * u by { AbsScales(k, u); }
      QuotientIs(Abs(v), u, a);
      assert (-a) * u == -(a * u);
      AbsScales(k, u);
    }
  }

  /** The text of a sum of sizes reads back as the sum of the sizes, each cut to the step. */
  lemma SumReadsBack(values: seq<string>, places: nat)
    ensures ToFixedInt(Some(JoinParts(FromFixedInt(SumFixed(values, places), places), true, false)), places)
         == Some(SumFixed(values, places))
  {
    FixedRoundTrip(SumFixed(values, places), places, true);
  }
}
