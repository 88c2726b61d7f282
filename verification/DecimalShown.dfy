/**
 What a reader of the shown texts may rely on: taking the separators out and reading a text
 back gives the number it stands for, to the accuracy each text promises.
 */
module DecimalShown {
  import opened Options
  import opened Digits
  import opened DecimalText
  import opened DecimalTheory

  // ----- Separators

  lemma {:induction false} RemoveJoins(a: string, b: string)
    ensures RemoveCommas(a + b) == RemoveCommas(a) + RemoveCommas(b)
  {
    if b == "" {
      assert a + b == a;
    } else {
      assert (a + b)[..|a + b| - 1] == a + b[..|b| - 1];
      RemoveJoins(a, b[..|b| - 1]);
    }
  }

  /** A grouped text without its separators is the ungrouped text. */
  lemma GroupedReadsBack(p: Parts, trim: bool)
    requires Wellformed(p)
    ensures RemoveCommas(JoinParts(p, trim, true)) == JoinParts(p, trim, false)
  {
    hide RemoveCommas, Grouped, TrimZeros;
    var sign := if p.negative then "-" else "";
    var frac := if trim then TrimZeros(p.frac) else p.frac;
    var tail := if frac == "" then "" else "." + frac;
    assert JoinParts(p, trim, true) == sign + (Grouped(p.whole) + tail);
    assert JoinParts(p, trim, false) == sign + (p.whole + tail);
    RemoveJoins(sign, Grouped(p.whole) + tail);
    RemoveJoins(Grouped(p.whole), tail);
    NothingRemoved(sign);
    NothingRemoved(tail);
    GroupingIsInvertible(p.whole);
  }

  /** A shown text without its separators, as a fixed-point integer. */
  function ReadBack(text: string, places: nat): Option<int> { ToFixedInt(Some(RemoveCommas(text)), places) }

  lemma ShownPartsReadBack(p: Parts, trim: bool)
    requires Wellformed(p)
    ensures ReadBack(JoinParts(p, trim, true), |p.frac|) == Some(ToFixed(p, |p.frac|))
  {
    hide SplitDecimal, RemoveCommas, JoinParts, TrimZeros;
    GroupedReadsBack(p, trim);
    if trim {
      TrimmedIsUntrimmed(p);
      TrimmedFitsBack(p.frac);
      SplitUndoesJoin(p.(frac := TrimZeros(p.frac)));
      assert Fitted(p.frac, |p.frac|) == p.frac;
    } else {
      SplitUndoesJoin(p);
    }
  }

  // ----- Totals

  /** h tenths of a unit of 10^d are within one twentieth of that unit of n / 10^f. */
  ghost predicate WithinTwentieth(h: nat, n: nat, d: nat, f: nat) {
    var unit := Pow10(d + f);
    20 * n <= 2 * (h * unit) + unit && 2 * (h * unit) <= 20 * n + unit
  }

  ghost predicate SameSign(shown: int, p: Parts) {
    if p.negative then shown <= 0 else shown >= 0
  }

  function TierOf(p: Parts, abbreviate: bool): Option<Tier> {
    if abbreviate then FirstTier(TrimLeadingZeros(p.whole), ABBREV_TIERS) else None
  }

  /**
   `totalText`. Reading the shown text back gives, for a plain total, the value rounded half up at
   the places of the step; for an abbreviated one, tenths of its unit within one twentieth of the
   unit; the sign is kept.
   */
  lemma TotalReadsBack(value: Option<string>, step: Option<string>, abbreviate: bool)
    requires SplitDecimal(value).Some?
    ensures var p, text, places := SplitDecimal(value).value, TotalTextOf(value, step, abbreviate),
                                   DecimalPlaces(step.GetOr(""));
      match TierOf(p, abbreviate)
      case None =>
        && ReadBack(text, places).Some? && SameSign(ReadBack(text, places).value, p)
        && IsHalfUp(Abs(ReadBack(text, places).value), Magnitude(p), |p.frac|, places)
      case Some(tier) =>
        && text != "" && text[|text| - 1..] == tier.mark
        && var shown := ReadBack(text[..|text| - 1], 1);
           && shown.Some? && SameSign(shown.value, p)
           && WithinTwentieth(Abs(shown.value), Magnitude(p), tier.digits, |p.frac|)
  {
    hide SplitDecimal, RoundTo, JoinParts, DecimalPlaces, TrimLeadingZeros, IsHalfUp, ReadBack, Magnitude, ToFixed;
    hide Shifted, FirstTier;
    var p := SplitDecimal(value).value;
    match TierOf(p, abbreviate)
    case None =>
      var places := DecimalPlaces(step.GetOr(""));
      var r := RoundTo(p, places);
      RoundingIsHalfUp(p, places);
      ShownPartsReadBack(r, true);
      ToFixedExact(r);
    case Some(tier) =>
      var shifted := Shifted(p, TrimLeadingZeros(p.whole), tier);
      AbbreviationIsClose(p, tier);
      var r := RoundTo(shifted, ABBREV_PLACES);
      RoundingIsHalfUp(shifted, ABBREV_PLACES);
      ShownPartsReadBack(r, false);
      ToFixedExact(r);
      ShiftedKeepsSign(p, TrimLeadingZeros(p.whole), tier);
      var body := JoinParts(r, false, true);
      assert (body + tier.mark)[..|body|] == body;
  }

  lemma ShiftedKeepsSign(p: Parts, plain: string, tier: Tier)
    requires |plain| > tier.digits
    ensures Shifted(p, plain, tier).negative == p.negative
  {
  }

  lemma {:induction false} AtLeastPow(s: string)
    requires AllDigits(s) && s != "" && s[0] != '0'
    ensures Pow10(|s| - 1) <= Val(s)
  {
    if |s| == 1 {
      SingleDigit(s[0]);
      assert s == [s[0]];
    } else {
      var front := s[..|s| - 1];
      AtLeastPow(front);
      assert Pow10(|s| - 1) == 10 * Pow10(|front| - 1);
    }
  }

  lemma {:induction false} PowRises(a: nat, b: nat)
    requires a <= b
    ensures Pow10(a) <= Pow10(b)
  {
    if a < b {
      PowRises(a, b - 1);
    }
  }

  lemma LongerThan(whole: string, digits: nat)
    requires AllDigits(whole)
    ensures |TrimLeadingZeros(whole)| > digits <==> Val(whole) >= Pow10(digits)
  {
    hide Val, Pow10;
    var plain := TrimLeadingZeros(whole);
    LeadingZerosIgnored(whole);
    if |plain| > digits {
      NoLeadingZero(whole);
      AtLeastPow(plain);
      PowRises(digits, |plain| - 1);
    } else {
      ValBelowPow(plain);
      PowRises(|plain|, digits);
    }
  }

  lemma {:induction false} NoLeadingZero(s: string)
    ensures TrimLeadingZeros(s) != "" ==> TrimLeadingZeros(s)[0] != '0'
  {
    if s != "" && s[0] == '0' {
      NoLeadingZero(s[1..]);
    }
  }

  /** Totals from a million up are shown in M, from a thousand up in k, and smaller ones in full. */
  lemma TierByMagnitude(p: Parts)
    requires Wellformed(p)
    ensures TierOf(p, true) == (if Val(p.whole) >= 1000000 then Some(Tier("M", 6))
                                else if Val(p.whole) >= 1000 then Some(Tier("k", 3)) else None)
    ensures TierOf(p, false) == None
  {
    hide Val, TrimLeadingZeros;
    var plain := TrimLeadingZeros(p.whole);
    LongerThan(p.whole, 6);
    LongerThan(p.whole, 3);
    assert Pow10(3) == 10 * Pow10(2) == 1000 && Pow10(6) == 1000 * Pow10(3) by {
      assert Pow10(2) == 10 * Pow10(1) == 100 * Pow10(0);
      PowAdds(3, 3);
    }
    assert ABBREV_TIERS[0] == MILLIONS && ABBREV_TIERS[1..] == [THOUSANDS];
    assert FirstTier(plain, ABBREV_TIERS) == if |plain| > 6 then Some(MILLIONS) else FirstTier(plain, [THOUSANDS]);
    assert FirstTier(plain, [THOUSANDS]) == if |plain| > 3 then Some(THOUSANDS) else FirstTier(plain, []);
  }

  // ----- Counts of a unit

  lemma {:induction false} PointAfter(head: string, rest: string)
    requires forall i :: 0 <= i < |head| ==> head[i] != '.'
    requires rest == "" || rest[0] == '.'
    ensures FirstPoint(head + rest) == |head|
  {
    if head == "" {
      assert head + rest == rest;
    } else {
      assert (head + rest)[1..] == head[1..] + rest;
      PointAfter(head[1..], rest);
    }
  }

  /** On text that parses, the place count is the length of the fraction: nothing is cut. */
  lemma PlacesOfText(text: string)
    requires SplitDecimal(Some(text)).Some?
    ensures DecimalPlaces(text) == |SplitDecimal(Some(text)).value.frac|
  {
    hide Trim, LeadingDigits, FirstPoint;
    var t := Trim(text);
    var signed := t != "" && t[0] in {'+', '-'};
    var u := if signed then t[1..] else t;
    var n := LeadingDigits(u);
    var head := if signed then [t[0]] + u[..n] else u[..n];
    assert t == head + u[n..];
    PointAfter(head, u[n..]);
  }

  lemma ExactAtMorePlaces(p: Parts, places: nat)
    requires Wellformed(p) && |p.frac| <= places
    ensures Abs(ToFixed(p, places)) == Magnitude(p) * Pow10(places - |p.frac|)
    ensures SameSign(ToFixed(p, places), p)
  {
    PaddedValue(p.whole, p.frac, places);
  }

  /** A text of the printer is never the text of a missing value. */
  lemma NumbersAreNotEmptyText(p: Parts)
    requires Wellformed(p)
    ensures JoinParts(p, false, false) != EMPTY_TEXT
  {
    JoinedEnds(p);
    var text := JoinParts(p, false, false);
    assert text[0] == '-' || IsDigit(text[0]);
  }

  /** Both texts are numbers, the unit is positive and the value a whole number of units, at full precision. */
  ghost predicate CountsUnits(value: Option<string>, unit: Option<string>) {
    && SplitDecimal(value).Some? && SplitDecimal(unit).Some?
    && (var p, q := SplitDecimal(value).value, SplitDecimal(unit).value;
        var places := Larger(|p.frac|, |q.frac|);
        ToFixed(q, places) > 0 && exists k :: ToFixed(p, places) == k * ToFixed(q, places))
  }

  /**
   `unitCountText` shows a number exactly when both texts parse, the unit is positive and the value
   is a whole number of units; then the shown number times the unit is the value. Both are compared
   at their own full precision, with nothing cut off.
   */
  lemma UnitCountCounts(value: Option<string>, unit: Option<string>)
    ensures UnitCountText(value, unit) != EMPTY_TEXT <==> CountsUnits(value, unit)
    ensures SplitDecimal(value).Some? && SplitDecimal(unit).Some? ==>
      var p, q := SplitDecimal(value).value, SplitDecimal(unit).value;
      var places := Larger(|p.frac|, |q.frac|);
      var v, u, shown := ToFixed(p, places), ToFixed(q, places), ToFixedInt(Some(UnitCountText(value, unit)), 0);
      && Abs(v) == Magnitude(p) * Pow10(places - |p.frac|) && Abs(u) == Magnitude(q) * Pow10(places - |q.frac|)
      && (CountsUnits(value, unit) ==> shown.Some? && shown.value * u == v)
  {
    hide SplitDecimal, ToFixed, TruncMod, TruncDiv, JoinParts, FromFixedInt, Magnitude, DecimalPlaces;
    if SplitDecimal(value).Some? && SplitDecimal(unit).Some? {
      var p, q := SplitDecimal(value).value, SplitDecimal(unit).value;
      NumbersAreTexts(value);
      NumbersAreTexts(unit);
      PlacesOfText(value.value);
      PlacesOfText(unit.value);
      var places := Larger(|p.frac|, |q.frac|);
      ExactAtMorePlaces(p, places);
      ExactAtMorePlaces(q, places);
      var v, u := ToFixed(p, places), ToFixed(q, places);
      if u > 0 {
        UnitCountIsExact(v, u);
        var count := TruncDiv(v, u);
        if TruncMod(v, u) == 0 {
          assert v == count * u;
          FixedRoundTrip(count, 0, false);
          NumbersAreNotEmptyText(FromFixedInt(count, 0));
        }
      }
    }
  }

  lemma NumbersAreTexts(value: Option<string>)
    ensures SplitDecimal(value).Some? ==> value.Some?
  {
  }

  // ----- Differences in basis points

  lemma TruncatedIsUnique(q: int, r: int, x: int, y: int)
    requires y != 0 && IsTruncated(q, x, y) && IsTruncated(r, x, y)
    ensures q == r
  {
    QuotientIs(Abs(x), Abs(y), Abs(q));
    QuotientIs(Abs(x), Abs(y), Abs(r));
  }

  /**
   `bpDiffText` is `bpText` of the exact difference: subtracting at the finer of the two scales and
   dividing there gives the same quotient as dividing the printed difference by the base.
   */
  lemma BpDiffIsBpOfDifference(value: Parts, base: Parts)
    requires Wellformed(value) && Wellformed(base)
    ensures var places := Larger(|value.frac|, |base.frac|);
      BpDiffQuotient(value, base)
        == BpQuotient(FromFixedInt(ToFixed(value, places) - ToFixed(base, places), places), base)
  {
    hide TruncDiv, IsTruncated, ToFixed, Magnitude, FromFixedInt, BpQuotient;
    var places := Larger(|value.frac|, |base.frac|);
    var d, b := ToFixed(value, places) - ToFixed(base, places), ToFixed(base, places);
    var diff := FromFixedInt(d, places);
    FromFixedWrites(d, places);
    BpIsTruncatedRatio(diff, base);
    ScaledToMorePlaces(base, places);
    var own, extra := ToFixed(base, |base.frac|), Pow10(places - |base.frac|);
    assert b == own * extra;
    ToFixedExact(base);
    AbsScales(own, extra);
    if b != 0 {
      var q := TruncDiv(d * Pow10(BP_SHIFT), b);
      TruncDivTruncates(d * Pow10(BP_SHIFT), b);
      AbsScales(b, Pow10(|base.frac|));
      TruncatedCancels(q, d * Pow10(BP_SHIFT), b, Pow10(|base.frac|));
      PowAdds(BP_SHIFT, |base.frac|);
      Associate(d, Pow10(BP_SHIFT), Pow10(|base.frac|));
      PowAdds(places - |base.frac|, |base.frac|);
      Associate(own, extra, Pow10(|base.frac|));
      TruncatedIsUnique(q, BpQuotient(diff, base).value, d * Pow10(|base.frac| + BP_SHIFT), own * Pow10(places));
    }
  }

  lemma ScaledToMorePlaces(p: Parts, places: nat)
    requires Wellformed(p) && |p.frac| <= places
    ensures ToFixed(p, places) == ToFixed(p, |p.frac|) * Pow10(places - |p.frac|)
  {
    hide Val, Pow10;
    PaddedValue(p.whole, p.frac, places);
    assert Fitted(p.frac, |p.frac|) == p.frac;
    NegativeScales(Magnitude(p), Pow10(places - |p.frac|));
  }

  lemma NegativeScales(m: int, k: int)
    ensures (-m) * k == -(m * k)
  {
  }

  /** The same on texts. */
  lemma BpDiffTextIsBpText(value: Option<string>, base: Option<string>)
    requires SplitDecimal(value).Some? && SplitDecimal(base).Some?
    ensures var v, b := SplitDecimal(value).value, SplitDecimal(base).value;
      var places := Larger(|v.frac|, |b.frac|);
      var difference := JoinParts(FromFixedInt(ToFixed(v, places) - ToFixed(b, places), places), false, false);
      BpDiffText(value, base) == BpText(Some(difference), base)
  {
    hide SplitDecimal, BpDiffQuotient, BpQuotient, JoinParts, FromFixedInt, ToFixed;
    var v, b := SplitDecimal(value).value, SplitDecimal(base).value;
    var places := Larger(|v.frac|, |b.frac|);
    BpDiffIsBpOfDifference(v, b);
    SplitUndoesJoin(FromFixedInt(ToFixed(v, places) - ToFixed(b, places), places));
  }
}
