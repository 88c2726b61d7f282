/**
 The exact form of every shown text: which characters it consists of, not only what it reads back as.
 For each number, place count and style there is one text, and the program shows that one.
 */
module DecimalForm {
  import opened Options
  import opened Digits
  import opened DecimalText
  import opened DecimalTheory
  import opened DecimalShown

  // ----- Parts written out

  /** `f` is `frac` without its trailing zeros. */
  ghost predicate Stripped(f: string, frac: string) {
    && |f| <= |frac| && f == frac[..|f|] && (f == "" || f[|f| - 1] != '0')
    && forall i :: |f| <= i < |frac| ==> frac[i] == '0'
  }

  /** A sign for a negative number, the digits, and a point with the fraction if any of it is shown. */
  ghost predicate FormOf(
    text: string, negative: bool, whole: string, frac: string, trim: bool, group: bool, w: string, f: string)
  {
    && text == (if negative then "-" else "") + (if f == "" then w else w + "." + f)
    && (if group then SetOff(w) && RemoveCommas(w) == whole else w == whole)
    && (if trim then Stripped(f, frac) else f == frac)
  }

  ghost predicate Form(text: string, p: Parts, trim: bool, group: bool) {
    exists w: string, f: string :: FormOf(text, p.negative, p.whole, p.frac, trim, group, w, f)
  }

  lemma {:induction false} TrimZerosStrips(frac: string)
    ensures Stripped(TrimZeros(frac), frac)
  {
    if frac != "" && frac[|frac| - 1] == '0' {
      TrimZerosStrips(frac[..|frac| - 1]);
    }
  }

  lemma DigitsHaveNoComma(s: string)
    requires AllDigits(s)
    ensures NoComma(s)
  {
  }

  lemma JoinedForm(p: Parts, trim: bool, group: bool)
    requires Wellformed(p)
    ensures Form(JoinParts(p, trim, group), p, trim, group)
  {
    hide TrimZeros, Grouped, SetOff, RemoveCommas;
    var f := if trim then TrimZeros(p.frac) else p.frac;
    var w := if group then Grouped(p.whole) else p.whole;
    TrimZerosStrips(p.frac);
    DigitsHaveNoComma(p.whole);
    GroupingIsInvertible(p.whole);
    assert FormOf(JoinParts(p, trim, group), p.negative, p.whole, p.frac, trim, group, w, f);
  }

  lemma OneStripped(f: string, g: string, frac: string)
    requires Stripped(f, frac) && Stripped(g, frac)
    ensures f == g
  {
    assert |f| == |g|;
  }

  /** Parts are written in one way only. */
  lemma OneForm(a: string, b: string, p: Parts, trim: bool, group: bool)
    requires Form(a, p, trim, group) && Form(b, p, trim, group)
    ensures a == b
  {
    hide SetOff, RemoveCommas, Stripped;
    var w, f :| FormOf(a, p.negative, p.whole, p.frac, trim, group, w, f);
    var v, g :| FormOf(b, p.negative, p.whole, p.frac, trim, group, v, g);
    if group {
      GroupedIsOnly(w);
      GroupedIsOnly(v);
    }
    if trim {
      OneStripped(f, g, p.frac);
    }
  }

  // ----- Fixed-point integers written out

  /** The parts of `v` units of the last of `places` decimals: no zero in front but a single one before the point. */
  ghost predicate PartsOf(p: Parts, v: int, places: nat) {
    && Wellformed(p) && |p.frac| == places && p.negative == (v < 0)
    && Magnitude(p) == (if v < 0 then -v else v) && (|p.whole| == 1 || p.whole[0] != '0')
  }

  /** `text` writes the integer `v` as a decimal of `places` places. */
  ghost predicate Writes(text: string, v: int, places: nat, trim: bool, group: bool) {
    exists p: Parts :: PartsOf(p, v, places) && Form(text, p, trim, group)
  }

  lemma FixedParts(v: int, places: nat)
    ensures PartsOf(FromFixedInt(v, places), v, places)
  {
    hide Val, NatText;
    FromFixedWrites(v, places);
    NatTextWrites(Abs(v));
    var s := NatText(Abs(v));
    var p := FromFixedInt(v, places);
    if |s| > places + 1 {
      assert PadStart(s, places + 1) == s && p.whole[0] == s[0];
      if v == 0 {
        ZeroText();
      }
    }
  }

  lemma ZeroText()
    ensures |NatText(0)| == 1
  {
  }

  lemma {:induction false} SameValue(a: string, b: string)
    requires AllDigits(a) && AllDigits(b) && |a| == |b| && Val(a) == Val(b)
    ensures a == b
  {
    if a != "" {
      var n := |a| - 1;
      assert Val(a) == Val(a[..n]) * 10 + DigitOf(a[n]) && Val(b) == Val(b[..n]) * 10 + DigitOf(b[n]);
      SameValue(a[..n], b[..n]);
      assert a == a[..n] + [a[n]] && b == b[..n] + [b[n]];
    }
  }

  lemma NotShorter(p: Parts, q: Parts)
    requires Wellformed(p) && Wellformed(q) && |p.frac| == |q.frac| && Magnitude(p) == Magnitude(q)
    requires |p.whole| == 1 || p.whole[0] != '0'
    ensures |p.whole| <= |q.whole|
  {
    hide Val, Pow10;
    if |p.whole| > |q.whole| {
      AtLeastPow(p.whole + p.frac);
      ValBelowPow(q.whole + q.frac);
      PowRises(|q.whole + q.frac|, |p.whole + p.frac| - 1);
    }
  }

  lemma OnePartsOf(p: Parts, q: Parts, v: int, places: nat)
    requires PartsOf(p, v, places) && PartsOf(q, v, places)
    ensures p == q
  {
    NotShorter(p, q);
    NotShorter(q, p);
    SameValue(p.whole + p.frac, q.whole + q.frac);
    assert p.whole == (p.whole + p.frac)[..|p.whole|] && q.whole == (q.whole + q.frac)[..|p.whole|];
    assert p.frac == (p.whole + p.frac)[|p.whole|..] && q.frac == (q.whole + q.frac)[|p.whole|..];
  }

  /** For every integer, place count and style there is exactly one text, and it is the printed one. */
  lemma PrintedIsTheOnlyText(v: int, places: nat, trim: bool, group: bool, text: string)
    ensures Writes(text, v, places, trim, group) <==> text == JoinParts(FromFixedInt(v, places), trim, group)
  {
    hide JoinParts, FromFixedInt, Form, PartsOf;
    var q := FromFixedInt(v, places);
    FixedParts(v, places);
    JoinedForm(q, trim, group);
    if Writes(text, v, places, trim, group) {
      var p :| PartsOf(p, v, places) && Form(text, p, trim, group);
      OnePartsOf(p, q, v, places);
      OneForm(text, JoinParts(q, trim, group), q, trim, group);
    }
  }

  // ----- The texts

  /**
   `bpText` shows a dash when an operand cannot be read or the divisor is zero; otherwise exactly two decimals,
   ungrouped, of the ratio in basis points cut towards zero.
   */
  lemma BpTextShows(numerator: Option<string>, denominator: Option<string>)
    ensures var num, den, text := SplitDecimal(numerator), SplitDecimal(denominator), BpText(numerator, denominator);
      if num.None? || den.None? || Magnitude(den.value) == 0 then text == "\U{2014}"
      else
        var x, y := ToFixed(num.value, |num.value.frac|) * Pow10(|den.value.frac| + 6),
                    ToFixed(den.value, |den.value.frac|) * Pow10(|num.value.frac|);
        y != 0 && exists q: int :: IsTruncated(q, x, y) && Writes(text, q, 2, false, false)
  {
    hide SplitDecimal, BpQuotient, JoinParts, FromFixedInt, IsTruncated, Magnitude, ToFixed, Writes, Pow10;
    var num, den := SplitDecimal(numerator), SplitDecimal(denominator);
    if num.Some? && den.Some? {
      BpIsTruncatedRatio(num.value, den.value);
      if q :| BpQuotient(num.value, den.value) == Some(q) {
        PrintedIsTheOnlyText(q, 2, false, false, BpText(numerator, denominator));
      }
    }
  }

  /**
   `bpDiffText` likewise shows the difference over the base, and a dash when an operand cannot be read or the base
   is zero.
   */
  lemma BpDiffTextShows(value: Option<string>, base: Option<string>)
    ensures var v, b, text := SplitDecimal(value), SplitDecimal(base), BpDiffText(value, base);
      if v.None? || b.None? || Magnitude(b.value) == 0 then text == "\U{2014}"
      else
        var places := Larger(|v.value.frac|, |b.value.frac|);
        var x, y := (ToFixed(v.value, places) - ToFixed(b.value, places)) * 1000000, ToFixed(b.value, places);
        y != 0 && exists q: int :: IsTruncated(q, x, y) && Writes(text, q, 2, false, false)
  {
    hide SplitDecimal, JoinParts, FromFixedInt, IsTruncated, Magnitude, ToFixed, Writes, TruncDiv;
    var v, b := SplitDecimal(value), SplitDecimal(base);
    if v.Some? && b.Some? {
      var places := Larger(|v.value.frac|, |b.value.frac|);
      BaseIsZero(b.value, places);
      MillionIsPow();
      var x, y := (ToFixed(v.value, places) - ToFixed(b.value, places)) * 1000000, ToFixed(b.value, places);
      if y != 0 {
        TruncDivTruncates(x, y);
        PrintedIsTheOnlyText(TruncDiv(x, y), 2, false, false, BpDiffText(value, base));
      }
    }
  }

  lemma BaseIsZero(p: Parts, places: nat)
    requires Wellformed(p) && |p.frac| <= places
    ensures ToFixed(p, places) == 0 <==> Magnitude(p) == 0
  {
    hide Val, Pow10;
    ExactAtMorePlaces(p, places);
    AbsScales(Magnitude(p), Pow10(places - |p.frac|));
  }

  lemma MillionIsPow()
    ensures Pow10(6) == 1000000
  {
    assert Pow10(2) == 10 * Pow10(1) == 100 * Pow10(0);
    assert Pow10(3) == 10 * Pow10(2);
    PowAdds(3, 3);
  }

  /**
   `priceBinText` shows nothing when an operand cannot be read or the width is not positive; otherwise the multiple
   of the width next to the price towards zero, ungrouped and without trailing zeros.
   */
  lemma PriceBinTextShows(price: Option<string>, bin: Option<string>)
    ensures var p, b, text := SplitDecimal(price), SplitDecimal(bin), PriceBinText(price, bin);
      if p.None? || b.None? || b.value.negative || Magnitude(b.value) == 0 then text == None
      else
        var places := Larger(|p.value.frac|, |b.value.frac|);
        var x, y := ToFixed(p.value, places), ToFixed(b.value, places);
        && y > 0 && text.Some?
        && exists k: int :: IsTruncated(k, x, y) && Writes(text.value, k * y, places, true, false)
  {
    hide SplitDecimal, JoinParts, FromFixedInt, IsTruncated, Magnitude, ToFixed, Writes, TruncDiv;
    var p, b := SplitDecimal(price), SplitDecimal(bin);
    if p.Some? && b.Some? {
      var places := Larger(|p.value.frac|, |b.value.frac|);
      var x, y := ToFixed(p.value, places), ToFixed(b.value, places);
      BaseIsZero(b.value, places);
      ExactAtMorePlaces(b.value, places);
      if y > 0 {
        TruncDivTruncates(x, y);
        PrintedIsTheOnlyText(TruncDiv(x, y) * y, places, true, false, PriceBinText(price, bin).value);
      }
    }
  }

  /** `unitCountText` shows the count as a plain integer, and a dash when there is none to show. */
  lemma UnitCountTextShows(value: Option<string>, unit: Option<string>)
    ensures if CountsUnits(value, unit) then exists k: int :: Writes(UnitCountText(value, unit), k, 0, false, false)
            else UnitCountText(value, unit) == "\U{2014}"
  {
    hide SplitDecimal, JoinParts, FromFixedInt, ToFixed, Writes, TruncDiv, TruncMod, CountsUnits, DecimalPlaces;
    UnitCountCounts(value, unit);
    if CountsUnits(value, unit) {
      var places := Larger(DecimalPlaces(value.GetOr("")), DecimalPlaces(unit.GetOr("")));
      var v, u := ToFixedInt(value, places), ToFixedInt(unit, places);
      PrintedIsTheOnlyText(TruncDiv(v.value, u.value), 0, false, false, UnitCountText(value, unit));
    }
  }

  /** The sum of sizes is shown ungrouped and without trailing zeros. */
  lemma SumTextShows(values: seq<string>, places: nat)
    ensures Writes(JoinParts(FromFixedInt(SumFixed(values, places), places), true, false),
                   SumFixed(values, places), places, true, false)
  {
    PrintedIsTheOnlyText(SumFixed(values, places), places, true, false,
                         JoinParts(FromFixedInt(SumFixed(values, places), places), true, false));
  }

  /** The sum adds over the texts. */
  lemma {:induction false} SumOfBoth(a: seq<string>, b: seq<string>, places: nat)
    ensures SumFixed(a + b, places) == SumFixed(a, places) + SumFixed(b, places)
  {
    hide ToFixedInt;
    if b == [] {
      assert a + b == a;
    } else {
      var n := |b| - 1;
      assert (a + b)[..|a| + n] == a + b[..n];
      SumOfBoth(a, b[..n], places);
    }
  }

  /** A text that cannot be read adds nothing; any other its value cut to the places. */
  lemma OneSize(text: string, places: nat)
    ensures SumFixed([text], places)
      == match SplitDecimal(Some(text)) case None => 0 case Some(p) => ToFixed(p, places)
  {
    assert [text][..0] == [];
  }

  /** The tier's mark behind exactly one decimal, grouped, of the value with its point moved. */
  ghost predicate IsAbbreviation(text: string, p: Parts, tier: Tier) {
    && Wellformed(p) && |TrimLeadingZeros(p.whole)| > tier.digits
    && var shifted := Shifted(p, TrimLeadingZeros(p.whole), tier);
       && Wellformed(shifted)
       && exists body: string :: text == body + tier.mark && Form(body, RoundTo(shifted, 1), false, true)
  }

  lemma AbbreviationShows(p: Parts, tier: Tier)
    requires Wellformed(p) && |TrimLeadingZeros(p.whole)| > tier.digits
    ensures Wellformed(Shifted(p, TrimLeadingZeros(p.whole), tier))
    ensures var shifted := Shifted(p, TrimLeadingZeros(p.whole), tier);
      IsAbbreviation(JoinParts(RoundTo(shifted, 1), false, true) + tier.mark, p, tier)
  {
    hide RoundTo, JoinParts, TrimLeadingZeros, Form, Shifted;
    ShiftedReads(p, tier);
    var shifted := Shifted(p, TrimLeadingZeros(p.whole), tier);
    JoinedForm(RoundTo(shifted, 1), false, true);
  }

  /**
   `totalText` shows a dash for a text that cannot be read; in full, the value rounded to the step's places, grouped
   and without trailing zeros; abbreviated, exactly one decimal, grouped, and the mark.
   */
  lemma TotalTextShows(value: Option<string>, step: Option<string>, abbreviate: bool)
    ensures var v, text := SplitDecimal(value), TotalTextOf(value, step, abbreviate);
      match v
      case None => text == "\U{2014}"
      case Some(p) =>
        (match TierOf(p, abbreviate)
         case None => Form(text, RoundTo(p, DecimalPlaces(step.GetOr(""))), true, true)
         case Some(tier) => IsAbbreviation(text, p, tier))
  {
    hide SplitDecimal, RoundTo, JoinParts, DecimalPlaces, TrimLeadingZeros, Form, Shifted, FirstTier, IsAbbreviation;
    var v := SplitDecimal(value);
    if v.Some? {
      match TierOf(v.value, abbreviate)
      case None => JoinedForm(RoundTo(v.value, DecimalPlaces(step.GetOr(""))), true, true);
      case Some(tier) => AbbreviationShows(v.value, tier);
    }
  }

  lemma ShiftedReads(p: Parts, tier: Tier)
    requires Wellformed(p) && |TrimLeadingZeros(p.whole)| > tier.digits
    ensures Wellformed(Shifted(p, TrimLeadingZeros(p.whole), tier))
  {
    var plain := TrimLeadingZeros(p.whole);
    assert AllDigits(plain);
    hide TrimLeadingZeros;
    var cut := |plain| - tier.digits;
    DigitsJoin(plain[cut..], p.frac);
  }

  lemma DigitsJoin(a: string, b: string)
    requires AllDigits(a) && AllDigits(b)
    ensures AllDigits(a + b)
  {
  }

  /** A step's places are the characters after its first point, none without a point. */
  lemma PlacesMean(text: string, i: nat)
    requires i <= |Trim(text)| && forall j :: 0 <= j < i ==> Trim(text)[j] != '.'
    ensures i == |Trim(text)| ==> DecimalPlaces(text) == 0
    ensures i < |Trim(text)| && Trim(text)[i] == '.' ==> DecimalPlaces(text) == |Trim(text)| - i - 1
  {
    hide Trim;
    var t := Trim(text);
    if i == |t| || t[i] == '.' {
      PointAfter(t[..i], t[i..]);
      assert t == t[..i] + t[i..];
    }
  }
}
