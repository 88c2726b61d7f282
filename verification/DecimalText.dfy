/**
 Exact arithmetic on decimal text (`format.ts`): parsing, rounding digit by digit,
 grouping, fixed-point integers and truncated division, with no floating point.
 */
module DecimalText {
  import opened Options
  import opened Digits

  /** The text shown for a missing value. */
  const EMPTY_TEXT := "\U{2014}"

  datatype Parts = Parts(negative: bool, whole: string, frac: string)

  /** Parts that write a number: digits only, and a non-empty integer part. */
  predicate Wellformed(p: Parts) {
    AllDigits(p.whole) && AllDigits(p.frac) && p.whole != ""
  }

  /** The number in units of its last place, without its sign. */
  function Magnitude(p: Parts): nat
    requires Wellformed(p)
  {
    assert AllDigits(p.whole + p.frac);
    Val(p.whole + p.frac)
  }

  // ----- Parsing

  predicate IsSpace(c: char) {
    c in {' ', '\t', '\n', '\r', '\U{000B}', '\U{000C}', '\U{00A0}', '\U{1680}', '\U{2028}', '\U{2029}', '\U{202F}',
          '\U{205F}', '\U{3000}', '\U{FEFF}'}
    || '\U{2000}' <= c <= '\U{200A}'
  }

  function TrimLeft(s: string): string {
    if s != "" && IsSpace(s[0]) then TrimLeft(s[1..]) else s
  }

  function TrimRight(s: string): string {
    if s != "" && IsSpace(s[|s| - 1]) then TrimRight(s[..|s| - 1]) else s
  }

  function Trim(s: string): string { TrimRight(TrimLeft(s)) }

  function LeadingDigits(s: string): (n: nat)
    ensures n <= |s| && AllDigits(s[..n]) && (n < |s| ==> !IsDigit(s[n]))
  {
    if s == "" || !IsDigit(s[0]) then 0 else
      var rest := LeadingDigits(s[1..]);
      assert s[..rest + 1] == [s[0]] + s[1..][..rest];
      rest + 1
  }

  /** An optional sign, digits, and optionally a point with digits; not both digit runs empty. */
  function SplitDecimal(value: Option<string>): (r: Option<Parts>)
    ensures r.Some? ==> Wellformed(r.value)
  {
    if value.None? then None
    else
      var t := Trim(value.value);
      var signed := t != "" && t[0] in {'+', '-'};
      var u := if signed then t[1..] else t;
      var n := LeadingDigits(u);
      var digits, rest := u[..n], u[n..];
      if rest != "" && (rest[0] != '.' || !AllDigits(rest[1..])) then None
      else
        var frac := if rest == "" then "" else rest[1..];
        if digits == "" && frac == "" then None
        else Some(Parts(signed && t[0] == '-', if digits == "" then "0" else digits, frac))
  }

  // ----- Printing

  function TrimZeros(s: string): (r: string)
    ensures |r| <= |s| && r == s[..|r|]
    ensures forall i :: |r| <= i < |s| ==> s[i] == '0'
  {
    if s != "" && s[|s| - 1] == '0' then TrimZeros(s[..|s| - 1]) else s
  }

  /** A comma before every third digit from the right. */
  function Grouped(s: string): string {
    if |s| <= 3 then s else Grouped(s[..|s| - 3]) + "," + s[|s| - 3..]
  }

  method GroupInt(whole: string) returns (out: string)
    ensures out == Grouped(whole)
  {
    out := "";
    var at := |whole|;
    assert whole[..at] == whole;
    while at > 3
      invariant 0 <= at <= |whole|
      invariant Grouped(whole[..at]) + out == Grouped(whole)
    {
      assert whole[..at][..at - 3] == whole[..at - 3] && whole[..at][at - 3..] == whole[at - 3..at];
      out := "," + whole[at - 3..at] + out;
      at := at - 3;
    }
    out := whole[..at] + out;
  }

  function JoinParts(p: Parts, trim: bool, group: bool): string {
    var frac := if trim then TrimZeros(p.frac) else p.frac;
    var whole := if group then Grouped(p.whole) else p.whole;
    (if p.negative then "-" else "") + if frac == "" then whole else whole + "." + frac
  }

  // ----- Rounding

  /** `frac` cut or padded to `places` digits. */
  function Fitted(frac: string, places: nat): (r: string)
    requires AllDigits(frac)
    ensures |r| == places && AllDigits(r)
  {
    if |frac| <= places then frac + Zeros(places - |frac|) else frac[..places]
  }

  function RoundTo(p: Parts, places: nat): (r: Parts)
    requires Wellformed(p)
    ensures Wellformed(r) && |r.frac| == places && r.negative == p.negative
  {
    if |p.frac| <= places || DigitOf(p.frac[places]) < 5 then p.(frac := Fitted(p.frac, places))
    else
      var digits := RoundUp(p.whole + p.frac[..places]);
      var cut := |digits| - places;
      Parts(p.negative, digits[..cut], digits[cut..])
  }

  lemma CarryStep(original: string, at: nat)
    requires AllDigits(original) && at < |original|
    ensures DigitOf(original[at]) + 1 < 10 ==>
      RoundUp(original[..at + 1]) == original[..at] + [DigitChar(DigitOf(original[at]) + 1)]
    ensures DigitOf(original[at]) + 1 >= 10 ==> RoundUp(original[..at + 1]) == RoundUp(original[..at]) + "0"
  {
    assert original[..at + 1][..at] == original[..at];
    assert DigitOf(original[at]) + 1 >= 10 <==> original[at] == '9';
  }

  lemma CarryStarts(original: string)
    requires AllDigits(original)
    ensures original[..|original|] + Zeros(0) == original
    ensures RoundUp(original[..|original|]) + Zeros(0) == RoundUp(original)
    ensures RoundUp(original[..0]) == "1"
  {
    assert original[..|original|] == original;
  }

  /** The carry loop over the digit array. */
  method Carry(original: string) returns (digits: string)
    requires AllDigits(original)
    ensures digits == RoundUp(original)
  {
    hide RoundUp;
    CarryStarts(original);
    digits := original;
    var at := |digits| - 1;
    while at >= 0
      invariant -1 <= at < |original| == |digits| && AllDigits(digits)
      invariant digits == original[..at + 1] + Zeros(|original| - at - 1)
      invariant RoundUp(original[..at + 1]) + Zeros(|original| - at - 1) == RoundUp(original)
      decreases at
    {
      CarryStep(original, at);
      var raised := DigitOf(digits[at]) + 1;
      if raised < 10 {
        digits := digits[at := DigitChar(raised)];
        return;
      }
      digits := digits[at := '0'];
      assert "0" + Zeros(|original| - at - 1) == Zeros(|original| - at);
      at := at - 1;
    }
    digits := "1" + digits;
  }

  method Round(p: Parts, places: nat) returns (r: Parts)
    requires Wellformed(p)
    ensures r == RoundTo(p, places)
  {
    if |p.frac| <= places {
      return p.(frac := p.frac + Zeros(places - |p.frac|));
    }
    var keep := p.frac[..places];
    if DigitOf(p.frac[places]) < 5 {
      return p.(frac := keep);
    }
    var digits := Carry(p.whole + keep);
    var cut := |digits| - places;
    return Parts(p.negative, digits[..cut], digits[cut..]);
  }

  // ----- Fixed-point integers

  function ToFixed(p: Parts, places: nat): int
    requires Wellformed(p)
  {
    var magnitude: int := Val(p.whole + Fitted(p.frac, places));
    if p.negative then -magnitude else magnitude
  }

  function ToFixedInt(value: Option<string>, places: nat): Option<int> {
    match SplitDecimal(value)
    case None => None
    case Some(p) => Some(ToFixed(p, places))
  }

  function PadStart(s: string, width: nat): (r: string)
    requires AllDigits(s)
    ensures AllDigits(r) && |r| >= width && |r| >= |s|
  {
    if |s| >= width then s else Zeros(width - |s|) + s
  }

  function Abs(v: int): nat { if v < 0 then -v else v }

  function FromFixedInt(v: int, places: nat): (r: Parts)
    ensures Wellformed(r) && |r.frac| == places
  {
    var digits := PadStart(NatText(Abs(v)), places + 1);
    var cut := |digits| - places;
    Parts(v < 0, digits[..cut], digits[cut..])
  }

  /** Integer division of the source: towards zero. */
  function TruncDiv(a: int, b: int): int
    requires b != 0
  {
    var q := Abs(a) / Abs(b);
    if (a < 0) != (b < 0) then -q else q
  }

  function TruncMod(a: int, b: int): int
    requires b != 0
  {
    a - TruncDiv(a, b) * b
  }

  /** Number of characters after the first point of the trimmed text. */
  function DecimalPlaces(text: string): nat {
    var t := Trim(text);
    |t| - FirstPoint(t) - if FirstPoint(t) < |t| then 1 else 0
  }

  function FirstPoint(s: string): (n: nat)
    ensures n <= |s|
  {
    if s == "" || s[0] == '.' then 0 else 1 + FirstPoint(s[1..])
  }

  // ----- The shown texts

  datatype Tier = Tier(mark: string, digits: nat)

  const MILLIONS := Tier("M", 6)
  const THOUSANDS := Tier("k", 3)
  const ABBREV_PLACES := 1

  function TrimLeadingZeros(s: string): (r: string)
    ensures |r| <= |s| && r == s[|s| - |r|..]
    ensures forall i :: 0 <= i < |s| - |r| ==> s[i] == '0'
  {
    if s != "" && s[0] == '0' then TrimLeadingZeros(s[1..]) else s
  }

  /** The point moved `tier.digits` places to the left. */
  function Shifted(p: Parts, plain: string, tier: Tier): Parts
    requires |plain| > tier.digits
  {
    var cut := |plain| - tier.digits;
    Parts(p.negative, plain[..cut], plain[cut..] + p.frac)
  }

  const ABBREV_TIERS := [MILLIONS, THOUSANDS]

  /** The first tier the integer part is long enough for. */
  function FirstTier(plain: string, tiers: seq<Tier>): (r: Option<Tier>)
    ensures r.Some? ==> r.value in tiers && |plain| > r.value.digits
  {
    if tiers == [] then None
    else if |plain| > tiers[0].digits then Some(tiers[0]) else FirstTier(plain, tiers[1..])
  }

  method TotalText(value: Option<string>, step: Option<string>, abbreviate: bool) returns (text: string)
    ensures text == TotalTextOf(value, step, abbreviate)
  {
    hide SplitDecimal, RoundTo, JoinParts, DecimalPlaces, TrimLeadingZeros;
    var parts := SplitDecimal(value);
    if parts.None? {
      return EMPTY_TEXT;
    }
    if abbreviate {
      var plain := TrimLeadingZeros(parts.value.whole);
      var tiers := ABBREV_TIERS;
      assert tiers[0..] == tiers;
      for k := 0 to |tiers|
        invariant FirstTier(plain, ABBREV_TIERS) == FirstTier(plain, tiers[k..])
      {
        if |plain| > tiers[k].digits {
          var head := Round(Shifted(parts.value, plain, tiers[k]), ABBREV_PLACES);
          return JoinParts(head, false, true) + tiers[k].mark;
        }
      }
    }
    var rounded := Round(parts.value, DecimalPlaces(step.GetOr("")));
    return JoinParts(rounded, true, true);
  }

  function TotalTextOf(value: Option<string>, step: Option<string>, abbreviate: bool): string {
    match SplitDecimal(value)
    case None => EMPTY_TEXT
    case Some(p) =>
      var plain := TrimLeadingZeros(p.whole);
      var tier := if abbreviate then FirstTier(plain, ABBREV_TIERS) else None;
      match tier
      case Some(t) => JoinParts(RoundTo(Shifted(p, plain, t), ABBREV_PLACES), false, true) + t.mark
      case None => JoinParts(RoundTo(p, DecimalPlaces(step.GetOr(""))), true, true)
  }

  const BP_SHIFT := 6
  const BP_PLACES := 2

  /** The quotient `bpText` prints, in hundredths of a basis point. */
  function BpQuotient(num: Parts, den: Parts): Option<int>
    requires Wellformed(num) && Wellformed(den)
  {
    var n, d := ToFixed(num, |num.frac|), ToFixed(den, |den.frac|);
    if d == 0 then None
    else
      var shift := |den.frac| + BP_SHIFT - |num.frac|;
      var scaledNum := if shift >= 0 then n * Pow10(shift) else n;
      var scaledDen := if shift >= 0 then d else d * Pow10(-shift);
      assert shift < 0 ==> Pow10(-shift) != 0 && scaledDen != 0;
      Some(TruncDiv(scaledNum, scaledDen))
  }

  function BpText(numerator: Option<string>, denominator: Option<string>): string {
    var num, den := SplitDecimal(numerator), SplitDecimal(denominator);
    if num.None? || den.None? then EMPTY_TEXT
    else
      match BpQuotient(num.value, den.value)
      case None => EMPTY_TEXT
      case Some(q) => JoinParts(FromFixedInt(q, BP_PLACES), false, false)
  }

  /** The quotient `bpDiffText` prints: the difference over the base, in hundredths of a basis point. */
  function BpDiffQuotient(value: Parts, base: Parts): Option<int>
    requires Wellformed(value) && Wellformed(base)
  {
    var places := Larger(|value.frac|, |base.frac|);
    var v, b := ToFixed(value, places), ToFixed(base, places);
    if b == 0 then None else Some(TruncDiv((v - b) * Pow10(BP_SHIFT), b))
  }

  function BpDiffText(value: Option<string>, base: Option<string>): string {
    var v, b := SplitDecimal(value), SplitDecimal(base);
    if v.None? || b.None? then EMPTY_TEXT
    else
      match BpDiffQuotient(v.value, b.value)
      case None => EMPTY_TEXT
      case Some(q) => JoinParts(FromFixedInt(q, BP_PLACES), false, false)
  }

  function Larger(a: nat, b: nat): nat { if a >= b then a else b }

  /** The aligned price in units of the finer of the two texts. */
  function PriceBin(price: Parts, bin: Parts): Option<int>
    requires Wellformed(price) && Wellformed(bin)
  {
    var places := Larger(|price.frac|, |bin.frac|);
    var p, b := ToFixed(price, places), ToFixed(bin, places);
    if b <= 0 then None else Some(TruncDiv(p, b) * b)
  }

  function PriceBinText(price: Option<string>, bin: Option<string>): Option<string> {
    var p, b := SplitDecimal(price), SplitDecimal(bin);
    if p.None? || b.None? then None
    else
      match PriceBin(p.value, b.value)
      case None => None
      case Some(aligned) =>
        Some(JoinParts(FromFixedInt(aligned, Larger(|p.value.frac|, |b.value.frac|)), true, false))
  }

  function UnitCountText(value: Option<string>, unit: Option<string>): string {
    var places := Larger(DecimalPlaces(value.GetOr("")), DecimalPlaces(unit.GetOr("")));
    var v, u := ToFixedInt(value, places), ToFixedInt(unit, places);
    if v.None? || u.None? || u.value <= 0 then EMPTY_TEXT
    else if TruncMod(v.value, u.value) != 0 then EMPTY_TEXT
    else JoinParts(FromFixedInt(TruncDiv(v.value, u.value), 0), false, false)
  }

  function SumFixed(values: seq<string>, places: nat): int {
    if values == [] then 0
    else SumFixed(values[..|values| - 1], places) + ToFixedInt(Some(values[|values| - 1]), places).GetOr(0)
  }

  method SumSizeTexts(values: seq<string>, sizeStep: Option<string>) returns (text: string)
    ensures var places := DecimalPlaces(sizeStep.GetOr(""));
      text == JoinParts(FromFixedInt(SumFixed(values, places), places), true, false)
  {
    var places := DecimalPlaces(sizeStep.GetOr(""));
    var total := 0;
    for k := 0 to |values|
      invariant total == SumFixed(values[..k], places)
    {
      assert values[..k + 1][..k] == values[..k];
      var fixed := ToFixedInt(Some(values[k]), places);
      if fixed.Some? {
        total := total + fixed.value;
      }
    }
    assert values[..|values|] == values;
    return JoinParts(FromFixedInt(total, places), true, false);
  }
}
