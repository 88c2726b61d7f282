/**
 Rule strength: how far an observation is past its threshold, quantised to two
 places, and the verdict drawn from a list of criteria. Decimals are exact reals.
 */
module Strength {
  import opened Numbers

  // ----- Two-place quantisation, ties to even

  /** The value in hundredths after `quantize(Decimal("0.01"))`. */
  function Quantize(x: real): int {
    var low := (x * 100.0).Floor;
    var rest := x * 100.0 - low as real;
    if rest < 0.5 || (rest == 0.5 && low % 2 == 0) then low else low + 1
  }

  /**
   The quantised value reaches a number of hundredths from half a hundredth below it on: at exactly
   half, only an even number is reached, an odd one is not.
   */
  lemma QuantizeReaches(x: real, h: int)
    ensures Quantize(x) >= h <==> if h % 2 == 0 then x * 100.0 >= h as real - 0.5 else x * 100.0 > h as real - 0.5
  {
    var y := x * 100.0;
    var low := y.Floor;
    assert low as real <= y < low as real + 1.0;
    if low >= h {
      assert low as real >= h as real;
    } else if low == h - 1 {
      assert low as real == h as real - 1.0;
    } else {
      assert low <= h - 2;
      assert low as real <= h as real - 2.0;
    }
  }

  function Hundredths(h: int): real { h as real / 100.0 }

  lemma QuantizeIsMonotone(x: real, y: real)
    requires x <= y
    ensures Quantize(x) <= Quantize(y)
  {
    var a, b := x * 100.0, y * 100.0;
    assert a <= b;
    assert a.Floor <= b.Floor;
    if a.Floor == b.Floor {
      assert a - a.Floor as real <= b - b.Floor as real;
    }
  }

  /** The quantised value is within half a hundredth, and two-place values stay as they are. */
  lemma QuantizeIsNear(x: real)
    ensures -0.5 <= x * 100.0 - Quantize(x) as real <= 0.5
  {
  }

  lemma QuantizeIsStable(h: int)
    ensures Quantize(Hundredths(h)) == h
  {
    assert Hundredths(h) * 100.0 == h as real;
  }

  // ----- Scores

  function ScoreAtLeast(value: real, threshold: real): real {
    if value < threshold then
      if threshold <= 0.0 then 0.0 else Max(0.0, 0.5 * value / threshold)
    else
      var span := if threshold >= 0.0 && value <= 1.0 && threshold < 1.0
                  then 1.0 - threshold else Max(Abs(threshold), 1.0);
      Min(1.0, 0.5 + 0.5 * (value - threshold) / span)
  }

  function ScoreAtMost(value: real, threshold: real): real {
    if value <= threshold then
      if threshold <= 0.0 then 0.5 else Min(1.0, 0.5 + 0.5 * (threshold - value) / threshold)
    else if threshold <= 0.0 || value <= 0.0 then 0.0
    else Min(0.5, 0.5 * threshold / value)
  }

  datatype Criterion =
    | AtLeast(observed: real, threshold: real)
    | AtMost(observed: real, threshold: real)
    | Is(flag: bool, expected: bool)

  predicate Met(c: Criterion) {
    match c
    case AtLeast(v, t) => v >= t
    case AtMost(v, t) => v <= t
    case Is(f, e) => f == e
  }

  function Score(c: Criterion): real {
    match c
    case AtLeast(v, t) => ScoreAtLeast(v, t)
    case AtMost(v, t) => ScoreAtMost(v, t)
    case Is(f, e) => if f == e then 1.0 else 0.0
  }

  lemma SignOfProduct(x: real, b: real)
    requires b > 0.0
    ensures x > 0.0 <==> x * b > 0.0
    ensures x < 0.0 <==> x * b < 0.0
  {
  }

  lemma Ratio(a: real, b: real)
    requires b > 0.0
    ensures 0.0 <= a <==> 0.0 <= a / b
    ensures a < b <==> a / b < 1.0
    ensures 0.5 * a / b == 0.5 * (a / b)
  {
    var r := a / b;
    assert r * b == a;
    SignOfProduct(r, b);
    SignOfProduct(1.0 - r, b);
    assert (1.0 - r) * b == b - a;
    HalfRatio(a, b, r);
  }

  lemma HalfRatio(a: real, b: real, r: real)
    requires b > 0.0 && r * b == a
    ensures 0.5 * a / b == 0.5 * r
  {
    var h := 0.5 * a / b;
    assert h * b == 0.5 * a;
    SignOfProduct(h - 0.5 * r, b);
    assert (h - 0.5 * r) * b == h * b - 0.5 * (r * b);
  }

  /** Every score lies in [0, 1] and reaches one half exactly when the criterion is met. */
  lemma HalfMarksTheThreshold(c: Criterion)
    ensures 0.0 <= Score(c) <= 1.0
    ensures Met(c) <==> Score(c) >= 0.5
  {
    match c
    case AtLeast(v, t) =>
      if v < t {
        if t > 0.0 { Ratio(v, t); }
      } else {
        Ratio(v - t, if t >= 0.0 && v <= 1.0 && t < 1.0 then 1.0 - t else Max(Abs(t), 1.0));
      }
    case AtMost(v, t) =>
      if v <= t {
        if t > 0.0 { Ratio(t - v, t); }
      } else if t > 0.0 {
        Ratio(t, v);
      }
    case Is(_, _) =>
  }

  // ----- Verdicts

  /** `Flat` is the text `0` of an inactive rule, `Graded` a two-place text. */
  datatype Confidence = Flat | Graded(hundredths: int)

  datatype Verdict = Verdict(met: bool, confidence: Confidence)

  function MinOf(scores: seq<real>): (r: real)
    requires scores != []
    ensures r in scores
    ensures forall i :: 0 <= i < |scores| ==> r <= scores[i]
  {
    if |scores| == 1 then scores[0] else Min(scores[0], MinOf(scores[1..]))
  }

  function Scores(criteria: seq<Criterion>): seq<real> {
    seq(|criteria|, i requires 0 <= i < |criteria| => Score(criteria[i]))
  }

  /** The scores as the criterion rows carry them: already at two places. */
  function RowScores(criteria: seq<Criterion>): seq<real> {
    seq(|criteria|, i requires 0 <= i < |criteria| => Hundredths(Quantize(Score(criteria[i]))))
  }

  function Confident(scores: seq<real>): Confidence {
    if scores == [] then Flat else Graded(Quantize(MinOf(scores)))
  }

  predicate AllMet(criteria: seq<Criterion>) {
    forall i :: 0 <= i < |criteria| ==> Met(criteria[i])
  }

  /** The library's verdict: strength is the weakest of the already quantised row scores. */
  function CriteriaResult(criteria: seq<Criterion>, active: bool): Verdict {
    if active then Verdict(AllMet(criteria), Confident(RowScores(criteria))) else Verdict(false, Flat)
  }

  function Weakest(criteria: seq<Criterion>): real
    requires criteria != []
  {
    MinOf(Scores(criteria))
  }

  /** Quantising each score and taking the weakest is taking the weakest and quantising it. */
  lemma QuantizingCommutesWithWeakest(criteria: seq<Criterion>)
    requires criteria != []
    ensures Confident(RowScores(criteria)) == Confident(Scores(criteria))
  {
    hide Quantize, Score, MinOf;
    var rows, scores := RowScores(criteria), Scores(criteria);
    var i :| 0 <= i < |scores| && scores[i] == MinOf(scores);
    var j :| 0 <= j < |rows| && rows[j] == MinOf(rows);
    assert MinOf(rows) <= rows[i] && MinOf(scores) <= scores[j];
    QuantizeIsMonotone(scores[i], scores[j]);
    QuantizeIsStable(Quantize(scores[j]));
    assert rows[i] == Hundredths(Quantize(scores[i])) && rows[j] == Hundredths(Quantize(scores[j]));
  }

  lemma AllMetByWeakest(criteria: seq<Criterion>)
    requires criteria != []
    ensures AllMet(criteria) <==> Weakest(criteria) >= 0.5
    ensures 0.0 <= Weakest(criteria) <= 1.0
  {
    var scores := Scores(criteria);
    forall i | 0 <= i < |criteria| ensures 0.0 <= scores[i] <= 1.0 && (Met(criteria[i]) <==> scores[i] >= 0.5) {
      HalfMarksTheThreshold(criteria[i]);
    }
    var i :| 0 <= i < |scores| && scores[i] == MinOf(scores);
  }

  /**
   Verdict and strength agree. For every active non-empty list the rule is met exactly when
   the unrounded weakest score is at least one half, the shown strength is between 0.00 and
   1.00, and it is at least 0.50 whenever the rule is met.
   */
  lemma VerdictFollowsWeakest(criteria: seq<Criterion>)
    requires criteria != []
    ensures var v := CriteriaResult(criteria, true);
      && (v.met <==> Weakest(criteria) >= 0.5)
      && v.confidence.Graded? && 0 <= v.confidence.hundredths <= 100
      && (v.met ==> v.confidence.hundredths >= 50)
  {
    AllMetByWeakest(criteria);
    QuantizingCommutesWithWeakest(criteria);
    var w := Weakest(criteria);
    QuantizeIsStable(0);
    QuantizeIsStable(50);
    QuantizeIsStable(100);
    QuantizeIsMonotone(0.0, w);
    QuantizeIsMonotone(w, 1.0);
    if w >= 0.5 {
      QuantizeIsMonotone(0.5, w);
    }
  }

  /** The observation meets its bound or misses it by at most one per cent; a flag must be as expected. */
  predicate NearlyMet(c: Criterion) {
    match c
    case AtLeast(v, t) => v >= t || (t > 0.0 && v >= 0.99 * t)
    case AtMost(v, t) => v <= t || (t > 0.0 && 0.99 * v <= t)
    case Is(f, e) => f == e
  }

  predicate AllNearlyMet(criteria: seq<Criterion>) {
    forall i :: 0 <= i < |criteria| ==> NearlyMet(criteria[i])
  }

  lemma RatioAtLeast(a: real, b: real, share: real)
    requires b > 0.0
    ensures a / b >= share <==> a >= share * b
  {
    var r := a / b;
    assert r * b == a;
    SignOfProduct(r - share, b);
    assert (r - share) * b == a - share * b;
  }

  /** A score rounds up to one half exactly when its criterion is met or nearly so. */
  lemma NearlyHalfMeansNearlyMet(c: Criterion)
    ensures Score(c) >= 0.495 <==> NearlyMet(c)
  {
    HalfMarksTheThreshold(c);
    match c
    case AtLeast(v, t) =>
      if v < t && t > 0.0 {
        Ratio(v, t);
        RatioAtLeast(v, t, 0.99);
      }
    case AtMost(v, t) =>
      if v > t && t > 0.0 {
        Ratio(t, v);
        RatioAtLeast(t, v, 0.99);
      }
    case Is(_, _) =>
  }

  lemma AllNearlyMetByWeakest(criteria: seq<Criterion>)
    requires criteria != []
    ensures AllNearlyMet(criteria) <==> Weakest(criteria) >= 0.495
  {
    hide Score, NearlyMet, MinOf;
    var scores := Scores(criteria);
    forall i | 0 <= i < |criteria| ensures NearlyMet(criteria[i]) <==> scores[i] >= 0.495 {
      NearlyHalfMeansNearlyMet(criteria[i]);
    }
    var i :| 0 <= i < |scores| && scores[i] == MinOf(scores);
  }

  /** The score rounds to `h` hundredths or more: from half a hundredth below on, which is enough only for an even `h`. */
  predicate Reaches(score: real, h: int) {
    if h % 2 == 0 then score * 100.0 >= h as real - 0.5 else score * 100.0 > h as real - 0.5
  }

  /** The shown strength reaches `h` hundredths exactly when every score does; an inactive rule shows `0`, not met. */
  lemma StrengthReaches(criteria: seq<Criterion>, h: int)
    requires criteria != []
    ensures CriteriaResult(criteria, true).confidence.Graded?
    ensures CriteriaResult(criteria, true).confidence.hundredths >= h
      <==> forall i :: 0 <= i < |criteria| ==> Reaches(Score(criteria[i]), h)
    ensures CriteriaResult(criteria, false) == Verdict(false, Flat)
  {
    hide Quantize, Score, MinOf;
    QuantizingCommutesWithWeakest(criteria);
    var scores := Scores(criteria);
    var w := MinOf(scores);
    QuantizeReaches(w, h);
    var k :| 0 <= k < |scores| && scores[k] == w;
    assert scores[k] == Score(criteria[k]);
    assert forall i :: 0 <= i < |criteria| ==> scores[i] == Score(criteria[i]) && w <= scores[i];
  }

  /** The value at which a lower bound is fully met: 1 for a share, else a bound's length (at least 1) above it. */
  function FullMark(v: real, t: real): real {
    if 0.0 <= t < 1.0 && v <= 1.0 then 1.0 else t + Max(Abs(t), 1.0)
  }

  /**
   Below its bound a lower-bound score is half the ratio to it, and 0 without a positive bound or value;
   from the bound on it rises in a straight line from 1/2 to 1 at the full mark and stays there.
   */
  lemma LowerScoreLaw(v: real, t: real)
    ensures var score, full := Score(AtLeast(v, t)), FullMark(v, t);
      && (v < t && (t <= 0.0 || v <= 0.0) ==> score == 0.0)
      && (0.0 < v < t ==> score * (2.0 * t) == v)
      && (t <= v <= full ==> (2.0 * score - 1.0) * (full - t) == v - t)
      && (v >= t && v >= full ==> score == 1.0)
  {
    if v < t {
      hide FullMark;
      BelowBound(v, t);
    } else {
      hide ScoreAtLeast, FullMark;
      FromBoundOn(v, t);
    }
  }

  lemma BelowBound(v: real, t: real)
    requires v < t
    ensures var score := ScoreAtLeast(v, t);
      && (t <= 0.0 || v <= 0.0 ==> score == 0.0) && (v > 0.0 ==> score * (2.0 * t) == v)
  {
    if t > 0.0 {
      Ratio(v, t);
      HalfTimes(v, t);
    }
  }

  lemma FromBoundOn(v: real, t: real)
    requires v >= t
    ensures var score, full := ScoreAtLeast(v, t), FullMark(v, t);
      && (v <= full ==> (2.0 * score - 1.0) * (full - t) == v - t) && (v >= full ==> score == 1.0)
  {
    var span := if t >= 0.0 && v <= 1.0 && t < 1.0 then 1.0 - t else Max(Abs(t), 1.0);
    assert FullMark(v, t) - t == span > 0.0;
    Ratio(v - t, span);
    assert ScoreAtLeast(v, t) == Min(1.0, 0.5 + 0.5 * ((v - t) / span));
    hide ScoreAtLeast, FullMark, Max, Abs;
    HalfTimes(v - t, span);
  }

  lemma HalfTimes(a: real, b: real)
    requires b > 0.0
    ensures (0.5 * (a / b)) * (2.0 * b) == a
    ensures (2.0 * (0.5 + 0.5 * (a / b)) - 1.0) * b == a
    ensures a >= b <==> a / b >= 1.0
  {
    var r := a / b;
    assert r * b == a;
    Ratio(a, b);
    DoubleHalf(r, b);
  }

  lemma DoubleHalf(r: real, b: real)
    ensures (0.5 * r) * (2.0 * b) == r * b
  {
  }

  /**
   Up to its bound an upper-bound score rises in a straight line from 1/2 at the bound to 1 at zero; past
   it it is half the ratio of bound to value; without a positive bound it is 1/2 or 0.
   */
  lemma UpperScoreLaw(v: real, t: real)
    ensures var score := Score(AtMost(v, t));
      && (v <= t && t <= 0.0 ==> score == 0.5) && (v > t && t <= 0.0 ==> score == 0.0)
      && (0.0 <= v <= t && t > 0.0 ==> (2.0 * score - 1.0) * t == t - v)
      && (v < 0.0 < t ==> score == 1.0)
      && (v > t > 0.0 ==> score * (2.0 * v) == t)
  {
    if v <= t {
      if t > 0.0 {
        Ratio(t - v, t);
        HalfTimes(t - v, t);
      }
    } else if t > 0.0 {
      Ratio(t, v);
      HalfTimes(t, v);
    }
  }

  /**
   The converse fails, and exactly here: a shown strength of at least 0.50 means every criterion is
   met or missed by at most one per cent. So 0.50 is shown unmet exactly when all are that close and
   not all are met, and nothing higher ever is.
   */
  lemma ShownHalfMeansNearlyMet(criteria: seq<Criterion>)
    requires criteria != []
    ensures var v := CriteriaResult(criteria, true);
      && (v.confidence.hundredths >= 50 <==> AllNearlyMet(criteria))
      && (!v.met && v.confidence.hundredths >= 50 <==> AllNearlyMet(criteria) && !AllMet(criteria))
      && (!v.met ==> v.confidence.hundredths <= 50)
  {
    AllMetByWeakest(criteria);
    AllNearlyMetByWeakest(criteria);
    QuantizingCommutesWithWeakest(criteria);
    var w := Weakest(criteria);
    HalfFromBelow(w);
    QuantizeIsStable(50);
    if w < 0.5 {
      QuantizeIsMonotone(w, 0.5);
    }
  }

  lemma HalfFromBelow(w: real)
    ensures Quantize(w) >= 50 <==> w >= 0.495
  {
    if w >= 0.495 {
      QuantizeIsMonotone(0.495, w);
      assert 0.495 * 100.0 == 49.5 && (0.495 * 100.0).Floor == 49;
      assert Quantize(0.495) == 50;
    } else {
      assert w * 100.0 < 49.5;
      assert (w * 100.0).Floor <= 49;
    }
  }

  ghost predicate ScoreRises(threshold: real) {
    forall v: real, w: real :: v <= w ==> ScoreAtLeast(v, threshold) <= ScoreAtLeast(w, threshold)
  }

  /**
   A larger observation never scores lower against a lower bound, except when the bound lies
   strictly between 0 and 1: there the value 1 already scores 1, and a value just above it is
   measured against a wider span and scores less.
   */
  lemma ScoreRisesUnlessThresholdIsAShare(threshold: real)
    ensures ScoreRises(threshold) <==> !(0.0 < threshold < 1.0)
  {
    if 0.0 < threshold < 1.0 {
      var w := 1.0 + threshold / 2.0;
      Ratio(1.0 - threshold, 1.0 - threshold);
      assert ScoreAtLeast(w, threshold) == 1.0 - threshold / 4.0;
      assert ScoreAtLeast(1.0, threshold) == 1.0 by { FullSpan(1.0 - threshold); }
    } else {
      forall v: real, w: real | v <= w ensures ScoreAtLeast(v, threshold) <= ScoreAtLeast(w, threshold) {
        RisesBetween(v, w, threshold);
      }
    }
  }

  lemma FullSpan(span: real)
    requires span > 0.0
    ensures 0.5 + 0.5 * span / span == 1.0
  {
  }

  lemma RisesBetween(v: real, w: real, t: real)
    requires v <= w && !(0.0 < t < 1.0)
    ensures ScoreAtLeast(v, t) <= ScoreAtLeast(w, t)
  {
    hide ScoreAtLeast;
    HalfMarksTheThreshold(AtLeast(v, t));
    HalfMarksTheThreshold(AtLeast(w, t));
    if w < t {
      ScoreUnder(v, t);
      ScoreUnder(w, t);
      if t > 0.0 {
        QuotientRises(v, w, t);
      }
    } else if v >= t {
      ScoreOver(v, t);
      ScoreOver(w, t);
      QuotientRises(v - t, w - t, Max(Abs(t), 1.0));
    }
  }

  lemma ScoreUnder(v: real, t: real)
    requires v < t
    ensures ScoreAtLeast(v, t) == if t <= 0.0 then 0.0 else Max(0.0, 0.5 * (v / t))
  {
    if t > 0.0 {
      Ratio(v, t);
      assert ScoreAtLeast(v, t) == Max(0.0, 0.5 * v / t);
    } else {
      assert ScoreAtLeast(v, t) == 0.0;
    }
  }

  /** Unless the threshold is a share, one span serves every value that reaches it. */
  lemma ScoreOver(v: real, t: real)
    requires v >= t && !(0.0 < t < 1.0)
    ensures ScoreAtLeast(v, t) == Min(1.0, 0.5 + 0.5 * ((v - t) / Max(Abs(t), 1.0)))
  {
    Ratio(v - t, Max(Abs(t), 1.0));
    assert t == 0.0 ==> Max(Abs(t), 1.0) == 1.0 == 1.0 - t;
  }

  lemma QuotientRises(a: real, b: real, d: real)
    requires a <= b && d > 0.0
    ensures a / d <= b / d
  {
    SignOfProduct(b / d - a / d, d);
    assert (b / d - a / d) * d == b - a;
  }

  /** A larger observation never scores higher against an upper bound. */
  lemma UpperBoundScoreFalls(v: real, w: real, t: real)
    requires v <= w
    ensures ScoreAtMost(v, t) >= ScoreAtMost(w, t)
  {
    if w <= t {
      if t > 0.0 {
        QuotientRises(t - w, t - v, t);
        Ratio(t - w, t);
        Ratio(t - v, t);
      }
    } else if v > t && t > 0.0 {
      Ratio(t, v);
      Ratio(t, w);
      InverseFalls(t, v, w);
    } else {
      HalfMarksTheThreshold(AtMost(v, t));
      HalfMarksTheThreshold(AtMost(w, t));
    }
  }

  lemma InverseFalls(t: real, v: real, w: real)
    requires t > 0.0 && 0.0 < v <= w
    ensures t / w <= t / v
  {
    var r := t / w;
    assert r * w == t;
    Ratio(t, w);
    assert r >= 0.0;
    assert r * (w - v) >= 0.0;
    assert r * v <= t;
    QuotientRises(r * v, t, v);
    assert r * v / v == r;
  }

  /** Against a bound of one half, the value 1 scores higher than the value 1.25. */
  lemma ScoreDropsPastOne()
    ensures ScoreAtLeast(1.0, 0.5) == 1.0 && ScoreAtLeast(1.25, 0.5) < 1.0
  {
  }

  /**
   The verdict function itself would call an active rule with no criteria met while its strength reads
   `0`; no judgement calls it so, each lists two criteria or more.
   */
  lemma EmptyListIsMetButFlat()
    ensures CriteriaResult([], true) == Verdict(true, Flat)
  {
  }
}
