/**
 When each verdict is met and how strong it is shown, from the window's totals, its mid prices
 and the samples of the day alone, and what those totals and mid prices are of the columns.
 */
module VerdictTheory {
  import opened Numbers
  import opened Options
  import opened Strength
  import opened RegionSpec
  import opened RegionTheory
  import opened WindowJudge

  // ----- What is totalled and kept

  /** The usable columns of two stretches are those of the first and then those of the second. */
  lemma {:induction false} UsableOfBoth(a: seq<TileColumn>, b: seq<TileColumn>)
    ensures Usable(a + b) == Usable(a) + Usable(b)
  {
    hide Usable;
    if b == [] {
      NoneUsable();
      assert a + b == a;
    } else {
      var n := |b| - 1;
      assert (a + b)[..|a| + n] == a + b[..n];
      UsableOfBoth(a, b[..n]);
      UsableOfFront(a + b);
      UsableOfFront(b);
    }
  }

  lemma NoneUsable()
    ensures Usable([]) == []
  {
  }

  lemma UsableOfFront(s: seq<TileColumn>)
    requires s != []
    ensures var n := |s| - 1; Usable(s) == if s[n].gap || s[n].carried then Usable(s[..n]) else Usable(s[..n]) + [s[n]]
  {
  }

  /** One column is usable unless it is a gap or carried. */
  lemma OneUsable(c: TileColumn)
    ensures Usable([c]) == if c.gap || c.carried then [] else [c]
  {
    assert [c][..0] == [];
  }

  /** Mid prices are kept in order. */
  lemma {:induction false} MidsOfBoth(a: seq<TileColumn>, b: seq<TileColumn>)
    ensures MidsOf(a + b) == MidsOf(a) + MidsOf(b)
  {
    hide MidsOf;
    if b == [] {
      NoMids();
      assert a + b == a;
    } else {
      var n := |b| - 1;
      assert (a + b)[..|a| + n] == a + b[..n];
      MidsOfBoth(a, b[..n]);
      MidsOfFront(a + b);
      MidsOfFront(b);
    }
  }

  lemma NoMids()
    ensures MidsOf([]) == []
  {
  }

  lemma MidsOfFront(s: seq<TileColumn>)
    requires s != []
    ensures var n := |s| - 1;
      MidsOf(s) == match s[n].mid case None => MidsOf(s[..n]) case Some(m) => MidsOf(s[..n]) + [m as real / 10.0]
  {
  }

  /** A mid price counts in tenths of its whole number; a column without one gives none. */
  lemma OneMid(c: TileColumn)
    ensures c.mid == None ==> MidsOf([c]) == []
    ensures c.mid.Some? ==> |MidsOf([c])| == 1 && 10.0 * MidsOf([c])[0] == c.mid.value as real
  {
    assert [c][..0] == [];
  }

  /** One cell counts with its own quantity when its row is in the band, and not at all otherwise. */
  lemma OneCell(c: TileCell, q: Quantity, low: real, high: real)
    ensures BandTotal([c], q, low, high)
      == if low <= c.bin as real <= high
         then match q case Eaten => c.eaten case Cancel => c.cancel case Qty => c.qty case Add => c.add
         else 0
  {
    assert [c][..0] == [];
  }

  /** A band total adds over the cells. */
  lemma {:induction false} BandTotalOfBoth(a: seq<TileCell>, b: seq<TileCell>, q: Quantity, low: real, high: real)
    ensures BandTotal(a + b, q, low, high) == BandTotal(a, q, low, high) + BandTotal(b, q, low, high)
  {
    if b == [] {
      assert a + b == a;
    } else {
      var n := |b| - 1;
      assert (a + b)[..|a| + n] == a + b[..n];
      BandTotalOfBoth(a, b[..n], q, low, high);
    }
  }

  /** A column's sample holds its in-band totals of what was eaten and cancelled and of what stands, in whole units. */
  lemma OneSample(c: TileColumn, low: real, high: real)
    ensures var s := SampleOf(c, low, high);
      && 100000000.0 * s.executed == BandTotal(c.cells, Eaten, low, high) as real
      && 100000000.0 * s.netCancel == BandTotal(c.cells, Cancel, low, high) as real
      && 100000000.0 * s.depth == BandTotal(c.cells, Qty, low, high) as real
  {
    hide BandTotal;
  }

  /** The window's total adds over its columns. */
  lemma {:induction false} RegionTotalOfBoth(a: seq<TileColumn>, b: seq<TileColumn>, q: Quantity, low: real, high: real)
    ensures RegionTotal(a + b, q, low, high) == RegionTotal(a, q, low, high) + RegionTotal(b, q, low, high)
    ensures forall c: TileColumn :: RegionTotal([c], q, low, high) == BandTotal(c.cells, q, low, high)
  {
    assert forall c: TileColumn :: [c][..0] == [];
    if b == [] {
      assert a + b == a;
    } else {
      var n := |b| - 1;
      assert (a + b)[..|a| + n] == a + b[..n];
      RegionTotalOfBoth(a, b[..n], q, low, high);
    }
  }

  /** The window's band is centred on its mid price and reaches `bp` basis points to each side. */
  lemma BandIsCentred(center: int, bp: real)
    ensures var band := BandAround(center, bp);
      && 10.0 * (band.low + band.high) == 2.0 * center as real
      && 100000.0 * (band.high - band.low) == 2.0 * bp * center as real
  {
    var c, share := center as real / 10.0, bp / 10000.0;
    assert 10.0 * c == center as real && 10000.0 * share == bp;
    assert c * (1.0 + share) + c * (1.0 - share) == 2.0 * c;
    assert c * (1.0 + share) - c * (1.0 - share) == 2.0 * (c * share);
    assert 100000.0 * (c * share) == (10.0 * c) * (10000.0 * share);
  }

  /** Column `i` counts and has a mid price. */
  ghost predicate ShowsMid(columns: seq<TileColumn>, i: int) {
    0 <= i < |columns| && !columns[i].gap && !columns[i].carried && columns[i].mid.Some?
  }

  /** None of the columns counts and has a mid price. */
  ghost predicate NoMid(columns: seq<TileColumn>) { forall i :: 0 <= i < |columns| ==> !ShowsMid(columns, i) }

  lemma NoMidSnoc(columns: seq<TileColumn>)
    requires columns != []
    ensures var n := |columns| - 1; NoMid(columns) <==> NoMid(columns[..n]) && !ShowsMid(columns, n)
  {
    var n := |columns| - 1;
    forall i | 0 <= i < n ensures ShowsMid(columns[..n], i) <==> ShowsMid(columns, i) {
    }
    if NoMid(columns[..n]) && !ShowsMid(columns, n) {
      forall i | 0 <= i < |columns| ensures !ShowsMid(columns, i) {
        assert i < n ==> !ShowsMid(columns[..n], i);
      }
    }
    if NoMid(columns) {
      forall i | 0 <= i < n ensures !ShowsMid(columns[..n], i) {
        assert !ShowsMid(columns, i);
      }
    }
  }

  lemma {:induction false} NoMidShown(columns: seq<TileColumn>)
    ensures Tenths(Usable(columns)) == [] <==> NoMid(columns)
  {
    if columns != [] {
      hide NoMid;
      var n := |columns| - 1;
      var front := Usable(columns[..n]);
      NoMidShown(columns[..n]);
      NoMidSnoc(columns);
      assert (front + [columns[n]])[..|front|] == front;
    } else {
      assert NoMid(columns);
    }
  }

  lemma ShowsIn(columns: seq<TileColumn>, start: nat, width: nat)
    requires start + width <= |columns|
    ensures NoMid(columns[start..start + width]) <==> forall i :: start <= i < start + width ==> !ShowsMid(columns, i)
  {
    var window := columns[start..start + width];
    forall i | 0 <= i < width ensures ShowsMid(window, i) <==> ShowsMid(columns, start + i) {
    }
    if NoMid(window) {
      forall i | start <= i < start + width ensures !ShowsMid(columns, i) {
        assert !ShowsMid(window, i - start);
      }
    }
  }

  /** Fewer than or just half of the mids lie below, more than half do not lie above. */
  ghost predicate IsUpperMedian(mids: seq<int>, center: int) {
    |set i | 0 <= i < |mids| && mids[i] < center| <= |mids| / 2 < |set i | 0 <= i < |mids| && mids[i] <= center|
  }

  lemma {:induction false} CountUpToIsPlaces(mids: seq<int>, value: int)
    ensures CountUpTo(mids, value) == |set i | 0 <= i < |mids| && mids[i] <= value|
  {
    if mids != [] {
      var n := |mids| - 1;
      CountUpToIsPlaces(mids[..n], value);
      var rest := set i | 0 <= i < |mids[..n]| && mids[..n][i] <= value;
      assert (set i | 0 <= i < |mids| && mids[i] <= value) == if mids[n] <= value then rest + {n} else rest;
    }
  }

  /**
   A window is declined exactly when no counting column of it has a mid price. Otherwise the library's
   analysis is asked about the band around the upper median of the mid prices, in whole rows, against
   the day's usable columns.
   */
  lemma WindowIsJudged(columns: seq<TileColumn>, start: nat, width: nat, bp: real)
    requires start + width <= |columns|
    ensures WindowJudgement(columns, start, width, bp) == None
      <==> forall i :: start <= i < start + width ==> !ShowsMid(columns, i)
    ensures var judged, window := WindowJudgement(columns, start, width, bp), columns[start..start + width];
      judged.Some? ==> exists center: int ::
        && IsUpperMedian(Tenths(Usable(window)), center)
        && var band := BandAround(center, bp);
           judged.value
             == Analysis(window, SamplesOf(Usable(columns), band.low, band.high), band.low, band.high, 1.0)
  {
    hide Usable, Analysis, CountUpTo, Median, BandAround, SamplesOf, ShowsMid, NoMid;
    var window := columns[start..start + width];
    NoMidShown(window);
    ShowsIn(columns, start, width);
    var mids := Tenths(Usable(window));
    if mids != [] {
      MedianIsMiddle(mids);
      CountUpToIsPlaces(mids, Median(mids));
      CountUpToIsPlaces(mids, Median(mids) - 1);
      assert (set i | 0 <= i < |mids| && mids[i] < Median(mids))
        == set i | 0 <= i < |mids| && mids[i] <= Median(mids) - 1;
      assert IsUpperMedian(mids, Median(mids));
    }
  }

  // ----- How many samples are not above

  lemma {:induction false} CountIsPlaces(xs: seq<real>, value: real)
    ensures CountAtMost(xs, value) == |set i | 0 <= i < |xs| && xs[i] <= value|
  {
    if xs != [] {
      var n := |xs| - 1;
      CountIsPlaces(xs[..n], value);
      var rest := set i | 0 <= i < |xs[..n]| && xs[..n][i] <= value;
      assert (set i | 0 <= i < |xs| && xs[i] <= value) == if xs[n] <= value then rest + {n} else rest;
    }
  }

  lemma BelowMean(x: real, total: int, n: int)
    requires n > 0
    ensures x <= Dec(total) / n as real <==> 100000000.0 * x * n as real <= total as real
  {
    var m := n as real;
    var mean := Dec(total) / m;
    assert mean * m == Dec(total);
    SignOfProduct(mean - x, m);
    assert (mean - x) * m == mean * m - x * m;
    assert 100000000.0 * (x * m) == 100000000.0 * x * m;
  }

  /** The samples not above the mean `total / n`, as their places. */
  ghost function NotAbove(xs: seq<real>, total: int, n: int): set<int> {
    set i | 0 <= i < |xs| && 100000000.0 * xs[i] * n as real <= total as real
  }

  lemma MeanRank(xs: seq<real>, total: int, n: int, h: int)
    requires n > 0 && h > 0
    ensures PercentileRank(xs, Mean(Dec(total), n)) >= Hundredths(h) <==>
      if h % 2 == 0 then xs != [] && 200 * |NotAbove(xs, total, n)| >= (2 * h - 1) * |xs|
      else 200 * |NotAbove(xs, total, n)| > (2 * h - 1) * |xs|
  {
    hide PercentileRank, Dec, CountAtMost;
    var mean := Mean(Dec(total), n);
    RankReachesShare(xs, mean, h);
    CountIsPlaces(xs, mean);
    forall i | 0 <= i < |xs| ensures xs[i] <= mean <==> 100000000.0 * xs[i] * n as real <= total as real {
      BelowMean(xs[i], total, n);
    }
    assert NotAbove(xs, total, n) == set i | 0 <= i < |xs| && xs[i] <= mean;
  }

  // ----- Pull

  /** There are two mid prices or more, and the last is strictly nearer the middle of the band than the first. */
  ghost predicate Nearer(mids: seq<real>, low: real, high: real) {
    |mids| >= 2 && Abs(2.0 * mids[|mids| - 1] - (low + high)) < Abs(2.0 * mids[0] - (low + high))
  }

  lemma ApproachingIsNearer(mids: seq<real>, low: real, high: real)
    ensures Approaching(mids, (low + high) / 2.0) <==> Nearer(mids, low, high)
  {
  }

  /** The places of the samples whose cancel is not above the mean. */
  ghost function CancelsNotAbove(context: seq<BandSample>, total: int, n: int): set<int> {
    set i | 0 <= i < |context| && 100000000.0 * context[i].netCancel * n as real <= total as real
  }

  lemma {:induction false} NothingInNothing(q: Quantity, low: real, high: real)
    ensures RegionTotal([], q, low, high) == 0
  {
  }

  lemma QuarterMeans(executed: int, cancelled: int)
    ensures Dec(executed) <= Dec(cancelled) * 0.25 <==> 4 * executed <= cancelled
  {
  }

  /**
   A pull: something was cancelled, there are thirty samples, the price came nearer, the mean cancel
   reaches 89.5% of the samples and at most a quarter of the cancelled quantity was eaten.
   */
  lemma PullMeans(columns: seq<TileColumn>, context: seq<BandSample>, low: real, high: real, rowBin: real)
    ensures var usable := Usable(columns);
      var cancelled := RegionTotal(usable, Cancel, low, high);
      Analysis(columns, context, low, high, rowBin).pull.met <==>
        && cancelled > 0 && |context| >= 30 && Nearer(MidsOf(usable), low, high)
        && 200 * |CancelsNotAbove(context, cancelled, |usable|)| >= 179 * |context|
        && 4 * RegionTotal(usable, Eaten, low, high) <= cancelled
  {
    hide PercentileRank, Usable, RegionTotal, MidsOf, Approaching, Nearer, Score, Mean, Dec, RowScores, Confident;
    hide AbsorptionVerdict, VacuumVerdict, SweepVerdict, SpoofingSuspicion, SweepRun;
    var usable := Usable(columns);
    var executed, cancelled := RegionTotal(usable, Eaten, low, high), RegionTotal(usable, Cancel, low, high);
    NothingInNothing(Cancel, low, high);
    PositiveDec(cancelled);
    ApproachingIsNearer(MidsOf(usable), low, high);
    QuarterMeans(executed, cancelled);
    if usable != [] {
      MeanRank(Cancels(context), cancelled, |usable|, 90);
      assert NotAbove(Cancels(context), cancelled, |usable|) == CancelsNotAbove(context, cancelled, |usable|);
      var criteria := PullCriteria(
        |context|, Approaching(MidsOf(usable), (low + high) / 2.0),
        PercentileRank(Cancels(context), Mean(Dec(cancelled), |usable|)), Dec(executed), Dec(cancelled));
      assert AllMet(criteria) <==> Met(criteria[0]) && Met(criteria[1]) && Met(criteria[2]) && Met(criteria[3]);
    }
  }

  lemma FourScores(a: Criterion, b: Criterion, c: Criterion, d: Criterion, h: int)
    ensures CriteriaResult([a, b, c, d], true).confidence.Graded?
    ensures CriteriaResult([a, b, c, d], true).confidence.hundredths >= h
      <==> Reaches(Score(a), h) && Reaches(Score(b), h) && Reaches(Score(c), h) && Reaches(Score(d), h)
  {
    hide Score, Reaches, CriteriaResult;
    var criteria := [a, b, c, d];
    StrengthReaches(criteria, h);
    assert criteria[0] == a && criteria[1] == b && criteria[2] == c && criteria[3] == d;
  }

  /** The shown strength of a pull is that of its weakest bound; `0` when nothing was cancelled. */
  lemma PullStrength(columns: seq<TileColumn>, context: seq<BandSample>, low: real, high: real, rowBin: real, h: int)
    ensures var usable := Usable(columns);
      var executed, cancelled := RegionTotal(usable, Eaten, low, high), RegionTotal(usable, Cancel, low, high);
      var shown := Analysis(columns, context, low, high, rowBin).pull.confidence;
      if cancelled <= 0 then shown == Flat
      else
        && usable != [] && shown.Graded?
        && (shown.hundredths >= h <==>
             && Reaches(ScoreAtLeast(|context| as real, 30.0), h)
             && Reaches(if Nearer(MidsOf(usable), low, high) then 1.0 else 0.0, h)
             && Reaches(ScoreAtLeast(PercentileRank(Cancels(context), Dec(cancelled) / |usable| as real), 0.9), h)
             && Reaches(ScoreAtMost(Dec(executed), Dec(cancelled) * 0.25), h))
  {
    hide PercentileRank, Usable, RegionTotal, MidsOf, Approaching, Nearer, Reaches, ScoreAtLeast, ScoreAtMost, Dec;
    hide AbsorptionVerdict, VacuumVerdict, SweepVerdict, SpoofingSuspicion, SweepRun, RowScores, Confident;
    var usable := Usable(columns);
    var executed, cancelled := RegionTotal(usable, Eaten, low, high), RegionTotal(usable, Cancel, low, high);
    NothingInNothing(Cancel, low, high);
    PositiveDec(cancelled);
    ApproachingIsNearer(MidsOf(usable), low, high);
    var rank := PercentileRank(Cancels(context), Mean(Dec(cancelled), |usable|));
    FourScores(AtLeast(|context| as real, 30.0), Is(Approaching(MidsOf(usable), (low + high) / 2.0), true),
               AtLeast(rank, 0.9), AtMost(Dec(executed), Dec(cancelled) * 0.25), h);
  }

  lemma PositiveDec(units: int)
    ensures Dec(units) > 0.0 <==> units > 0
  {
  }

  // ----- Absorption

  ghost function EatenNotAbove(context: seq<BandSample>, total: int, n: int): set<int> {
    set i | 0 <= i < |context| && 100000000.0 * context[i].executed * n as real <= total as real
  }

  /** The mid price moved by at most 5.005 basis points of the first, or there is no move to measure. */
  ghost predicate Still(mids: seq<real>) {
    |mids| < 2 || mids[0] <= 0.0 || 2000000.0 * Abs(mids[|mids| - 1] - mids[0]) <= 1001.0 * mids[0]
  }

  /** With one mid price, or none, or a first one that is not positive, the drift counts as zero. */
  lemma NothingToMeasure(mids: seq<real>)
    ensures |mids| < 2 || mids[0] <= 0.0 ==> DriftBp(mids) == 0.0
  {
  }

  lemma DriftWithinFive(mids: seq<real>)
    ensures DriftBp(mids) <= 5.0 <==> Still(mids)
  {
    if |mids| >= 2 && mids[0] > 0.0 {
      DriftOfFive(mids[0], mids[|mids| - 1]);
    }
  }

  lemma DriftOfFive(first: real, last: real)
    requires first > 0.0
    ensures Hundredths(Quantize(Abs((last - first) / first * 10000.0))) <= 5.0
      <==> 2000000.0 * Abs(last - first) <= 1001.0 * first
  {
    hide Quantize, Abs;
    var size := Abs((last - first) / first * 10000.0);
    QuantizeReaches(size, 501);
    RatioTimes(last - first, first);
    SizeOfFive(size, Abs(last - first), first);
  }

  lemma SizeOfFive(size: real, move: real, first: real)
    requires first > 0.0 && size * first == move * 10000.0
    ensures size * 100.0 > 500.5 <==> 2000000.0 * move > 1001.0 * first
  {
    SignOfProduct(size * 200.0 - 1001.0, first);
    assert (size * 200.0 - 1001.0) * first == 200.0 * (size * first) - 1001.0 * first;
  }

  lemma HalfMeans(added: int, executed: int)
    ensures Dec(added) >= Dec(executed) * 0.5 <==> 2 * added >= executed
  {
  }

  /**
   An absorption: something was eaten, there are thirty samples, the mean eaten quantity reaches 89.5% of
   them, at least half of what was eaten was added back and the price stood still.
   */
  lemma AbsorptionMeans(columns: seq<TileColumn>, context: seq<BandSample>, low: real, high: real, rowBin: real)
    ensures var usable := Usable(columns);
      var executed := RegionTotal(usable, Eaten, low, high);
      Analysis(columns, context, low, high, rowBin).absorption.met <==>
        && executed > 0 && |context| >= 30
        && 200 * |EatenNotAbove(context, executed, |usable|)| >= 179 * |context|
        && 2 * RegionTotal(usable, Add, low, high) >= executed && Still(MidsOf(usable))
  {
    hide PercentileRank, Usable, RegionTotal, MidsOf, DriftBp, Still, Score, Mean, Dec, RowScores, Confident;
    hide PullVerdict, VacuumVerdict, SweepVerdict, SpoofingSuspicion, SweepRun;
    var usable := Usable(columns);
    var executed, added := RegionTotal(usable, Eaten, low, high), RegionTotal(usable, Add, low, high);
    NothingInNothing(Eaten, low, high);
    PositiveDec(executed);
    DriftWithinFive(MidsOf(usable));
    HalfMeans(added, executed);
    if usable != [] {
      MeanRank(Executeds(context), executed, |usable|, 90);
      assert NotAbove(Executeds(context), executed, |usable|) == EatenNotAbove(context, executed, |usable|);
      var criteria := AbsorptionCriteria(
        |context|, PercentileRank(Executeds(context), Mean(Dec(executed), |usable|)), Dec(added), Dec(executed),
        DriftBp(MidsOf(usable)));
      assert AllMet(criteria) <==> Met(criteria[0]) && Met(criteria[1]) && Met(criteria[2]) && Met(criteria[3]);
    }
  }

  /** The shown strength of an absorption is that of its weakest bound; `0` when nothing was eaten. */
  lemma AbsorptionStrength(
    columns: seq<TileColumn>, context: seq<BandSample>, low: real, high: real, rowBin: real, h: int)
    ensures var usable := Usable(columns);
      var executed, added := RegionTotal(usable, Eaten, low, high), RegionTotal(usable, Add, low, high);
      var shown := Analysis(columns, context, low, high, rowBin).absorption.confidence;
      if executed <= 0 then shown == Flat
      else
        && usable != [] && shown.Graded?
        && (shown.hundredths >= h <==>
             && Reaches(ScoreAtLeast(|context| as real, 30.0), h)
             && Reaches(ScoreAtLeast(PercentileRank(Executeds(context), Dec(executed) / |usable| as real), 0.9), h)
             && Reaches(ScoreAtLeast(Dec(added), Dec(executed) * 0.5), h)
             && Reaches(ScoreAtMost(DriftBp(MidsOf(usable)), 5.0), h))
  {
    hide PercentileRank, Usable, RegionTotal, MidsOf, DriftBp, Reaches, ScoreAtLeast, ScoreAtMost, Dec;
    hide PullVerdict, VacuumVerdict, SweepVerdict, SpoofingSuspicion, SweepRun, RowScores, Confident;
    var usable := Usable(columns);
    var executed, added := RegionTotal(usable, Eaten, low, high), RegionTotal(usable, Add, low, high);
    NothingInNothing(Eaten, low, high);
    PositiveDec(executed);
    var rank := PercentileRank(Executeds(context), Mean(Dec(executed), |usable|));
    FourScores(AtLeast(|context| as real, 30.0), AtLeast(rank, 0.9),
               AtLeast(Dec(added), Dec(executed) * 0.5), AtMost(DriftBp(MidsOf(usable)), 5.0), h);
  }

  // ----- Vacuum

  /** The places of the samples whose depth is not above that of any usable column. */
  ghost function DepthsNotAbove(context: seq<BandSample>, usable: seq<TileColumn>, low: real, high: real): set<int> {
    set i | 0 <= i < |context|
            && forall k :: 0 <= k < |usable| ==>
                 100000000.0 * context[i].depth <= BandTotal(usable[k].cells, Qty, low, high) as real
  }

  lemma LowestRank(context: seq<BandSample>, usable: seq<TileColumn>, low: real, high: real)
    requires usable != []
    ensures PercentileRank(Depths(context), LowestDepth(SamplesOf(usable, low, high))) <= 0.10
      <==> 200 * |DepthsNotAbove(context, usable, low, high)| <= 21 * |context|
  {
    hide CountAtMost, BandTotal, Quantize, Dec;
    var samples := SamplesOf(usable, low, high);
    var lowest, depths := LowestDepth(samples), Depths(context);
    RankReachesShare(depths, lowest, 11);
    CountIsPlaces(depths, lowest);
    var all := seq(|samples|, i requires 0 <= i < |samples| => samples[i].depth);
    var k :| 0 <= k < |all| && all[k] == lowest;
    assert lowest == Dec(BandTotal(usable[k].cells, Qty, low, high));
    forall j | 0 <= j < |usable| ensures lowest <= Dec(BandTotal(usable[j].cells, Qty, low, high)) {
      assert lowest <= all[j];
    }
    assert DepthsNotAbove(context, usable, low, high) == set i | 0 <= i < |depths| && depths[i] <= lowest;
  }

  /**
   A liquidity vacuum: thirty samples, and at most 10.5% of them are no deeper than the shallowest
   usable column.
   */
  lemma VacuumMeans(columns: seq<TileColumn>, context: seq<BandSample>, low: real, high: real, rowBin: real)
    ensures var usable := Usable(columns);
      Analysis(columns, context, low, high, rowBin).vacuum.met <==>
        && usable != [] && |context| >= 30
        && 200 * |DepthsNotAbove(context, usable, low, high)| <= 21 * |context|
  {
    hide PercentileRank, Usable, Score, RowScores, Confident, LowestDepth, DepthsNotAbove, SamplesOf;
    hide PullVerdict, AbsorptionVerdict, SweepVerdict, SpoofingSuspicion, SweepRun;
    var usable := Usable(columns);
    if usable != [] {
      LowestRank(context, usable, low, high);
      var criteria := VacuumCriteria(
        |context|, PercentileRank(Depths(context), LowestDepth(SamplesOf(usable, low, high))));
      assert AllMet(criteria) <==> Met(criteria[0]) && Met(criteria[1]);
    }
  }

  /** The shown strength of a vacuum is that of its weaker bound; `0` without a usable column. */
  lemma VacuumStrength(columns: seq<TileColumn>, context: seq<BandSample>, low: real, high: real, rowBin: real, h: int)
    ensures var usable := Usable(columns);
      var shown := Analysis(columns, context, low, high, rowBin).vacuum.confidence;
      if usable == [] then shown == Flat
      else
        && shown.Graded?
        && (shown.hundredths >= h <==>
             && Reaches(ScoreAtLeast(|context| as real, 30.0), h)
             && Reaches(ScoreAtMost(PercentileRank(Depths(context), LowestDepth(SamplesOf(usable, low, high))), 0.1), h))
  {
    hide PercentileRank, Usable, Score, Reaches, ScoreAtLeast, ScoreAtMost, LowestDepth, SamplesOf, RowScores, Confident;
    hide PullVerdict, AbsorptionVerdict, SweepVerdict, SpoofingSuspicion, SweepRun, CriteriaResult;
    var usable := Usable(columns);
    if usable != [] {
      var criteria := VacuumCriteria(
        |context|, PercentileRank(Depths(context), LowestDepth(SamplesOf(usable, low, high))));
      StrengthReaches(criteria, h);
      BoundScores(criteria[0], criteria[1]);
    }
  }

  lemma BoundScores(a: Criterion, b: Criterion)
    requires a.AtLeast? && b.AtMost?
    ensures Score(a) == ScoreAtLeast(a.observed, a.threshold) && Score(b) == ScoreAtMost(b.observed, b.threshold)
  {
  }

  // ----- Spoofing

  /** The spoofing flag: a suspicious cancel among the usable columns, against the cancels of the samples. */
  lemma SpoofingMeans(columns: seq<TileColumn>, context: seq<BandSample>, low: real, high: real, rowBin: real)
    ensures Analysis(columns, context, low, high, rowBin).spoofing <==>
      exists best: Best, n: nat :: IsSuspicious(best, n, Usable(columns), Cancels(context), low, high)
  {
    SuspicionIsShortStand(Usable(columns), Cancels(context), low, high);
    SpoofingOf(columns, context, low, high, rowBin);
    hide *;
  }

  lemma SpoofingOf(columns: seq<TileColumn>, context: seq<BandSample>, low: real, high: real, rowBin: real)
    ensures Analysis(columns, context, low, high, rowBin).spoofing
      == SpoofingSuspicion(Usable(columns), Cancels(context), low, high)
  {
    hide Usable, SpoofingSuspicion, PullVerdict, AbsorptionVerdict, SweepVerdict, VacuumVerdict, SweepRun;
  }

  // ----- Sweep

  /** A sweep: the best run has three rows or more and there are thirty samples. */
  lemma SweepMeans(columns: seq<TileColumn>, context: seq<BandSample>, low: real, high: real, rowBin: real)
    ensures var run := Analysis(columns, context, low, high, rowBin).run;
      && IsBestRun(run, Hits(Usable(columns), Ask, low, high), Hits(Usable(columns), Bid, low, high), rowBin)
      && (Analysis(columns, context, low, high, rowBin).sweep.met <==> run.levels >= 3 && |context| >= 30)
  {
    hide SweepRun, Hits, Usable, IsBestRun, SweepVerdict, AbsorptionVerdict, PullVerdict, VacuumVerdict;
    hide SpoofingSuspicion;
    SweepRunIsBest(Usable(columns), low, high, rowBin);
    SpanCriterionNeverFails(Usable(columns), low, high, rowBin, |context|);
  }

  /** The shown strength of a sweep is that of its weakest bound; `0` when no row was swept. */
  lemma SweepStrength(run: Run, baseline: nat, h: int)
    ensures var shown := SweepVerdict(run, baseline).confidence;
      if run.levels == 0 then shown == Flat
      else
        && shown.Graded?
        && (shown.hundredths >= h <==>
             && Reaches(ScoreAtLeast(baseline as real, 30.0), h) && Reaches(ScoreAtLeast(run.levels as real, 3.0), h)
             && Reaches(ScoreAtMost(run.span as real, 3.0), h))
  {
    hide Score, Reaches, ScoreAtLeast, ScoreAtMost, RowScores, Confident, CriteriaResult;
    var criteria := SweepCriteria(baseline, run);
    StrengthReaches(criteria, h);
    BoundScores(criteria[0], criteria[2]);
    BoundScores(criteria[1], criteria[2]);
    InactiveIsFlat(criteria);
  }

  lemma InactiveIsFlat(criteria: seq<Criterion>)
    ensures CriteriaResult(criteria, false) == Verdict(false, Flat)
  {
  }
}
