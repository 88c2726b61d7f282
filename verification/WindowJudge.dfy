/**
 The two judges agree: `judge_window` on the arrays returns what the library's analysis
 returns for the same window, with the band around its median mid price and the usable
 columns of the day as the baseline.
 */
module WindowJudge {
  import opened Options
  import opened Sorting
  import opened Strength
  import opened RegionSpec
  import opened DayGrid
  import opened BandQuery
  import opened SweepJudge

  // ----- A band given by decimals is the band of its whole rows

  lemma {:induction false} BestInCellsRounds(
    best: Best, at: int, cells: seq<TileCell>, low: real, high: real, lo: int, hi: int)
    requires Rounds(low, high, lo, hi)
    ensures BestInCells(best, at, cells, low, high) == BestInCells(best, at, cells, lo as real, hi as real)
  {
    if cells != [] {
      BestInCellsRounds(best, at, cells[..|cells| - 1], low, high, lo, hi);
      assert RowInBand(cells[|cells| - 1].bin, low, high) <==> lo <= cells[|cells| - 1].bin <= hi;
    }
  }

  lemma {:induction false} BestRounds(columns: seq<TileColumn>, low: real, high: real, lo: int, hi: int)
    requires Rounds(low, high, lo, hi)
    ensures BestInColumns(columns, low, high) == BestInColumns(columns, lo as real, hi as real)
  {
    if columns != [] {
      var n := |columns| - 1;
      BestRounds(columns[..n], low, high, lo, hi);
      BestInCellsRounds(BestInColumns(columns[..n], low, high), n, columns[n].cells, low, high, lo, hi);
    }
  }

  lemma StandsRounds(c: TileColumn, bin: int, low: real, high: real, lo: int, hi: int)
    requires Rounds(low, high, lo, hi)
    ensures StandsAt(c, bin, low, high) == StandsAt(c, bin, lo as real, hi as real)
  {
    forall i | 0 <= i < |c.cells|
      ensures InBand(c.cells[i], low, high) == InBand(c.cells[i], lo as real, hi as real)
    {
      assert RowInBand(c.cells[i].bin, low, high) <==> lo <= c.cells[i].bin <= hi;
    }
  }

  lemma {:induction false} LifetimeRounds(
    columns: seq<TileColumn>, bin: int, low: real, high: real, lo: int, hi: int)
    requires Rounds(low, high, lo, hi)
    ensures Lifetime(columns, bin, low, high) == Lifetime(columns, bin, lo as real, hi as real)
  {
    if columns != [] {
      LifetimeRounds(columns[..|columns| - 1], bin, low, high, lo, hi);
      StandsRounds(columns[|columns| - 1], bin, low, high, lo, hi);
    }
  }

  lemma SpoofingRounds(
    columns: seq<TileColumn>, population: seq<real>, low: real, high: real, lo: int, hi: int)
    requires Rounds(low, high, lo, hi)
    ensures SpoofingSuspicion(columns, population, low, high)
         == SpoofingSuspicion(columns, population, lo as real, hi as real)
  {
    hide PercentileRank, BestInColumns, Lifetime;
    BestRounds(columns, low, high, lo, hi);
    BestBounds(columns, low, high);
    var best := BestInColumns(columns, low, high);
    if best.at >= 0 {
      LifetimeRounds(columns[..best.at], best.bin, low, high, lo, hi);
    }
  }

  lemma {:induction false} HitsInCellsRounds(
    hits: map<int, nat>, at: nat, cells: seq<TileCell>, side: Side, low: real, high: real, lo: int, hi: int)
    requires Rounds(low, high, lo, hi)
    ensures HitsInCells(hits, at, cells, side, low, high) == HitsInCells(hits, at, cells, side, lo as real, hi as real)
  {
    if cells != [] {
      HitsInCellsRounds(hits, at, cells[..|cells| - 1], side, low, high, lo, hi);
      assert RowInBand(cells[|cells| - 1].bin, low, high) <==> lo <= cells[|cells| - 1].bin <= hi;
    }
  }

  lemma {:induction false} HitsRound(
    columns: seq<TileColumn>, side: Side, low: real, high: real, lo: int, hi: int)
    requires Rounds(low, high, lo, hi)
    ensures Hits(columns, side, low, high) == Hits(columns, side, lo as real, hi as real)
  {
    if columns != [] {
      var n := |columns| - 1;
      HitsRound(columns[..n], side, low, high, lo, hi);
      HitsInCellsRounds(Hits(columns[..n], side, low, high), n, columns[n].cells, side, low, high, lo, hi);
    }
  }

  // ----- Positions, sums and minima over the scanned columns

  /** The positions in `from..to` the window may use. */
  method ScanPositions(g: Grid, ghost columns: seq<TileColumn>, from: nat, to: nat) returns (scan: seq<nat>)
    requires Represents(g, columns) && from <= to <= |columns|
    ensures Scans(columns, scan) && At(columns, scan) == Usable(columns[from..to])
  {
    scan := [];
    for p := from to to
      invariant Scans(columns, scan) && At(columns, scan) == Usable(columns[from..p])
    {
      assert columns[from..p + 1][..p - from] == columns[from..p];
      if !g.gap[p] && !g.carried[p] {
        scan := scan + [p];
      }
    }
  }

  /** The values of a day array at the given positions. */
  function Pick(values: seq<int>, scan: seq<nat>): (r: seq<int>)
    requires forall k :: 0 <= k < |scan| ==> scan[k] < |values|
    ensures |r| == |scan|
    ensures forall k :: 0 <= k < |r| ==> r[k] == values[scan[k]]
  {
    seq(|scan|, k requires 0 <= k < |scan| => values[scan[k]])
  }

  function Sum(values: seq<int>): int {
    if values == [] then 0 else Sum(values[..|values| - 1]) + values[|values| - 1]
  }

  function Least(values: seq<int>): (m: int)
    requires values != []
    ensures m in values
    ensures forall k :: 0 <= k < |values| ==> m <= values[k]
  {
    if |values| == 1 then values[0]
    else
      var rest := Least(values[1..]);
      if values[0] <= rest then values[0] else rest
  }

  lemma {:induction false} SumIsRegionTotal(
    totals: seq<int>, columns: seq<TileColumn>, q: Quantity, low: real, high: real)
    requires AreTotals(totals, columns, q, low, high)
    ensures Sum(totals) == RegionTotal(columns, q, low, high)
  {
    if totals != [] {
      SumIsRegionTotal(totals[..|totals| - 1], columns[..|totals| - 1], q, low, high);
    }
  }

  lemma PickedAreTotals(
    day: seq<int>, columns: seq<TileColumn>, scan: seq<nat>, q: Quantity, low: real, high: real)
    requires AreTotals(day, columns, q, low, high) && Scans(columns, scan)
    ensures AreTotals(Pick(day, scan), At(columns, scan), q, low, high)
  {
  }

  lemma LeastIsLowestDepth(totals: seq<int>, columns: seq<TileColumn>, low: real, high: real)
    requires AreTotals(totals, columns, Qty, low, high) && totals != []
    ensures Dec(Least(totals)) == LowestDepth(SamplesOf(columns, low, high))
  {
    hide BandTotal, Least, MinOf;
    var samples := SamplesOf(columns, low, high);
    var depths := Depths(samples);
    assert LowestDepth(samples) == MinOf(depths);
    forall k | 0 <= k < |totals| ensures depths[k] == Dec(totals[k]) {
    }
    var i :| 0 <= i < |totals| && totals[i] == Least(totals);
    var j :| 0 <= j < |depths| && depths[j] == MinOf(depths);
    assert MinOf(depths) <= depths[i] && Least(totals) <= totals[j];
  }

  lemma PopulationsAgree(
    eaten: seq<int>, cancel: seq<int>, qty: seq<int>, columns: seq<TileColumn>, low: real, high: real)
    requires AreTotals(eaten, columns, Eaten, low, high) && AreTotals(cancel, columns, Cancel, low, high)
    requires AreTotals(qty, columns, Qty, low, high)
    ensures Executeds(SamplesOf(columns, low, high)) == Decs(eaten)
    ensures Cancels(SamplesOf(columns, low, high)) == Decs(cancel)
    ensures Depths(SamplesOf(columns, low, high)) == Decs(qty)
  {
  }

  // ----- Mid prices

  function Tenths(columns: seq<TileColumn>): seq<int> {
    if columns == [] then []
    else
      var front := Tenths(columns[..|columns| - 1]);
      match columns[|columns| - 1].mid
      case None => front
      case Some(m) => front + [m]
  }

  function InTenths(mids: seq<int>): seq<real> {
    seq(|mids|, i requires 0 <= i < |mids| => mids[i] as real / 10.0)
  }

  lemma {:induction false} MidsAreTenths(columns: seq<TileColumn>)
    ensures MidsOf(columns) == InTenths(Tenths(columns))
  {
    if columns != [] {
      MidsAreTenths(columns[..|columns| - 1]);
    }
  }

  lemma {:induction false} TenthsComeFromColumns(columns: seq<TileColumn>, m: int)
    requires m in Tenths(columns)
    ensures exists k :: 0 <= k < |columns| && columns[k].mid == Some(m)
  {
    var n := |columns| - 1;
    if columns[n].mid != Some(m) {
      TenthsComeFromColumns(columns[..n], m);
      var k :| 0 <= k < n && columns[..n][k].mid == Some(m);
      assert columns[k].mid == Some(m);
    }
  }

  /** The mids of the scanned columns; a missing one is coded below zero. */
  method ScannedMids(g: Grid, ghost columns: seq<TileColumn>, scan: seq<nat>) returns (mids: seq<int>)
    requires TileFile(columns) && Represents(g, columns) && Scans(columns, scan)
    ensures mids == Tenths(At(columns, scan))
  {
    mids := [];
    ghost var scanned := At(columns, scan);
    for k := 0 to |scan|
      invariant mids == Tenths(scanned[..k])
    {
      assert scanned[..k + 1][..k] == scanned[..k];
      if g.midX10[scan[k]] >= 0 {
        mids := mids + [g.midX10[scan[k]]];
      }
    }
    assert scanned[..|scan|] == scanned;
  }

  function AsReal(m: int): real { m as real }

  function Median(mids: seq<int>): (m: int)
    requires mids != []
    ensures m in mids
  {
    var sorted := StableSort(mids, AsReal);
    assert sorted[|mids| / 2] in multiset(sorted);
    sorted[|mids| / 2]
  }

  function CountUpTo(mids: seq<int>, value: int): nat {
    if mids == [] then 0
    else CountUpTo(mids[..|mids| - 1], value) + if mids[|mids| - 1] <= value then 1 else 0
  }

  lemma {:induction false} InsertCounts(s: seq<int>, x: int, value: int)
    ensures CountUpTo(Insert(s, x, AsReal), value) == CountUpTo(s, value) + if x <= value then 1 else 0
  {
    if s != [] {
      var front, last := s[..|s| - 1], s[|s| - 1];
      InsertCounts(front, x, value);
      var inner := Insert(front, x, AsReal);
      assert (inner + [last])[..|inner|] == inner;
      assert (s + [x])[..|s|] == s;
    }
  }

  lemma {:induction false} SortingCounts(s: seq<int>, value: int)
    ensures CountUpTo(StableSort(s, AsReal), value) == CountUpTo(s, value)
  {
    if s != [] {
      hide Insert;
      SortingCounts(s[..|s| - 1], value);
      InsertCounts(StableSort(s[..|s| - 1], AsReal), s[|s| - 1], value);
    }
  }

  lemma {:induction false} SortedCounts(s: seq<int>, k: nat, n: nat)
    requires SortedBy(s, AsReal) && k < |s| && n <= |s|
    ensures CountUpTo(s[..n], s[k]) >= if n <= k + 1 then n else k + 1
    ensures CountUpTo(s[..n], s[k] - 1) <= k
  {
    if n > 0 {
      SortedCounts(s, k, n - 1);
      assert s[..n][..n - 1] == s[..n - 1];
      assert n - 1 <= k ==> AsReal(s[n - 1]) <= AsReal(s[k]);
      assert n - 1 >= k ==> AsReal(s[k]) <= AsReal(s[n - 1]);
      CountsFew(s[..n - 1], s[k] - 1);
    }
  }

  lemma {:induction false} CountsFew(s: seq<int>, value: int)
    ensures CountUpTo(s, value) <= |s|
  {
    if s != [] {
      CountsFew(s[..|s| - 1], value);
    }
  }

  /**
   The band's centre is the upper median: more than half of the mids are not above it, no more than
   half lie below it.
   */
  lemma MedianIsMiddle(mids: seq<int>)
    requires mids != []
    ensures CountUpTo(mids, Median(mids) - 1) <= |mids| / 2 < CountUpTo(mids, Median(mids))
  {
    hide StableSort, CountUpTo;
    var sorted, k := StableSort(mids, AsReal), |mids| / 2;
    StableSortSorted(mids, AsReal);
    SortedCounts(sorted, k, |sorted|);
    assert sorted[..|sorted|] == sorted;
    SortingCounts(mids, Median(mids));
    SortingCounts(mids, Median(mids) - 1);
  }

  // ----- The verdicts in the sweep's own form

  lemma ConjunctionIsVerdict(criteria: seq<Criterion>, active: bool)
    requires criteria != []
    ensures CriteriaResult(criteria, active)
         == Verdict(active && AllMet(criteria), if active then Confident(Scores(criteria)) else Flat)
  {
    QuantizingCommutesWithWeakest(criteria);
  }

  lemma {:induction false} RunsStayShort(best: Run, hits: map<int, nat>, bins: seq<int>, n: nat, side: Side, rowBin: real)
    requires n <= |bins| && forall i :: 0 <= i < |bins| ==> bins[i] in hits
    requires best.span <= SWEEP_MAX_BUCKETS
    ensures BestOnSide(best, hits, bins, n, side, rowBin).span <= SWEEP_MAX_BUCKETS
  {
    if n > 0 {
      RunsStayShort(best, hits, bins, n - 1, side, rowBin);
    }
  }

  lemma SweepRunIsShort(columns: seq<TileColumn>, low: real, high: real, rowBin: real)
    ensures SweepRun(columns, low, high, rowBin).span <= SWEEP_MAX_BUCKETS
  {
    hide Hits, BestOnSide, SortedKeys;
    var ask, bid := Hits(columns, Ask, low, high), Hits(columns, Bid, low, high);
    var a, b := SortedKeys(ask.Keys), SortedKeys(bid.Keys);
    RunsStayShort(NO_RUN, ask, a, |a|, Ask, rowBin);
    RunsStayShort(BestOnSide(NO_RUN, ask, a, |a|, Ask, rowBin), bid, b, |b|, Bid, rowBin);
  }

  /**
   The sweep's third criterion never fails: the search only reports runs within the allowed span, so
   the verdict is decided by the run length and the baseline alone.
   */
  lemma SpanCriterionNeverFails(columns: seq<TileColumn>, low: real, high: real, rowBin: real, baseline: nat)
    ensures var run := SweepRun(columns, low, high, rowBin);
      SweepVerdict(run, baseline).met <==> run.levels >= SWEEP_MIN_LEVELS && baseline >= 30
  {
    hide SweepRun, RowScores, Confident;
    SweepRunIsShort(columns, low, high, rowBin);
    var criteria := SweepCriteria(baseline, SweepRun(columns, low, high, rowBin));
    assert AllMet(criteria) <==> Met(criteria[0]) && Met(criteria[1]) && Met(criteria[2]);
  }

  // ----- The window

  datatype Band = Band(low: real, high: real)

  /** The band of `bp` basis points on each side of a mid price in tenths. */
  function BandAround(center: int, bp: real): Band {
    Band(center as real / 10.0 * (1.0 - bp / 10000.0), center as real / 10.0 * (1.0 + bp / 10000.0))
  }

  /** What the library says about the window, with the band and the baseline the sweep gives it. */
  function WindowJudgement(columns: seq<TileColumn>, start: nat, width: nat, bp: real): Option<Report>
    requires start + width <= |columns|
  {
    var window := columns[start..start + width];
    var mids := Tenths(Usable(window));
    if Usable(window) == [] || mids == [] then None
    else
      var band := BandAround(Median(mids), bp);
      Some(Analysis(window, SamplesOf(Usable(columns), band.low, band.high), band.low, band.high, 1.0))
  }

  /** The rows of the window's own band are ones the arrays answer right for. */
  ghost predicate BandFits(columns: seq<TileColumn>, start: nat, width: nat, bp: real)
    requires start + width <= |columns|
  {
    var mids := Tenths(Usable(columns[start..start + width]));
    mids != [] ==>
      var band := BandAround(Median(mids), bp);
      RowsFit(Ceil(band.low), band.high.Floor)
  }

  lemma ShareBounds(c: real, share: real)
    requires c >= 0.0 && 0.0 <= share <= 1.0
    ensures 0.0 <= c * (1.0 - share) <= c * (1.0 + share) <= 2.0 * c
  {
    assert c * (1.0 - share) >= 0.0;
    assert c * share >= 0.0;
    assert c * (1.0 + share) == c + c * share;
    assert c * (1.0 - share) == c - c * share;
  }

  /** With up to 10000 basis points and prices below half the key range every window's band fits. */
  lemma UsualBandsFit(columns: seq<TileColumn>, start: nat, width: nat, bp: real)
    requires start + width <= |columns| && TileFile(columns) && 0.0 <= bp <= 10000.0
    requires forall i :: 0 <= i < |columns| && columns[i].mid.Some? ==> columns[i].mid.value < 5 * KEY_BASE
    ensures BandFits(columns, start, width, bp)
  {
    hide Median, Usable, Tenths, RowsAscend;
    var usable := Usable(columns[start..start + width]);
    var mids := Tenths(usable);
    if mids != [] {
      var center := Median(mids);
      TenthsComeFromColumns(usable, center);
      var k :| 0 <= k < |usable| && usable[k].mid == Some(center);
      UsableSome(columns[start..start + width], k);
      var i :| 0 <= i < |columns| && columns[i] == usable[k];
      assert columns[i].mid.Some?;
      CenterFits(center, bp);
    }
  }

  lemma CenterFits(center: int, bp: real)
    requires 0 <= center < 5 * KEY_BASE && 0.0 <= bp <= 10000.0
    ensures var band := BandAround(center, bp); RowsFit(Ceil(band.low), band.high.Floor)
  {
    hide Ceil, RowsFit;
    var c, share := center as real / 10.0, bp / 10000.0;
    ShareBounds(c, share);
    var low, high := c * (1.0 - share), c * (1.0 + share);
    assert BandAround(center, bp) == Band(low, high);
    assert 2.0 * c < KEY_BASE as real;
    WholeRowsFit(low, high);
  }

  lemma WholeRowsFit(low: real, high: real)
    requires 0.0 <= low <= high < KEY_BASE as real
    ensures RowsFit(Ceil(low), high.Floor)
  {
    assert Ceil(low) >= 0 && high.Floor < KEY_BASE;
  }

  lemma UsableSome(columns: seq<TileColumn>, k: nat)
    requires k < |Usable(columns)|
    ensures Usable(columns)[k] in columns
  {
    if columns != [] {
      var n := |columns| - 1;
      if k < |Usable(columns[..n])| {
        UsableSome(columns[..n], k);
      }
    }
  }

  /** The four totals of the window and the day, and what the library would make of them. */
  lemma TotalsAgree(
    day: seq<int>, columns: seq<TileColumn>, scan: seq<nat>, q: Quantity, low: real, high: real, lo: int, hi: int)
    requires AreTotals(day, columns, q, lo as real, hi as real) && Rounds(low, high, lo, hi) && Scans(columns, scan)
    ensures AreTotals(Pick(day, scan), At(columns, scan), q, low, high)
    ensures Sum(Pick(day, scan)) == RegionTotal(At(columns, scan), q, low, high)
  {
    hide BandTotal, Rounds, Sum, RegionTotal, Pick;
    forall k | 0 <= k < |columns| ensures day[k] == BandTotal(columns[k].cells, q, low, high) {
      TotalsRound(columns[k].cells, q, low, high, lo, hi);
    }
    PickedAreTotals(day, columns, scan, q, low, high);
    SumIsRegionTotal(Pick(day, scan), At(columns, scan), q, low, high);
  }

  method JudgeAbsorption(
    ghost usable: seq<TileColumn>, ghost context: seq<BandSample>, ghost low: real, ghost high: real,
    samples: nat, executed: int, added: int, population: seq<int>, mids: seq<int>)
    returns (verdict: Verdict)
    requires samples == |usable| > 0 && |context| == |population| && Executeds(context) == Decs(population)
    requires executed == RegionTotal(usable, Eaten, low, high) && added == RegionTotal(usable, Add, low, high)
    requires InTenths(mids) == MidsOf(usable)
    ensures verdict == AbsorptionVerdict(usable, context, low, high)
  {
    hide RegionTotal, PercentileRank, PercentileRankInt, Score, Scores, Quantize, MidsOf, DriftBp;
    var rank := PercentileRankInt(population, executed, samples);
    RanksAgree(population, executed, samples);
    var total, add := Dec(executed), Dec(added);
    var need := total * ABSORPTION_REPLENISH_RATIO;
    var drift := DriftBp(InTenths(mids));
    var active := executed > 0;
    var criteria := AbsorptionCriteria(|population|, rank, add, total, drift);
    var met := active && |population| >= 30 && rank >= ABSORPTION_EXECUTED_PERCENTILE && add >= need
      && drift <= ABSORPTION_MAX_DRIFT_BP;
    verdict := Verdict(met, if active then Confident(Scores(criteria)) else Flat);
    ConjunctionIsVerdict(criteria, active);
    assert AllMet(criteria) <==> Met(criteria[0]) && Met(criteria[1]) && Met(criteria[2]) && Met(criteria[3]);
  }

  method JudgePull(
    ghost usable: seq<TileColumn>, ghost context: seq<BandSample>, low: real, high: real,
    samples: nat, executed: int, cancelled: int, population: seq<int>, mids: seq<int>)
    returns (verdict: Verdict)
    requires samples == |usable| > 0 && |context| == |population| && Cancels(context) == Decs(population)
    requires executed == RegionTotal(usable, Eaten, low, high) && cancelled == RegionTotal(usable, Cancel, low, high)
    requires InTenths(mids) == MidsOf(usable)
    ensures verdict == PullVerdict(usable, context, low, high)
  {
    hide RegionTotal, PercentileRank, PercentileRankInt, Score, Scores, Quantize, MidsOf, Approaching;
    var rank := PercentileRankInt(population, cancelled, samples);
    RanksAgree(population, cancelled, samples);
    var approaching := Approaching(InTenths(mids), (low + high) / 2.0);
    var cap := Dec(cancelled) * PULL_EXECUTED_RATIO;
    var active := cancelled > 0;
    var criteria := PullCriteria(|population|, approaching, rank, Dec(executed), Dec(cancelled));
    var met := active && |population| >= 30 && approaching && rank >= PULL_CANCEL_PERCENTILE && Dec(executed) <= cap;
    verdict := Verdict(met, if active then Confident(Scores(criteria)) else Flat);
    ConjunctionIsVerdict(criteria, active);
    assert AllMet(criteria) <==> Met(criteria[0]) && Met(criteria[1]) && Met(criteria[2]) && Met(criteria[3]);
  }

  method JudgeSweep(run: Run, baseline: nat) returns (verdict: Verdict)
    requires run.span <= SWEEP_MAX_BUCKETS
    ensures verdict == SweepVerdict(run, baseline)
  {
    hide Score, Scores, Quantize;
    var criteria := SweepCriteria(baseline, run);
    var met := run.levels >= SWEEP_MIN_LEVELS && baseline >= 30;
    verdict := Verdict(met, if run.levels > 0 then Confident(Scores(criteria)) else Flat);
    ConjunctionIsVerdict(criteria, run.levels > 0);
    assert AllMet(criteria) <==> Met(criteria[0]) && Met(criteria[1]) && Met(criteria[2]);
  }

  method JudgeVacuum(
    ghost usable: seq<TileColumn>, ghost context: seq<BandSample>, ghost low: real, ghost high: real,
    depths: seq<int>, population: seq<int>)
    returns (verdict: Verdict)
    requires usable != [] && AreTotals(depths, usable, Qty, low, high)
    requires |context| == |population| && Depths(context) == Decs(population)
    ensures verdict == VacuumVerdict(usable, context, low, high)
  {
    hide PercentileRank, PercentileRankInt, Score, Scores, Quantize, AreTotals, LowestDepth;
    assert depths != [] by { DepthsGiven(depths, usable, low, high); }
    var least := Least(depths);
    LeastIsLowestDepth(depths, usable, low, high);
    var rank := PercentileRankInt(population, least, 1);
    RanksAgree(population, least, 1);
    assert Dec(least) / (1 as real) == Dec(least);
    var criteria := VacuumCriteria(|population|, rank);
    var met := rank <= VACUUM_DEPTH_PERCENTILE && |population| >= 30;
    verdict := Verdict(met, Confident(Scores(criteria)));
    ConjunctionIsVerdict(criteria, true);
    assert AllMet(criteria) <==> Met(criteria[0]) && Met(criteria[1]);
  }

  lemma DepthsGiven(depths: seq<int>, usable: seq<TileColumn>, low: real, high: real)
    requires usable != [] && AreTotals(depths, usable, Qty, low, high)
    ensures depths != []
  {
  }

  /**
   The sweep's judgement of one window. Its verdicts, strengths, swept run and spoofing flag are
   the library's on the same window, band and baseline, and it declines a window exactly when no
   usable column carries a mid price.
   */
  method JudgeWindow(g: Grid, ghost columns: seq<TileColumn>, start: nat, width: nat, bp: real)
    returns (report: Option<Report>)
    requires TileFile(columns) && Represents(g, columns)
    requires start + width <= |columns| && BandFits(columns, start, width, bp)
    ensures report == WindowJudgement(columns, start, width, bp)
  {
    hide Represents, TileFile, Usable, Median, Tenths, RowsFit, BandTotal, RegionTotal, SamplesOf, AbsorptionVerdict;
    hide PullVerdict, VacuumVerdict, SweepVerdict, SpoofingSuspicion, SweepRun, MidsOf, AreTotals, Sum, Pick;
    hide Rounds, BandAround, Ceil, Decs;
    var scan := ScanPositions(g, columns, start, start + width);
    ghost var usable := Usable(columns[start..start + width]);
    if scan == [] {
      return None;
    }
    var mids := ScannedMids(g, columns, scan);
    if mids == [] {
      return None;
    }
    var center := Median(mids);
    var band := BandAround(center, bp);
    var low, high := band.low, band.high;
    RoundsToRows(low, high);
    var lo, hi := Ceil(low), high.Floor;
    var dayEaten, dayCancel, dayQty, dayAdd := BandArrays(g, columns, lo, hi);
    DayLength(g, columns);
    var keep := ScanPositions(g, columns, 0, |g.gap|);
    assert columns[0..|columns|] == columns;
    ghost var context := SamplesOf(Usable(columns), low, high);
    TotalsAgree(dayEaten, columns, scan, Eaten, low, high, lo, hi);
    TotalsAgree(dayCancel, columns, scan, Cancel, low, high, lo, hi);
    TotalsAgree(dayQty, columns, scan, Qty, low, high, lo, hi);
    TotalsAgree(dayAdd, columns, scan, Add, low, high, lo, hi);
    TotalsAgree(dayEaten, columns, keep, Eaten, low, high, lo, hi);
    TotalsAgree(dayCancel, columns, keep, Cancel, low, high, lo, hi);
    TotalsAgree(dayQty, columns, keep, Qty, low, high, lo, hi);
    PopulationsAgree(Pick(dayEaten, keep), Pick(dayCancel, keep), Pick(dayQty, keep), Usable(columns), low, high);
    MidsAreTenths(usable);
    var executed, cancelled := Sum(Pick(dayEaten, scan)), Sum(Pick(dayCancel, scan));
    var absorption := JudgeAbsorption(
      usable, context, low, high, |scan|, executed, Sum(Pick(dayAdd, scan)), Pick(dayEaten, keep), mids);
    var pull := JudgePull(usable, context, low, high, |scan|, executed, cancelled, Pick(dayCancel, keep), mids);
    var spoofing := Spoofing(g, columns, scan, lo, hi, Pick(dayCancel, keep));
    SpoofingRounds(usable, Cancels(context), low, high, lo, hi);
    var run := SweepRunOf(g, columns, scan, lo, hi);
    RunRounds(usable, low, high, lo, hi);
    SweepRunIsShort(usable, low, high, 1.0);
    var sweep := JudgeSweep(run, |keep|);
    var vacuum := JudgeVacuum(usable, context, low, high, Pick(dayQty, scan), Pick(dayQty, keep));
    report := Some(Report(absorption, pull, spoofing, sweep, run, vacuum));
  }

  lemma RunRounds(columns: seq<TileColumn>, low: real, high: real, lo: int, hi: int)
    requires Rounds(low, high, lo, hi)
    ensures SweepRun(columns, low, high, 1.0) == SweepRun(columns, lo as real, hi as real, 1.0)
  {
    hide Hits, BestOver;
    HitsRound(columns, Ask, low, high, lo, hi);
    HitsRound(columns, Bid, low, high, lo, hi);
  }

  lemma DayLength(g: Grid, columns: seq<TileColumn>)
    requires Represents(g, columns)
    ensures |g.gap| == |columns|
  {
  }
}
