/**
 The library's judge (`book_features.py`): it walks the cells of every column and works
 on decimals throughout.
 */
module RegionJudge {
  import opened Options
  import opened Sorting
  import opened Strength
  import opened RegionSpec

  /** The in-band totals of one column; nothing for a gap or a carried column. */
  method BandSampleOf(column: TileColumn, low: real, high: real) returns (sample: Option<BandSample>)
    ensures sample == if Counts(column) then Some(SampleOf(column, low, high)) else None
  {
    if column.gap || column.carried {
      return None;
    }
    var executed, netCancel, depth := 0.0, 0.0, 0.0;
    for at := 0 to |column.cells|
      invariant executed == Dec(BandTotal(column.cells[..at], Eaten, low, high))
      invariant netCancel == Dec(BandTotal(column.cells[..at], Cancel, low, high))
      invariant depth == Dec(BandTotal(column.cells[..at], Qty, low, high))
    {
      assert column.cells[..at + 1][..at] == column.cells[..at];
      var cell := column.cells[at];
      if InBand(cell, low, high) {
        executed := executed + Dec(cell.eaten);
        netCancel := netCancel + Dec(cell.cancel);
        depth := depth + Dec(cell.qty);
      }
    }
    assert column.cells[..|column.cells|] == column.cells;
    return Some(BandSample(executed, netCancel, depth));
  }

  method SpoofingSuspicionOf(columns: seq<TileColumn>, population: seq<real>, low: real, high: real)
    returns (suspected: bool)
    ensures suspected == SpoofingSuspicion(columns, population, low, high)
  {
    var bestAt, bestBin, bestCancel := -1, 0, 0.0;
    ghost var best := NO_BEST;
    for at := 0 to |columns|
      invariant best == BestInColumns(columns[..at], low, high)
      invariant bestAt == best.at && bestBin == best.bin && bestCancel == Dec(best.cancel)
    {
      assert columns[..at + 1][..at] == columns[..at];
      var cells := columns[at].cells;
      ghost var before := best;
      for k := 0 to |cells|
        invariant best == BestInCells(before, at, cells[..k], low, high)
        invariant bestAt == best.at && bestBin == best.bin && bestCancel == Dec(best.cancel)
      {
        assert cells[..k + 1][..k] == cells[..k];
        if InBand(cells[k], low, high) && Dec(cells[k].cancel) > bestCancel {
          bestCancel, bestBin, bestAt := Dec(cells[k].cancel), cells[k].bin, at;
          best := Best(at, cells[k].bin, cells[k].cancel);
        }
      }
      assert cells[..|cells|] == cells;
    }
    assert columns[..|columns|] == columns;
    BestBounds(columns, low, high);
    if bestAt < 0 || bestCancel <= 0.0 {
      return false;
    }
    if PercentileRank(population, bestCancel) < SPOOFING_CANCEL_PERCENTILE {
      return false;
    }
    var lifetime := LifetimeBefore(columns, bestAt, bestBin, low, high);
    return 0 < lifetime <= SPOOFING_MAX_LIFETIME_BUCKETS;
  }

  /** Consecutive columns just before `stop` in which the row stands. */
  method LifetimeBefore(columns: seq<TileColumn>, stop: nat, bin: int, low: real, high: real)
    returns (lifetime: nat)
    requires stop <= |columns|
    ensures lifetime == Lifetime(columns[..stop], bin, low, high)
  {
    lifetime := 0;
    for at := 0 to stop
      invariant lifetime == Lifetime(columns[..at], bin, low, high)
    {
      assert columns[..at + 1][..at] == columns[..at];
      var cells := columns[at].cells;
      var present := false;
      for k := 0 to |cells|
        invariant !present
        invariant forall i :: 0 <= i < k ==>
          !(cells[i].bin == bin && InBand(cells[i], low, high) && cells[i].qty > 0)
      {
        if InBand(cells[k], low, high) && cells[k].bin == bin && Dec(cells[k].qty) > 0.0 {
          present := true;
          break;
        }
      }
      assert present == StandsAt(columns[at], bin, low, high);
      lifetime := if present then lifetime + 1 else 0;
    }
  }

  /** First column in which each row of both sides was swept. */
  method SweptRows(columns: seq<TileColumn>, low: real, high: real)
    returns (ask: map<int, nat>, bid: map<int, nat>)
    ensures ask == Hits(columns, Ask, low, high) && bid == Hits(columns, Bid, low, high)
  {
    ask, bid := map[], map[];
    for at := 0 to |columns|
      invariant ask == Hits(columns[..at], Ask, low, high) && bid == Hits(columns[..at], Bid, low, high)
    {
      assert columns[..at + 1][..at] == columns[..at];
      var cells := columns[at].cells;
      ghost var ask0, bid0 := ask, bid;
      for k := 0 to |cells|
        invariant ask == HitsInCells(ask0, at, cells[..k], Ask, low, high)
        invariant bid == HitsInCells(bid0, at, cells[..k], Bid, low, high)
      {
        assert cells[..k + 1][..k] == cells[..k];
        var cell := cells[k];
        if InBand(cell, low, high) && Dec(cell.eaten) > 0.0 && Dec(cell.qty) == 0.0 {
          if cell.side == Ask && cell.bin !in ask {
            ask := ask[cell.bin := at];
          } else if cell.side == Bid && cell.bin !in bid {
            bid := bid[cell.bin := at];
          }
        }
      }
      assert cells[..|cells|] == cells;
    }
    assert columns[..|columns|] == columns;
  }

  /** The scan of one side's swept rows in price order. */
  method ScanSide(best: Run, hits: map<int, nat>, side: Side, rowBin: real) returns (r: Run)
    ensures r == BestOver(best, hits, side, rowBin)
  {
    hide SpanOf, SortedKeys, BestOnSide, RunStart;
    var bins := SortedKeys(hits.Keys);
    var runStart := 0;
    r := best;
    NoRowsYet(best, hits, bins, side, rowBin);
    for at := 0 to |bins|
      invariant at > 0 ==> runStart == RunStart(bins, at - 1, rowBin)
      invariant at == 0 ==> runStart == 0
      invariant r == BestOnSide(best, hits, bins, at, side, rowBin)
    {
      if at > 0 && (bins[at] - bins[at - 1]) as real != rowBin {
        runStart := at;
      }
      RunStartStep(bins, at, rowBin);
      BestOnSideStep(best, hits, bins, at + 1, side, rowBin);
      var length := at - runStart + 1;
      var span := SpanOf(hits, bins, runStart, at + 1);
      if length > r.levels && span <= SWEEP_MAX_BUCKETS {
        r := Run(length, span, Some(side));
      }
    }
  }

  method JudgeSweep(columns: seq<TileColumn>, low: real, high: real, rowBin: real, baseline: nat)
    returns (verdict: Verdict, run: Run)
    ensures run == SweepRun(columns, low, high, rowBin) && verdict == SweepVerdict(run, baseline)
  {
    var ask, bid := SweptRows(columns, low, high);
    run := ScanSide(NO_RUN, ask, Ask, rowBin);
    run := ScanSide(run, bid, Bid, rowBin);
    verdict := CriteriaResult(SweepCriteria(baseline, run), run.levels > 0);
  }

  method AnalyzeRegion(
    columns: seq<TileColumn>, context: seq<BandSample>, low: real, high: real, rowBin: real)
    returns (report: Report)
    ensures report == Analysis(columns, context, low, high, rowBin)
  {
    hide BandTotal, PercentileRank, DriftBp, Approaching, CriteriaResult, AbsorptionCriteria, PullCriteria;
    hide VacuumCriteria, LowestDepth, Executeds, Cancels, Depths, SpoofingSuspicion, SweepRun;
    hide AbsorptionVerdict, PullVerdict, VacuumVerdict, SweepVerdict, Mean;
    var usable: seq<TileColumn>, samples: seq<BandSample>, mids: seq<real> := [], [], [];
    var executedSum, cancelSum, addSum := 0.0, 0.0, 0.0;
    for at := 0 to |columns|
      invariant usable == Usable(columns[..at])
      invariant samples == SamplesOf(usable, low, high)
      invariant mids == MidsOf(usable)
      invariant executedSum == Dec(RegionTotal(usable, Eaten, low, high))
      invariant cancelSum == Dec(RegionTotal(usable, Cancel, low, high))
      invariant addSum == Dec(RegionTotal(usable, Add, low, high))
    {
      assert columns[..at + 1][..at] == columns[..at];
      var column := columns[at];
      var sample := BandSampleOf(column, low, high);
      if sample.Some? {
        var added := BandAdded(column.cells, low, high);
        assert (usable + [column])[..|usable|] == usable;
        usable, samples := usable + [column], samples + [sample.value];
        executedSum := executedSum + sample.value.executed;
        cancelSum := cancelSum + sample.value.netCancel;
        addSum := addSum + added;
        if column.mid.Some? {
          mids := mids + [column.mid.value as real / 10.0];
        }
      }
    }
    assert columns[..|columns|] == columns;
    var baseline := |context|;
    VerdictsFromSums(usable, context, low, high, samples, mids);
    var absorption := CriteriaResult(
      AbsorptionCriteria(
        baseline, PercentileRank(Executeds(context), Mean(executedSum, |samples|)), addSum, executedSum,
        DriftBp(mids)),
      samples != [] && executedSum > 0.0);
    var pull := CriteriaResult(
      PullCriteria(
        baseline, Approaching(mids, (low + high) / 2.0),
        PercentileRank(Cancels(context), Mean(cancelSum, |samples|)), executedSum, cancelSum),
      samples != [] && cancelSum > 0.0);
    var spoofing := SpoofingSuspicionOf(usable, Cancels(context), low, high);
    var sweep, run := JudgeSweep(usable, low, high, rowBin, baseline);
    var vacuum := Verdict(false, Flat);
    if samples != [] {
      vacuum := CriteriaResult(
        VacuumCriteria(baseline, PercentileRank(Depths(context), LowestDepth(samples))), true);
    }
    report := Report(absorption, pull, spoofing, sweep, run, vacuum);
  }

  /** The three verdicts drawn from the window's sums, samples and mid prices. */
  lemma VerdictsFromSums(
    usable: seq<TileColumn>, context: seq<BandSample>, low: real, high: real, samples: seq<BandSample>, mids: seq<real>)
    requires samples == SamplesOf(usable, low, high) && mids == MidsOf(usable)
    ensures var executed, added := Dec(RegionTotal(usable, Eaten, low, high)), Dec(RegionTotal(usable, Add, low, high));
      AbsorptionVerdict(usable, context, low, high) == CriteriaResult(
        AbsorptionCriteria(
          |context|, PercentileRank(Executeds(context), Mean(executed, |samples|)), added, executed, DriftBp(mids)),
        samples != [] && executed > 0.0)
    ensures var executed, cancelled :=
      Dec(RegionTotal(usable, Eaten, low, high)), Dec(RegionTotal(usable, Cancel, low, high));
      PullVerdict(usable, context, low, high) == CriteriaResult(
        PullCriteria(
          |context|, Approaching(mids, (low + high) / 2.0),
          PercentileRank(Cancels(context), Mean(cancelled, |samples|)), executed, cancelled),
        samples != [] && cancelled > 0.0)
    ensures VacuumVerdict(usable, context, low, high)
      == if samples == [] then Verdict(false, Flat)
         else CriteriaResult(VacuumCriteria(|context|, PercentileRank(Depths(context), LowestDepth(samples))), true)
  {
    hide RegionTotal, PercentileRank, DriftBp, Approaching, CriteriaResult, AbsorptionCriteria, PullCriteria;
    hide VacuumCriteria, LowestDepth, Executeds, Cancels, Depths, MidsOf, Mean, Dec;
    assert samples == [] <==> usable == [];
  }

  method BandAdded(cells: seq<TileCell>, low: real, high: real) returns (added: real)
    ensures added == Dec(BandTotal(cells, Add, low, high))
  {
    added := 0.0;
    for at := 0 to |cells|
      invariant added == Dec(BandTotal(cells[..at], Add, low, high))
    {
      assert cells[..at + 1][..at] == cells[..at];
      if InBand(cells[at], low, high) {
        added := added + Dec(cells[at].add);
      }
    }
    assert cells[..|cells|] == cells;
  }
}
