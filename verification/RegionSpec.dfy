/**
 What judging a price band means, said once over the tile columns themselves: the band
 totals, the percentile of a sample, the suspicious cancel, the swept run and the four verdicts.
 Quantities are whole numbers of 1e-8; `Dec` is their decimal value.
 */
module RegionSpec {
  import opened Numbers
  import opened Options
  import opened Sorting
  import opened Strength

  datatype Side = Ask | Bid | Both | Void

  /** One price row of one column: closing quantity and what was added, cancelled and eaten. */
  datatype TileCell = TileCell(bin: int, side: Side, qty: int, add: int, cancel: int, eaten: int)

  /** `mid` is the mid price in tenths. */
  datatype TileColumn = TileColumn(gap: bool, carried: bool, mid: Option<int>, cells: seq<TileCell>)

  datatype Quantity = Eaten | Cancel | Qty | Add

  function Amount(c: TileCell, q: Quantity): int {
    match q
    case Eaten => c.eaten
    case Cancel => c.cancel
    case Qty => c.qty
    case Add => c.add
  }

  function Dec(units: int): (d: real)
    ensures d * 100000000.0 == units as real
  {
    units as real / 100000000.0
  }

  predicate InBand(c: TileCell, low: real, high: real) { low <= c.bin as real <= high }

  function BandTotal(cells: seq<TileCell>, q: Quantity, low: real, high: real): int {
    if cells == [] then 0
    else
      var c := cells[|cells| - 1];
      BandTotal(cells[..|cells| - 1], q, low, high) + if InBand(c, low, high) then Amount(c, q) else 0
  }

  /** Gap columns and carried columns take no part in any judgement. */
  predicate Counts(c: TileColumn) { !c.gap && !c.carried }

  function Usable(columns: seq<TileColumn>): seq<TileColumn> {
    if columns == [] then []
    else
      var front := Usable(columns[..|columns| - 1]);
      if Counts(columns[|columns| - 1]) then front + [columns[|columns| - 1]] else front
  }

  datatype BandSample = BandSample(executed: real, netCancel: real, depth: real)

  function SampleOf(c: TileColumn, low: real, high: real): BandSample {
    BandSample(Dec(BandTotal(c.cells, Eaten, low, high)), Dec(BandTotal(c.cells, Cancel, low, high)),
               Dec(BandTotal(c.cells, Qty, low, high)))
  }

  function SamplesOf(columns: seq<TileColumn>, low: real, high: real): (r: seq<BandSample>)
    ensures |r| == |columns|
    ensures forall i :: 0 <= i < |r| ==> r[i] == SampleOf(columns[i], low, high)
  {
    seq(|columns|, i requires 0 <= i < |columns| => SampleOf(columns[i], low, high))
  }

  /** The total of one quantity over the band and all the columns. */
  function RegionTotal(columns: seq<TileColumn>, q: Quantity, low: real, high: real): int {
    if columns == [] then 0
    else RegionTotal(columns[..|columns| - 1], q, low, high)
         + BandTotal(columns[|columns| - 1].cells, q, low, high)
  }

  function MidsOf(columns: seq<TileColumn>): seq<real> {
    if columns == [] then []
    else
      var front := MidsOf(columns[..|columns| - 1]);
      match columns[|columns| - 1].mid
      case None => front
      case Some(m) => front + [m as real / 10.0]
  }

  // ----- Percentile

  /** Share of samples not above the value, at two places; zero for no samples. */
  function PercentileRank(population: seq<real>, value: real): real {
    if population == [] then 0.0
    else Hundredths(Quantize(CountAtMost(population, value) as real / |population| as real))
  }

  // ----- The suspicious cancel

  /** The largest cancel so far; `at` is -1 while there is none. */
  datatype Best = Best(at: int, bin: int, cancel: int)

  const NO_BEST := Best(-1, 0, 0)

  function BestInCells(best: Best, at: int, cells: seq<TileCell>, low: real, high: real): Best {
    if cells == [] then best
    else
      var before := BestInCells(best, at, cells[..|cells| - 1], low, high);
      var c := cells[|cells| - 1];
      if InBand(c, low, high) && c.cancel > before.cancel then Best(at, c.bin, c.cancel) else before
  }

  function BestInColumns(columns: seq<TileColumn>, low: real, high: real): Best {
    if columns == [] then NO_BEST
    else
      var n := |columns| - 1;
      BestInCells(BestInColumns(columns[..n], low, high), n, columns[n].cells, low, high)
  }

  predicate StandsAt(c: TileColumn, bin: int, low: real, high: real) {
    exists i :: 0 <= i < |c.cells| && c.cells[i].bin == bin && InBand(c.cells[i], low, high) && c.cells[i].qty > 0
  }

  /** For how many columns up to the end the row has stood without a break. */
  function Lifetime(columns: seq<TileColumn>, bin: int, low: real, high: real): nat {
    if columns == [] then 0
    else if StandsAt(columns[|columns| - 1], bin, low, high)
    then Lifetime(columns[..|columns| - 1], bin, low, high) + 1 else 0
  }

  const SPOOFING_CANCEL_PERCENTILE := 0.95
  const SPOOFING_MAX_LIFETIME_BUCKETS := 60

  lemma {:induction false} BestInCellsBounds(best: Best, at: int, cells: seq<TileCell>, low: real, high: real)
    ensures var r := BestInCells(best, at, cells, low, high);
      r.cancel >= best.cancel && (r == best || (r.at == at && r.cancel > best.cancel))
  {
    if cells != [] {
      BestInCellsBounds(best, at, cells[..|cells| - 1], low, high);
    }
  }

  lemma {:induction false} BestBounds(columns: seq<TileColumn>, low: real, high: real)
    ensures var best := BestInColumns(columns, low, high);
      && -1 <= best.at < |columns| && (best.at == -1 <==> best == NO_BEST)
      && best.cancel >= 0 && (best.at >= 0 <==> best.cancel > 0)
  {
    if columns != [] {
      var n := |columns| - 1;
      BestBounds(columns[..n], low, high);
      BestInCellsBounds(BestInColumns(columns[..n], low, high), n, columns[n].cells, low, high);
    }
  }

  function SpoofingSuspicion(columns: seq<TileColumn>, population: seq<real>, low: real, high: real): bool {
    var best := BestInColumns(columns, low, high);
    BestBounds(columns, low, high);
    && best.at >= 0
    && PercentileRank(population, Dec(best.cancel)) >= SPOOFING_CANCEL_PERCENTILE
    && 0 < Lifetime(columns[..best.at], best.bin, low, high) <= SPOOFING_MAX_LIFETIME_BUCKETS
  }

  // ----- The swept run

  predicate Swept(c: TileCell, side: Side, low: real, high: real) {
    InBand(c, low, high) && c.eaten > 0 && c.qty == 0 && c.side == side
  }

  /** First column in which each price row of a side was eaten empty. */
  function HitsInCells(hits: map<int, nat>, at: nat, cells: seq<TileCell>, side: Side, low: real, high: real)
    : map<int, nat>
  {
    if cells == [] then hits
    else
      var before := HitsInCells(hits, at, cells[..|cells| - 1], side, low, high);
      var c := cells[|cells| - 1];
      if Swept(c, side, low, high) && c.bin !in before then before[c.bin := at] else before
  }

  function Hits(columns: seq<TileColumn>, side: Side, low: real, high: real): map<int, nat> {
    if columns == [] then map[]
    else
      var n := |columns| - 1;
      HitsInCells(Hits(columns[..n], side, low, high), n, columns[n].cells, side, low, high)
  }

  const SWEEP_MIN_LEVELS := 3
  const SWEEP_MAX_BUCKETS := 3

  datatype Run = Run(levels: nat, span: nat, side: Option<Side>)

  const NO_RUN := Run(0, 0, None)

  function MaxHit(hits: map<int, nat>, bins: seq<int>): nat
    requires bins != [] && forall i :: 0 <= i < |bins| ==> bins[i] in hits
  {
    if |bins| == 1 then hits[bins[0]]
    else
      var rest := MaxHit(hits, bins[1..]);
      if hits[bins[0]] >= rest then hits[bins[0]] else rest
  }

  function MinHit(hits: map<int, nat>, bins: seq<int>): nat
    requires bins != [] && forall i :: 0 <= i < |bins| ==> bins[i] in hits
  {
    if |bins| == 1 then hits[bins[0]]
    else
      var rest := MinHit(hits, bins[1..]);
      if hits[bins[0]] <= rest then hits[bins[0]] else rest
  }

  lemma {:induction false} MinBelowMax(hits: map<int, nat>, bins: seq<int>)
    requires bins != [] && forall i :: 0 <= i < |bins| ==> bins[i] in hits
    ensures MinHit(hits, bins) <= MaxHit(hits, bins)
  {
    if |bins| > 1 {
      MinBelowMax(hits, bins[1..]);
    }
  }

  /** Columns from the first hit to the last, of the rows `start..stop`. */
  function SpanOf(hits: map<int, nat>, bins: seq<int>, start: nat, stop: nat): nat
    requires start < stop <= |bins| && forall i :: 0 <= i < |bins| ==> bins[i] in hits
  {
    if stop - start >= 2
    then
      MinBelowMax(hits, bins[start..stop]);
      MaxHit(hits, bins[start..stop]) - MinHit(hits, bins[start..stop]) + 1
    else 1
  }

  /** Where the maximal block of neighbouring rows that holds row `at` starts. */
  function RunStart(bins: seq<int>, at: nat, rowBin: real): (start: nat)
    requires at < |bins|
    ensures start <= at
  {
    if at > 0 && (bins[at] - bins[at - 1]) as real == rowBin then RunStart(bins, at - 1, rowBin) else at
  }

  /** The best run among the first `n` rows of a side, starting from what the other side gave. */
  function BestOnSide(best: Run, hits: map<int, nat>, bins: seq<int>, n: nat, side: Side, rowBin: real): Run
    requires n <= |bins| && forall i :: 0 <= i < |bins| ==> bins[i] in hits
  {
    if n == 0 then best
    else
      var before := BestOnSide(best, hits, bins, n - 1, side, rowBin);
      var start := RunStart(bins, n - 1, rowBin);
      var length, span := n - start, SpanOf(hits, bins, start, n);
      if length > before.levels && span <= SWEEP_MAX_BUCKETS then Run(length, span, Some(side)) else before
  }

  lemma RunStartStep(bins: seq<int>, at: nat, rowBin: real)
    requires at < |bins|
    ensures RunStart(bins, at, rowBin)
      == if at > 0 && (bins[at] - bins[at - 1]) as real == rowBin then RunStart(bins, at - 1, rowBin) else at
  {
  }

  lemma NoRowsYet(best: Run, hits: map<int, nat>, bins: seq<int>, side: Side, rowBin: real)
    requires forall i :: 0 <= i < |bins| ==> bins[i] in hits
    ensures BestOnSide(best, hits, bins, 0, side, rowBin) == best
  {
  }

  lemma BestOnSideStep(best: Run, hits: map<int, nat>, bins: seq<int>, n: nat, side: Side, rowBin: real)
    requires 0 < n <= |bins| && forall i :: 0 <= i < |bins| ==> bins[i] in hits
    ensures var before, start := BestOnSide(best, hits, bins, n - 1, side, rowBin), RunStart(bins, n - 1, rowBin);
      var span := SpanOf(hits, bins, start, n);
      BestOnSide(best, hits, bins, n, side, rowBin)
        == if n - start > before.levels && span <= SWEEP_MAX_BUCKETS then Run(n - start, span, Some(side)) else before
  {
    hide SpanOf, RunStart;
  }

  function BestOver(best: Run, hits: map<int, nat>, side: Side, rowBin: real): Run {
    var bins := SortedKeys(hits.Keys);
    BestOnSide(best, hits, bins, |bins|, side, rowBin)
  }

  function SweepRun(columns: seq<TileColumn>, low: real, high: real, rowBin: real): Run {
    BestOver(BestOver(NO_RUN, Hits(columns, Ask, low, high), Ask, rowBin), Hits(columns, Bid, low, high), Bid, rowBin)
  }

  // ----- The four verdicts

  const BASELINE_MIN_SAMPLES := 30.0
  const ABSORPTION_EXECUTED_PERCENTILE := 0.90
  const ABSORPTION_REPLENISH_RATIO := 0.5
  const ABSORPTION_MAX_DRIFT_BP := 5.0
  const PULL_CANCEL_PERCENTILE := 0.90
  const PULL_EXECUTED_RATIO := 0.25
  const VACUUM_DEPTH_PERCENTILE := 0.10

  function Baseline(samples: nat): Criterion { AtLeast(samples as real, BASELINE_MIN_SAMPLES) }

  function DriftBp(mids: seq<real>): real {
    if |mids| >= 2 && mids[0] > 0.0
    then Hundredths(Quantize(Abs((mids[|mids| - 1] - mids[0]) / mids[0] * 10000.0))) else 0.0
  }

  predicate Approaching(mids: seq<real>, center: real) {
    |mids| >= 2 && Abs(mids[|mids| - 1] - center) < Abs(mids[0] - center)
  }

  function AbsorptionCriteria(baseline: nat, rank: real, added: real, executed: real, drift: real): seq<Criterion> {
    [Baseline(baseline), AtLeast(rank, ABSORPTION_EXECUTED_PERCENTILE),
     AtLeast(added, executed * ABSORPTION_REPLENISH_RATIO), AtMost(drift, ABSORPTION_MAX_DRIFT_BP)]
  }

  function PullCriteria(baseline: nat, approaching: bool, rank: real, executed: real, cancelled: real)
    : seq<Criterion>
  {
    [Baseline(baseline), Is(approaching, true), AtLeast(rank, PULL_CANCEL_PERCENTILE),
     AtMost(executed, cancelled * PULL_EXECUTED_RATIO)]
  }

  function SweepCriteria(baseline: nat, run: Run): seq<Criterion> {
    [Baseline(baseline), AtLeast(run.levels as real, SWEEP_MIN_LEVELS as real),
     AtMost(run.span as real, SWEEP_MAX_BUCKETS as real)]
  }

  function VacuumCriteria(baseline: nat, rank: real): seq<Criterion> {
    [Baseline(baseline), AtMost(rank, VACUUM_DEPTH_PERCENTILE)]
  }

  function Mean(total: real, samples: nat): real {
    if samples == 0 then 0.0 else total / samples as real
  }

  function LowestDepth(samples: seq<BandSample>): real
    requires samples != []
  {
    MinOf(seq(|samples|, i requires 0 <= i < |samples| => samples[i].depth))
  }

  function Executeds(samples: seq<BandSample>): seq<real> {
    seq(|samples|, i requires 0 <= i < |samples| => samples[i].executed)
  }

  function Cancels(samples: seq<BandSample>): seq<real> {
    seq(|samples|, i requires 0 <= i < |samples| => samples[i].netCancel)
  }

  function Depths(samples: seq<BandSample>): seq<real> {
    seq(|samples|, i requires 0 <= i < |samples| => samples[i].depth)
  }

  datatype Report = Report(
    absorption: Verdict, pull: Verdict, spoofing: bool, sweep: Verdict, run: Run, vacuum: Verdict)

  function AbsorptionVerdict(usable: seq<TileColumn>, context: seq<BandSample>, low: real, high: real): Verdict {
    var executed := Dec(RegionTotal(usable, Eaten, low, high));
    CriteriaResult(
      AbsorptionCriteria(
        |context|, PercentileRank(Executeds(context), Mean(executed, |usable|)),
        Dec(RegionTotal(usable, Add, low, high)), executed, DriftBp(MidsOf(usable))),
      usable != [] && executed > 0.0)
  }

  function PullVerdict(usable: seq<TileColumn>, context: seq<BandSample>, low: real, high: real): Verdict {
    var cancelled := Dec(RegionTotal(usable, Cancel, low, high));
    CriteriaResult(
      PullCriteria(
        |context|, Approaching(MidsOf(usable), (low + high) / 2.0),
        PercentileRank(Cancels(context), Mean(cancelled, |usable|)),
        Dec(RegionTotal(usable, Eaten, low, high)), cancelled),
      usable != [] && cancelled > 0.0)
  }

  function SweepVerdict(run: Run, baseline: nat): Verdict {
    CriteriaResult(SweepCriteria(baseline, run), run.levels > 0)
  }

  function VacuumVerdict(usable: seq<TileColumn>, context: seq<BandSample>, low: real, high: real): Verdict {
    if usable == [] then Verdict(false, Flat)
    else
      CriteriaResult(
        VacuumCriteria(|context|, PercentileRank(Depths(context), LowestDepth(SamplesOf(usable, low, high)))), true)
  }

  /** The four verdicts on a window, against the samples of the day. */
  function Analysis(columns: seq<TileColumn>, context: seq<BandSample>, low: real, high: real, rowBin: real): Report {
    var usable := Usable(columns);
    var run := SweepRun(usable, low, high, rowBin);
    Report(
      AbsorptionVerdict(usable, context, low, high), PullVerdict(usable, context, low, high),
      SpoofingSuspicion(usable, Cancels(context), low, high), SweepVerdict(run, |context|), run,
      VacuumVerdict(usable, context, low, high))
  }
}
