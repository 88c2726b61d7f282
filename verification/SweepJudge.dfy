/**
 The sweep script's judge (`sweep_book_features.py`, closed mode) on the array form, with
 integers, prefix sums and cross-multiplied percentiles. It returns what the library's
 analysis returns on the same window, band and day.
 */
module SweepJudge {
  import opened Numbers
  import opened Options
  import opened Sorting
  import opened Strength
  import opened RegionSpec
  import opened DayGrid
  import opened BandQuery

  // ----- Percentiles without division

  function CountCross(population: seq<int>, num: int, den: int): nat {
    if population == [] then 0
    else CountCross(population[..|population| - 1], num, den)
         + if population[|population| - 1] * den <= num then 1 else 0
  }

  function PercentileRankInt(population: seq<int>, num: int, den: int): real {
    if population == [] then 0.0
    else Hundredths(Quantize(CountCross(population, num, den) as real / |population| as real))
  }

  function Decs(units: seq<int>): seq<real> {
    seq(|units|, i requires 0 <= i < |units| => Dec(units[i]))
  }

  lemma CrossMultiplied(p: int, num: int, den: int)
    requires den > 0
    ensures p * den <= num <==> Dec(p) <= Dec(num) / den as real
  {
    var d := den as real;
    var share := Dec(num) / d;
    assert share * d == Dec(num);
    SignOfProduct(share - Dec(p), d);
    assert (share - Dec(p)) * d == Dec(num) - Dec(p) * d;
    assert (p * den) as real == p as real * d;
    assert Dec(p) * d == (p * den) as real / 100000000.0;
  }

  /** Ranking by cross-multiplication is ranking the rational mean. */
  lemma {:induction false} CountsAgree(population: seq<int>, num: int, den: int)
    requires den > 0
    ensures CountCross(population, num, den) == CountAtMost(Decs(population), Dec(num) / den as real)
  {
    if population != [] {
      var n := |population| - 1;
      CountsAgree(population[..n], num, den);
      CrossMultiplied(population[n], num, den);
      assert Decs(population)[..n] == Decs(population[..n]);
    }
  }

  lemma RanksAgree(population: seq<int>, num: int, den: int)
    requires den > 0
    ensures PercentileRankInt(population, num, den) == PercentileRank(Decs(population), Dec(num) / den as real)
  {
    CountsAgree(population, num, den);
  }

  // ----- Whole-number bands

  function Ceil(x: real): int { -((-x).Floor) }

  predicate RowInBand(b: int, low: real, high: real) { low <= b as real <= high }

  /** `lo..hi` are the whole rows of the band `low..high`. */
  ghost predicate Rounds(low: real, high: real, lo: int, hi: int) {
    forall b: int :: RowInBand(b, low, high) <==> lo <= b <= hi
  }

  lemma RoundsToRows(low: real, high: real)
    ensures Rounds(low, high, Ceil(low), high.Floor)
  {
  }

  lemma {:induction false} TotalsRound(cells: seq<TileCell>, q: Quantity, low: real, high: real, lo: int, hi: int)
    requires Rounds(low, high, lo, hi)
    ensures BandTotal(cells, q, low, high) == BandTotal(cells, q, lo as real, hi as real)
  {
    if cells != [] {
      TotalsRound(cells[..|cells| - 1], q, low, high, lo, hi);
      assert RowInBand(cells[|cells| - 1].bin, low, high) <==> lo <= cells[|cells| - 1].bin <= hi;
    }
  }

  // ----- Reading a column out of the arrays

  ghost predicate Scans(columns: seq<TileColumn>, scan: seq<nat>) {
    forall k :: 0 <= k < |scan| ==> scan[k] < |columns|
  }

  /** The columns at the scanned positions. */
  ghost function At(columns: seq<TileColumn>, scan: seq<nat>): (r: seq<TileColumn>)
    requires Scans(columns, scan)
    ensures |r| == |scan|
    ensures forall k :: 0 <= k < |r| ==> r[k] == columns[scan[k]]
  {
    seq(|scan|, k requires 0 <= k < |scan| => columns[scan[k]])
  }

  lemma ColumnInArrays(g: Grid, columns: seq<TileColumn>, p: nat)
    requires Represents(g, columns) && p < |columns|
    ensures |g.cellStart| == |columns| + 1
    ensures g.cellStart[p + 1] == g.cellStart[p] + |columns[p].cells| <= |g.bin|
    ensures |g.bin| == |g.side| == |g.qty| == |g.cancel| == |g.eaten|
  {
    StartsRise(g, columns, p + 1, |columns|);
  }

  lemma CellInArrays(g: Grid, columns: seq<TileColumn>, p: nat, j: nat)
    requires Represents(g, columns) && p < |columns| && j < |columns[p].cells|
    ensures var k := g.cellStart[p] + j; Holds(g, k, p, columns[p].cells[j])
  {
    assert HoldsColumn(g, p, columns[p].cells);
  }

  // ----- The suspicious cancel

  lemma BestStep(best: Best, at: int, cells: seq<TileCell>, j: nat, lo: int, hi: int)
    requires j < |cells|
    ensures var before := BestInCells(best, at, cells[..j], lo as real, hi as real);
      BestInCells(best, at, cells[..j + 1], lo as real, hi as real)
        == if lo <= cells[j].bin <= hi && cells[j].cancel > before.cancel
           then Best(at, cells[j].bin, cells[j].cancel) else before
  {
    assert cells[..j + 1][..j] == cells[..j];
  }

  lemma BestStarts(best: Best, at: int, cells: seq<TileCell>, low: real, high: real)
    ensures BestInCells(best, at, cells[..0], low, high) == best
    ensures cells[..|cells|] == cells
  {
  }

  /** `np.argmax` of the cancels masked to the band: the leftmost largest. */
  method TopCancel(g: Grid, ghost columns: seq<TileColumn>, p: nat, lo: int, hi: int, ghost best: Best, ghost at: nat)
    returns (top: int, bin: int)
    requires Represents(g, columns) && p < |columns| && best.cancel >= 0
    ensures top >= 0
    ensures BestInCells(best, at, columns[p].cells, lo as real, hi as real)
         == if top > best.cancel then Best(at, bin, top) else best
  {
    hide BestInCells;
    ColumnInArrays(g, columns, p);
    hide Represents;
    ghost var cells := columns[p].cells;
    BestStarts(best, at, cells, lo as real, hi as real);
    var start := g.cellStart[p];
    top, bin := 0, 0;
    for j := 0 to g.cellStart[p + 1] - start
      invariant top >= 0
      invariant BestInCells(best, at, cells[..j], lo as real, hi as real)
             == if top > best.cancel then Best(at, bin, top) else best
    {
      BestStep(best, at, cells, j, lo, hi);
      CellInArrays(g, columns, p, j);
      var masked := if lo <= g.bin[start + j] <= hi then g.cancel[start + j] else 0;
      if masked > top {
        top, bin := masked, g.bin[start + j];
      }
    }
  }

  function Rows(cells: seq<TileCell>): seq<int> {
    seq(|cells|, j requires 0 <= j < |cells| => cells[j].bin)
  }

  /** Rows being distinct, the row found by search is the only one that could stand. */
  lemma StandsBySearch(c: TileColumn, bin: int, lo: int, hi: int)
    requires RowsAscend(c.cells) && lo <= bin <= hi
    ensures Ordered(Rows(c.cells))
    ensures var found := LeftOf(Rows(c.cells), bin);
      StandsAt(c, bin, lo as real, hi as real) <==>
        (found < |c.cells| && c.cells[found].bin == bin && c.cells[found].qty > 0)
  {
    hide LeftOf;
    var cells := c.cells;
    var rows, found := Rows(cells), LeftOf(Rows(cells), bin);
    forall i | 0 <= i < |cells| && cells[i].bin == bin ensures i == found {
      assert rows[i] == bin && i >= found;
      assert rows[found] >= bin;
    }
  }

  lemma RowsInArrays(g: Grid, columns: seq<TileColumn>, p: nat)
    requires Represents(g, columns) && p < |columns|
    ensures g.cellStart[p + 1] <= |g.bin| && g.cellStart[p] <= g.cellStart[p + 1]
    ensures g.bin[g.cellStart[p]..g.cellStart[p + 1]] == Rows(columns[p].cells)
  {
    ColumnInArrays(g, columns, p);
    hide Represents;
    forall j | 0 <= j < |columns[p].cells| ensures g.bin[g.cellStart[p] + j] == columns[p].cells[j].bin {
      CellInArrays(g, columns, p, j);
    }
  }

  /** Whether the row stands in the column: one binary search in its rows. */
  method Stands(g: Grid, ghost columns: seq<TileColumn>, p: nat, bin: int, ghost lo: int, ghost hi: int)
    returns (present: bool)
    requires TileFile(columns) && Represents(g, columns) && p < |columns| && lo <= bin <= hi
    ensures present == StandsAt(columns[p], bin, lo as real, hi as real)
  {
    hide Represents, LeftOf, RowsAscend, Ordered, StandsAt;
    ColumnInArrays(g, columns, p);
    RowsInArrays(g, columns, p);
    StandsBySearch(columns[p], bin, lo, hi);
    var start, stop := g.cellStart[p], g.cellStart[p + 1];
    var segment := g.bin[start..stop];
    assert |segment| == |columns[p].cells|;
    var found := SearchSorted(segment, bin);
    if found < |segment| {
      CellInArrays(g, columns, p, found);
    }
    present := found < |segment| && segment[found] == bin && g.qty[start + found] > 0;
  }

  lemma {:induction false} BestInCellsIsInBand(best: Best, at: int, cells: seq<TileCell>, low: real, high: real)
    requires best.at >= 0 ==> low <= best.bin as real <= high
    ensures var r := BestInCells(best, at, cells, low, high); r.at >= 0 ==> low <= r.bin as real <= high
  {
    if cells != [] {
      BestInCellsIsInBand(best, at, cells[..|cells| - 1], low, high);
    }
  }

  lemma {:induction false} BestIsInBand(columns: seq<TileColumn>, low: real, high: real)
    ensures var best := BestInColumns(columns, low, high); best.at >= 0 ==> low <= best.bin as real <= high
  {
    if columns != [] {
      var n := |columns| - 1;
      BestIsInBand(columns[..n], low, high);
      BestInCellsIsInBand(BestInColumns(columns[..n], low, high), n, columns[n].cells, low, high);
    }
  }

  method Spoofing(g: Grid, ghost columns: seq<TileColumn>, scan: seq<nat>, lo: int, hi: int, population: seq<int>)
    returns (suspected: bool)
    requires TileFile(columns) && Represents(g, columns) && Scans(columns, scan)
    ensures suspected == SpoofingSuspicion(At(columns, scan), Decs(population), lo as real, hi as real)
  {
    hide Represents, TileFile, PercentileRank, PercentileRankInt, Dec, Lifetime;
    ghost var scanned := At(columns, scan);
    var bestCancel, bestBin, bestAt := 0, -1, -1;
    ghost var best := NO_BEST;
    for at := 0 to |scan|
      invariant best == BestInColumns(scanned[..at], lo as real, hi as real)
      invariant bestAt == best.at && bestCancel == best.cancel >= 0 && (bestAt >= 0 ==> bestBin == best.bin)
    {
      assert scanned[..at + 1][..at] == scanned[..at];
      var top, bin := TopCancel(g, columns, scan[at], lo, hi, best, at);
      if top > bestCancel {
        bestCancel, bestBin, bestAt := top, bin, at;
        best := Best(at, bin, top);
      }
    }
    assert scanned[..|scan|] == scanned;
    BestBounds(scanned, lo as real, hi as real);
    BestIsInBand(scanned, lo as real, hi as real);
    if bestAt < 0 || bestCancel <= 0 {
      return false;
    }
    RankOfOne(population, bestCancel);
    if PercentileRankInt(population, bestCancel, 1) < SPOOFING_CANCEL_PERCENTILE {
      return false;
    }
    var lifetime := LifetimeBefore(g, columns, scan, bestAt, bestBin, lo, hi);
    return 0 < lifetime <= SPOOFING_MAX_LIFETIME_BUCKETS;
  }

  lemma RankOfOne(population: seq<int>, value: int)
    ensures PercentileRankInt(population, value, 1) == PercentileRank(Decs(population), Dec(value))
  {
    RanksAgree(population, value, 1);
    assert Dec(value) / 1.0 == Dec(value);
  }

  /** Consecutive scanned columns just before `stop` in which the row stands. */
  method LifetimeBefore(
    g: Grid, ghost columns: seq<TileColumn>, scan: seq<nat>, stop: nat, bin: int, lo: int, hi: int)
    returns (lifetime: nat)
    requires TileFile(columns) && Represents(g, columns) && Scans(columns, scan)
    requires stop <= |scan| && lo <= bin <= hi
    ensures lifetime == Lifetime(At(columns, scan)[..stop], bin, lo as real, hi as real)
  {
    hide Represents, TileFile;
    ghost var scanned := At(columns, scan);
    lifetime := 0;
    for at := 0 to stop
      invariant lifetime == Lifetime(scanned[..at], bin, lo as real, hi as real)
    {
      assert scanned[..at + 1][..at] == scanned[..at];
      var present := Stands(g, columns, scan[at], bin, lo, hi);
      lifetime := if present then lifetime + 1 else 0;
    }
  }

  // ----- The swept run

  method SweptRows(g: Grid, ghost columns: seq<TileColumn>, scan: seq<nat>, lo: int, hi: int)
    returns (ask: map<int, nat>, bid: map<int, nat>)
    requires Represents(g, columns) && Scans(columns, scan)
    ensures ask == Hits(At(columns, scan), Ask, lo as real, hi as real)
    ensures bid == Hits(At(columns, scan), Bid, lo as real, hi as real)
  {
    hide Represents;
    ghost var scanned := At(columns, scan);
    ask, bid := map[], map[];
    for at := 0 to |scan|
      invariant ask == Hits(scanned[..at], Ask, lo as real, hi as real)
      invariant bid == Hits(scanned[..at], Bid, lo as real, hi as real)
    {
      assert scanned[..at + 1][..at] == scanned[..at];
      ask, bid := SweptInColumn(g, columns, scan[at], at, lo, hi, ask, bid);
    }
    assert scanned[..|scan|] == scanned;
  }

  method SweptInColumn(
    g: Grid, ghost columns: seq<TileColumn>, p: nat, at: nat, lo: int, hi: int, ask0: map<int, nat>, bid0: map<int, nat>)
    returns (ask: map<int, nat>, bid: map<int, nat>)
    requires Represents(g, columns) && p < |columns|
    ensures ask == HitsInCells(ask0, at, columns[p].cells, Ask, lo as real, hi as real)
    ensures bid == HitsInCells(bid0, at, columns[p].cells, Bid, lo as real, hi as real)
  {
    hide HitsInCells;
    ColumnInArrays(g, columns, p);
    hide Represents;
    ghost var cells := columns[p].cells;
    HitsStart(ask0, at, cells, Ask, lo as real, hi as real);
    HitsStart(bid0, at, cells, Bid, lo as real, hi as real);
    var start := g.cellStart[p];
    ask, bid := ask0, bid0;
    for j := 0 to g.cellStart[p + 1] - start
      invariant ask == HitsInCells(ask0, at, cells[..j], Ask, lo as real, hi as real)
      invariant bid == HitsInCells(bid0, at, cells[..j], Bid, lo as real, hi as real)
    {
      HitsStep(ask0, at, cells, j, Ask, lo, hi);
      HitsStep(bid0, at, cells, j, Bid, lo, hi);
      CellInArrays(g, columns, p, j);
      var k := start + j;
      if lo <= g.bin[k] <= hi && g.eaten[k] > 0 && g.qty[k] == 0 {
        if g.side[k] == 0 && g.bin[k] !in ask {
          ask := ask[g.bin[k] := at];
        } else if g.side[k] == 1 && g.bin[k] !in bid {
          bid := bid[g.bin[k] := at];
        }
      }
    }
  }

  lemma HitsStep(hits: map<int, nat>, at: nat, cells: seq<TileCell>, j: nat, side: Side, lo: int, hi: int)
    requires j < |cells|
    ensures var before := HitsInCells(hits, at, cells[..j], side, lo as real, hi as real); var c := cells[j];
      HitsInCells(hits, at, cells[..j + 1], side, lo as real, hi as real)
        == if lo <= c.bin <= hi && c.eaten > 0 && c.qty == 0 && c.side == side && c.bin !in before
           then before[c.bin := at] else before
  {
    assert cells[..j + 1][..j] == cells[..j];
  }

  lemma HitsStart(hits: map<int, nat>, at: nat, cells: seq<TileCell>, side: Side, low: real, high: real)
    ensures HitsInCells(hits, at, cells[..0], side, low, high) == hits
    ensures cells[..|cells|] == cells
  {
  }

  method ScanSide(best: Run, hits: map<int, nat>, side: Side) returns (r: Run)
    ensures r == BestOver(best, hits, side, 1.0)
  {
    hide SpanOf, SortedKeys, BestOnSide, RunStart;
    var bins := SortedKeys(hits.Keys);
    var runStart := 0;
    r := best;
    NoRowsYet(best, hits, bins, side, 1.0);
    for at := 0 to |bins|
      invariant at > 0 ==> runStart == RunStart(bins, at - 1, 1.0)
      invariant at == 0 ==> runStart == 0
      invariant r == BestOnSide(best, hits, bins, at, side, 1.0)
    {
      if at > 0 && bins[at] - bins[at - 1] != 1 {
        runStart := at;
      }
      RunStartStep(bins, at, 1.0);
      BestOnSideStep(best, hits, bins, at + 1, side, 1.0);
      var length := at - runStart + 1;
      var span := SpanOf(hits, bins, runStart, at + 1);
      if length > r.levels && span <= SWEEP_MAX_BUCKETS {
        r := Run(length, span, Some(side));
      }
    }
  }

  method SweepRunOf(g: Grid, ghost columns: seq<TileColumn>, scan: seq<nat>, lo: int, hi: int) returns (r: Run)
    requires Represents(g, columns) && Scans(columns, scan)
    ensures r == SweepRun(At(columns, scan), lo as real, hi as real, 1.0)
  {
    var ask, bid := SweptRows(g, columns, scan, lo, hi);
    r := ScanSide(NO_RUN, ask, Ask);
    r := ScanSide(r, bid, Bid);
  }
}
