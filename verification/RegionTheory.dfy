/**
 What the judged quantities mean: the swept run is the best one there is, the suspicious
 cancel is the first largest, and the lifetime counts an unbroken stand.
 */
module RegionTheory {
  import opened Numbers
  import opened Options
  import opened Sorting
  import opened Strength
  import opened RegionSpec

  // ----- Ranks and drift

  lemma {:induction false} CountRises(population: seq<real>, a: real, b: real)
    requires a <= b
    ensures CountAtMost(population, a) <= CountAtMost(population, b)
  {
    if population != [] {
      CountRises(population[..|population| - 1], a, b);
    }
  }

  lemma ShareRises(a: nat, b: nat, n: nat)
    requires a <= b && n > 0
    ensures a as real / n as real <= b as real / n as real
  {
    QuotientRises(a as real, b as real, n as real);
  }

  /**
   A percentile is within half a hundredth of the share of samples not above the value, and a larger
   value never ranks lower.
   */
  lemma RankFollowsShare(population: seq<real>, a: real, b: real)
    requires population != [] && a <= b
    ensures var share := CountAtMost(population, a) as real / |population| as real;
      -0.005 <= PercentileRank(population, a) - share <= 0.005
    ensures PercentileRank(population, a) <= PercentileRank(population, b)
  {
    hide CountAtMost, Quantize;
    var n := |population|;
    CountRises(population, a, b);
    ShareRises(CountAtMost(population, a), CountAtMost(population, b), n);
    QuantizeIsNear(CountAtMost(population, a) as real / n as real);
    QuantizeIsMonotone(CountAtMost(population, a) as real / n as real, CountAtMost(population, b) as real / n as real);
  }

  lemma ShareInHundredths(count: nat, n: nat, h: int)
    requires n > 0
    ensures var share := count as real / n as real;
      && (share * 100.0 >= h as real - 0.5 <==> 200 * count >= (2 * h - 1) * n)
      && (share * 100.0 > h as real - 0.5 <==> 200 * count > (2 * h - 1) * n)
  {
    ShareTwice(count as real, n as real, (2 * h - 1) as real);
    assert ((2 * h - 1) * n) as real == (2 * h - 1) as real * n as real;
    assert (200 * count) as real == 200.0 * count as real;
  }

  lemma ShareTwice(c: real, m: real, k: real)
    requires m > 0.0
    ensures c / m * 100.0 >= k / 2.0 <==> 200.0 * c >= k * m
    ensures c / m * 100.0 > k / 2.0 <==> 200.0 * c > k * m
  {
    var share := c / m;
    assert share * m == c;
    SignOfProduct(200.0 * share - k, m);
    assert (200.0 * share - k) * m == 200.0 * (share * m) - k * m;
  }

  /** The rank reaches `h` hundredths from a share of `h` - 1/2 per cent on, itself enough only for an even `h`. */
  lemma RankReachesShare(population: seq<real>, value: real, h: int)
    requires h > 0
    ensures var n := CountAtMost(population, value);
      PercentileRank(population, value) >= Hundredths(h) <==>
        if h % 2 == 0 then population != [] && 200 * n >= (2 * h - 1) * |population|
        else 200 * n > (2 * h - 1) * |population|
  {
    hide CountAtMost, Quantize;
    if population != [] {
      var share := CountAtMost(population, value) as real / |population| as real;
      QuantizeReaches(share, h);
      ShareInHundredths(CountAtMost(population, value), |population|, h);
    }
  }

  /** `x` lies between `low` and `high` times `k`. */
  ghost predicate Between(low: real, x: real, high: real, k: real) { low * k <= x <= high * k }

  lemma ScaledBounds(low: real, size: real, high: real, k: real)
    requires low <= size <= high && k > 0.0
    ensures Between(low, size * k, high, k)
  {
    assert (size - low) * k >= 0.0;
    assert (high - size) * k >= 0.0;
  }

  lemma RatioTimes(a: real, b: real)
    requires b > 0.0
    ensures Abs(a / b * 10000.0) * b == Abs(a) * 10000.0
  {
    var r := a / b;
    assert r * b == a;
    SignOfProduct(r, b);
    Swapped(r, 10000.0, b);
    Swapped(-r, 10000.0, b);
    assert (-r) * b == -a;
  }

  lemma DriftBounds(first: real, last: real)
    requires first > 0.0
    ensures var drift := Hundredths(Quantize(Abs((last - first) / first * 10000.0)));
      Between(drift - 0.005, Abs(last - first) * 10000.0, drift + 0.005, first)
  {
    hide *;
    var size := Abs((last - first) / first * 10000.0);
    RatioTimes(last - first, first);
    assert size * first == Abs(last - first) * 10000.0;
    QuantizedWithin(size);
    ScaledBounds(Hundredths(Quantize(size)) - 0.005, size, Hundredths(Quantize(size)) + 0.005, first);
  }

  lemma QuantizedWithin(x: real)
    ensures Hundredths(Quantize(x)) - 0.005 <= x <= Hundredths(Quantize(x)) + 0.005
  {
    QuantizeIsNear(x);
  }

  /**
   The drift is the distance from the first mid price to the last in basis points of the first, to
   within half a hundredth.
   */
  lemma DriftIsNear(mids: seq<real>)
    requires |mids| >= 2 && mids[0] > 0.0
    ensures Between(DriftBp(mids) - 0.005, Abs(mids[|mids| - 1] - mids[0]) * 10000.0, DriftBp(mids) + 0.005, mids[0])
  {
    hide Quantize, Between, Abs, Hundredths;
    DriftBounds(mids[0], mids[|mids| - 1]);
  }

  lemma Swapped(a: real, b: real, c: real)
    ensures (a * b) * c == (a * c) * b
  {
  }

  // ----- Shown but not met

  /**
   An absorption that is not met yet shows strength 0.50: thirty samples, the 95th percentile, no
   drift, and 99.5 added back where half of the executed 200 was asked for.
   */
  lemma NotMetButShowsHalf()
    ensures CriteriaResult(AbsorptionCriteria(30, 0.95, 99.5, 200.0, 0.0), true) == Verdict(false, Graded(50))
  {
    hide Confident, RowScores;
    var criteria := AbsorptionCriteria(30, 0.95, 99.5, 200.0, 0.0);
    ShownHalfMeansNearlyMet(criteria);
    VerdictFollowsWeakest(criteria);
    assert !Met(criteria[2]);
  }

  // ----- First hits

  /** Cell `j` is a row of the side, in the band, eaten and left empty. */
  ghost predicate EatenEmpty(cells: seq<TileCell>, j: int, bin: int, side: Side, low: real, high: real) {
    && 0 <= j < |cells| && cells[j].bin == bin && low <= bin as real <= high
    && cells[j].side == side && cells[j].eaten > 0 && cells[j].qty == 0
  }

  ghost predicate SweptAt(cells: seq<TileCell>, bin: int, side: Side, low: real, high: real) {
    exists j :: EatenEmpty(cells, j, bin, side, low, high)
  }

  lemma SweptAtSnoc(cells: seq<TileCell>, bin: int, side: Side, low: real, high: real)
    requires cells != []
    ensures var front, c := cells[..|cells| - 1], cells[|cells| - 1];
      SweptAt(cells, bin, side, low, high) <==>
        (SweptAt(front, bin, side, low, high) || (c.bin == bin && Swept(c, side, low, high)))
  {
    var n := |cells| - 1;
    var front := cells[..n];
    if SweptAt(front, bin, side, low, high) {
      var j :| EatenEmpty(front, j, bin, side, low, high);
      assert EatenEmpty(cells, j, bin, side, low, high);
    }
    if SweptAt(cells, bin, side, low, high) {
      var j :| EatenEmpty(cells, j, bin, side, low, high);
      assert j < n ==> EatenEmpty(front, j, bin, side, low, high);
    }
    assert cells[n].bin == bin && Swept(cells[n], side, low, high) ==> EatenEmpty(cells, n, bin, side, low, high);
  }

  lemma {:induction false} HitsInCellsMeaning(
    hits: map<int, nat>, at: nat, cells: seq<TileCell>, side: Side, low: real, high: real)
    ensures var r := HitsInCells(hits, at, cells, side, low, high);
      forall b :: b in r <==> b in hits || SweptAt(cells, b, side, low, high)
    ensures var r := HitsInCells(hits, at, cells, side, low, high);
      forall b :: b in r ==> r[b] == if b in hits then hits[b] else at
  {
    hide SweptAt;
    if cells != [] {
      var front, c := cells[..|cells| - 1], cells[|cells| - 1];
      HitsInCellsMeaning(hits, at, front, side, low, high);
      forall b ensures SweptAt(cells, b, side, low, high)
        <==> SweptAt(front, b, side, low, high) || (c.bin == b && Swept(c, side, low, high))
      {
        SweptAtSnoc(cells, b, side, low, high);
      }
    } else {
      NothingSwept(side, low, high);
    }
  }

  lemma NothingSwept(side: Side, low: real, high: real)
    ensures forall b :: !SweptAt([], b, side, low, high)
  {
  }

  ghost predicate FirstSweptIn(columns: seq<TileColumn>, k: nat, bin: int, side: Side, low: real, high: real) {
    && k < |columns| && SweptAt(columns[k].cells, bin, side, low, high)
    && forall i :: 0 <= i < k ==> !SweptAt(columns[i].cells, bin, side, low, high)
  }

  /** A row is hit exactly when some column sweeps it, and at the first column that does. */
  lemma {:induction false} HitsAreFirst(columns: seq<TileColumn>, side: Side, low: real, high: real, bin: int)
    ensures var hits := Hits(columns, side, low, high);
      bin in hits <==> exists k :: 0 <= k < |columns| && SweptAt(columns[k].cells, bin, side, low, high)
    ensures var hits := Hits(columns, side, low, high);
      bin in hits ==> FirstSweptIn(columns, hits[bin], bin, side, low, high)
  {
    hide SweptAt;
    if columns != [] {
      var n := |columns| - 1;
      HitsAreFirst(columns[..n], side, low, high, bin);
      HitsInCellsMeaning(Hits(columns[..n], side, low, high), n, columns[n].cells, side, low, high);
      assert forall k :: 0 <= k < n ==> columns[..n][k] == columns[k];
    }
  }

  // ----- The best run

  ghost predicate Neighbours(bins: seq<int>, at: nat, rowBin: real) {
    0 < at < |bins| && (bins[at] - bins[at - 1]) as real == rowBin
  }

  /** Rows `start..stop` open a maximal block of neighbouring rows. */
  ghost predicate OpensBlock(bins: seq<int>, start: nat, stop: nat, rowBin: real) {
    && start < stop <= |bins| && !Neighbours(bins, start, rowBin)
    && forall i :: start < i < stop ==> Neighbours(bins, i, rowBin)
  }

  /** The hits of rows `i` and `j` lie less than `width` columns apart. */
  ghost predicate Near(hits: map<int, nat>, bins: seq<int>, i: int, j: int, width: int) {
    0 <= i < |bins| && 0 <= j < |bins| && bins[i] in hits && bins[j] in hits && hits[bins[i]] < hits[bins[j]] + width
  }

  /** Every two hits of the stretch lie less than `width` columns apart. */
  ghost predicate Within(hits: map<int, nat>, bins: seq<int>, start: nat, stop: nat, width: int) {
    forall i, j :: start <= i < stop && start <= j < stop ==> Near(hits, bins, i, j, width)
  }

  /** The hits of rows `i` and `j` lie exactly `width` columns apart, both ends counted. */
  ghost predicate Spans(hits: map<int, nat>, bins: seq<int>, i: int, j: int, width: int) {
    0 <= i < |bins| && 0 <= j < |bins| && bins[i] in hits && bins[j] in hits && hits[bins[i]] + 1 == hits[bins[j]] + width
  }

  /** The stretch spans `width` columns: no two hits are further apart and two are just that far. */
  ghost predicate HasSpan(hits: map<int, nat>, bins: seq<int>, start: nat, stop: nat, width: int) {
    && Within(hits, bins, start, stop, width)
    && exists i, j :: start <= i < stop && start <= j < stop && Spans(hits, bins, i, j, width)
  }

  lemma {:induction false} LargestHit(hits: map<int, nat>, bins: seq<int>)
    requires bins != [] && forall i :: 0 <= i < |bins| ==> bins[i] in hits
    ensures forall i :: 0 <= i < |bins| ==> MinHit(hits, bins) <= hits[bins[i]] <= MaxHit(hits, bins)
    ensures exists i :: 0 <= i < |bins| && hits[bins[i]] == MaxHit(hits, bins)
    ensures exists i :: 0 <= i < |bins| && hits[bins[i]] == MinHit(hits, bins)
  {
    if |bins| > 1 {
      var rest := bins[1..];
      LargestHit(hits, rest);
      var i :| 0 <= i < |rest| && hits[rest[i]] == MaxHit(hits, rest);
      var j :| 0 <= j < |rest| && hits[rest[j]] == MinHit(hits, rest);
      assert bins[i + 1] == rest[i] && bins[j + 1] == rest[j];
      assert forall k :: 0 < k < |bins| ==> bins[k] == rest[k - 1];
    } else {
      assert hits[bins[0]] == MaxHit(hits, bins);
    }
  }

  /** The span is measured from the hits: no two rows of the stretch lie further apart, and two lie just that far. */
  lemma SpanIsMeasured(hits: map<int, nat>, bins: seq<int>, start: nat, stop: nat)
    requires start < stop <= |bins| && forall i :: 0 <= i < |bins| ==> bins[i] in hits
    ensures HasSpan(hits, bins, start, stop, SpanOf(hits, bins, start, stop))
  {
    var part, width := bins[start..stop], SpanOf(hits, bins, start, stop);
    LargestHit(hits, part);
    var i :| 0 <= i < |part| && hits[part[i]] == MaxHit(hits, part);
    var j :| 0 <= j < |part| && hits[part[j]] == MinHit(hits, part);
    assert stop - start == 1 ==> i == 0 && j == 0;
    forall k, l | start <= k < stop && start <= l < stop ensures Near(hits, bins, k, l, width) {
      assert bins[k] == part[k - start] && bins[l] == part[l - start];
    }
    assert Spans(hits, bins, start + i, start + j, width);
  }

  lemma SpanIsOne(hits: map<int, nat>, bins: seq<int>, start: nat, stop: nat, a: int, b: int)
    requires HasSpan(hits, bins, start, stop, a) && HasSpan(hits, bins, start, stop, b)
    ensures a == b
  {
    var i, j :| start <= i < stop && start <= j < stop && Spans(hits, bins, i, j, a);
    var k, l :| start <= k < stop && start <= l < stop && Spans(hits, bins, k, l, b);
    assert Near(hits, bins, i, j, b) && Near(hits, bins, k, l, a);
  }

  /** A stretch is within a width exactly when its span is no more. */
  lemma WithinBySpan(hits: map<int, nat>, bins: seq<int>, start: nat, stop: nat, width: int)
    requires start < stop <= |bins| && forall i :: 0 <= i < |bins| ==> bins[i] in hits
    ensures Within(hits, bins, start, stop, width) <==> SpanOf(hits, bins, start, stop) <= width
  {
    hide SpanOf;
    SpanIsMeasured(hits, bins, start, stop);
    var span := SpanOf(hits, bins, start, stop);
    var i, j :| start <= i < stop && start <= j < stop && Spans(hits, bins, i, j, span);
    if Within(hits, bins, start, stop, width) {
      assert Near(hits, bins, i, j, width);
    }
    if span <= width {
      forall k, l | start <= k < stop && start <= l < stop ensures Near(hits, bins, k, l, width) {
        assert Near(hits, bins, k, l, span);
      }
    }
  }

  ghost predicate Candidate(hits: map<int, nat>, bins: seq<int>, start: nat, stop: nat, rowBin: real) {
    && (forall i :: 0 <= i < |bins| ==> bins[i] in hits)
    && OpensBlock(bins, start, stop, rowBin) && Within(hits, bins, start, stop, 3)
  }

  lemma {:induction false} RunStartOpens(bins: seq<int>, at: nat, rowBin: real)
    requires at < |bins|
    ensures OpensBlock(bins, RunStart(bins, at, rowBin), at + 1, rowBin)
  {
    if Neighbours(bins, at, rowBin) {
      RunStartOpens(bins, at - 1, rowBin);
    }
  }

  /** Each row belongs to one block. */
  lemma {:induction false} BlockIsRunStart(bins: seq<int>, start: nat, at: nat, rowBin: real)
    requires OpensBlock(bins, start, at + 1, rowBin)
    ensures start == RunStart(bins, at, rowBin)
  {
    if start < at {
      assert Neighbours(bins, at, rowBin);
      BlockIsRunStart(bins, start, at - 1, rowBin);
    }
  }

  /** No opening stretch among the first `n` rows that meets the span is longer than `most`. */
  ghost predicate NoneLonger(most: int, hits: map<int, nat>, bins: seq<int>, n: int, rowBin: real) {
    forall start: nat, stop: nat :: stop <= n && Candidate(hits, bins, start, stop, rowBin) ==> stop - start <= most
  }

  /** `r` is the stretch `start..stop`, and every stretch that ends earlier is shorter. */
  ghost predicate IsStretch(r: Run, hits: map<int, nat>, bins: seq<int>, start: nat, stop: nat, rowBin: real) {
    && Candidate(hits, bins, start, stop, rowBin) && r.levels == stop - start
    && HasSpan(hits, bins, start, stop, r.span) && NoneLonger(r.levels - 1, hits, bins, stop - 1, rowBin)
  }

  ghost predicate IsOn(r: Run, hits: map<int, nat>, bins: seq<int>, rowBin: real) {
    exists start: nat, stop: nat :: IsStretch(r, hits, bins, start, stop, rowBin)
  }

  /** The stretches that end at row `n - 1`: only the one from where its block opens counts. */
  lemma OneRowMore(before: Run, hits: map<int, nat>, bins: seq<int>, n: nat, side: Side, rowBin: real)
    requires 0 < n <= |bins| && forall i :: 0 <= i < |bins| ==> bins[i] in hits
    requires NoneLonger(before.levels, hits, bins, n - 1, rowBin)
    ensures var start := RunStart(bins, n - 1, rowBin); var span := SpanOf(hits, bins, start, n);
      if n - start > before.levels && span <= SWEEP_MAX_BUCKETS
      then NoneLonger(n - start, hits, bins, n, rowBin)
           && IsStretch(Run(n - start, span, Some(side)), hits, bins, start, n, rowBin)
      else NoneLonger(before.levels, hits, bins, n, rowBin)
  {
    hide SpanOf, RunStart, OpensBlock, Within, HasSpan;
    RunStartOpens(bins, n - 1, rowBin);
    SpanIsMeasured(hits, bins, RunStart(bins, n - 1, rowBin), n);
    WithinBySpan(hits, bins, RunStart(bins, n - 1, rowBin), n, 3);
    forall from: nat | OpensBlock(bins, from, n, rowBin) ensures from == RunStart(bins, n - 1, rowBin) {
      OpensInside(bins, from, n, rowBin);
      BlockIsRunStart(bins, from, n - 1, rowBin);
    }
  }

  lemma OpensInside(bins: seq<int>, start: nat, stop: nat, rowBin: real)
    requires OpensBlock(bins, start, stop, rowBin)
    ensures start < stop <= |bins|
  {
  }

  lemma {:induction false} BestOnSideIsBest(
    best: Run, hits: map<int, nat>, bins: seq<int>, n: nat, side: Side, rowBin: real)
    requires n <= |bins| && forall i :: 0 <= i < |bins| ==> bins[i] in hits
    ensures var r := BestOnSide(best, hits, bins, n, side, rowBin);
      && r.levels >= best.levels && NoneLonger(r.levels, hits, bins, n, rowBin)
      && (r == best || (r.side == Some(side) && r.levels > best.levels && IsOn(r, hits, bins, rowBin)))
  {
    if n > 0 {
      hide SpanOf, RunStart, BestOnSide, NoneLonger, IsStretch;
      BestOnSideIsBest(best, hits, bins, n - 1, side, rowBin);
      BestOnSideStep(best, hits, bins, n, side, rowBin);
      OneRowMore(BestOnSide(best, hits, bins, n - 1, side, rowBin), hits, bins, n, side, rowBin);
    }
  }

  /**
   `r` is the longest opening stretch of both sides that meets the span: of several the one that
   ends at the lowest price, and of both sides the ask unless the bid is strictly longer.
   */
  ghost predicate IsBestRun(r: Run, ask: map<int, nat>, bid: map<int, nat>, rowBin: real) {
    var a, b := SortedKeys(ask.Keys), SortedKeys(bid.Keys);
    && NoneLonger(r.levels, ask, a, |a|, rowBin) && NoneLonger(r.levels, bid, b, |b|, rowBin)
    && (r == NO_RUN
        || (r.side == Some(Ask) && IsOn(r, ask, a, rowBin))
        || (r.side == Some(Bid) && IsOn(r, bid, b, rowBin) && NoneLonger(r.levels - 1, ask, a, |a|, rowBin)))
  }

  /**
   The reported run is one-sided, price-consecutive from where its block opens and hit within the
   allowed columns; no block of either side has a longer opening stretch that meets the span, and
   ties go to the lower prices and to the ask.
   */
  lemma SweepRunIsBest(columns: seq<TileColumn>, low: real, high: real, rowBin: real)
    ensures IsBestRun(SweepRun(columns, low, high, rowBin),
                      Hits(columns, Ask, low, high), Hits(columns, Bid, low, high), rowBin)
  {
    hide Hits, SortedKeys, NoneLonger, IsOn, BestOnSide;
    var ask, bid := Hits(columns, Ask, low, high), Hits(columns, Bid, low, high);
    var a, b := SortedKeys(ask.Keys), SortedKeys(bid.Keys);
    var first := BestOnSide(NO_RUN, ask, a, |a|, Ask, rowBin);
    var r := BestOnSide(first, bid, b, |b|, Bid, rowBin);
    BestOnSideIsBest(NO_RUN, ask, a, |a|, Ask, rowBin);
    BestOnSideIsBest(first, bid, b, |b|, Bid, rowBin);
    LongerStill(first.levels, r.levels, ask, a, rowBin);
    if r.levels > first.levels {
      LongerStill(first.levels, r.levels - 1, ask, a, rowBin);
    }
  }

  lemma LongerStill(less: int, more: int, hits: map<int, nat>, bins: seq<int>, rowBin: real)
    requires NoneLonger(less, hits, bins, |bins|, rowBin) && less <= more
    ensures NoneLonger(more, hits, bins, |bins|, rowBin)
  {
  }

  /** Nothing is reported exactly when no row of either side was swept. */
  lemma NoRunMeansNothingSwept(columns: seq<TileColumn>, low: real, high: real, rowBin: real)
    requires rowBin > 0.0
    ensures SweepRun(columns, low, high, rowBin).levels == 0
      <==> Hits(columns, Ask, low, high) == map[] && Hits(columns, Bid, low, high) == map[]
  {
    hide Hits;
    var r, ask, bid := SweepRun(columns, low, high, rowBin), Hits(columns, Ask, low, high), Hits(columns, Bid, low, high);
    SweepRunIsBest(columns, low, high, rowBin);
    SomeCandidate(r, ask, rowBin);
    SomeCandidate(r, bid, rowBin);
  }

  lemma SomeCandidate(r: Run, hits: map<int, nat>, rowBin: real)
    requires NoneLonger(r.levels, hits, SortedKeys(hits.Keys), |SortedKeys(hits.Keys)|, rowBin)
    ensures hits != map[] ==> r.levels > 0
  {
    hide SortedKeys;
    var bins := SortedKeys(hits.Keys);
    if hits != map[] {
      assert |bins| > 0 by { assert |hits.Keys| != 0 || hits.Keys == {}; }
      assert Candidate(hits, bins, 0, 1, rowBin);
    }
  }

  // ----- The suspicious cancel

  /** `r` is cell `j` of column `at`, in the band. */
  ghost predicate IsCell(r: Best, at: int, cells: seq<TileCell>, j: nat, low: real, high: real) {
    j < |cells| && low <= cells[j].bin as real <= high && r == Best(at, cells[j].bin, cells[j].cancel)
  }

  /** No in-band cell cancels more than `most`. */
  ghost predicate NoneAbove(cells: seq<TileCell>, most: int, low: real, high: real) {
    forall j :: 0 <= j < |cells| && low <= cells[j].bin as real <= high ==> cells[j].cancel <= most
  }

  /** `r` is cell `j` of column `at`, and no in-band cell before it in the column cancels as much. */
  ghost predicate IsFirstCell(r: Best, at: int, cells: seq<TileCell>, j: nat, low: real, high: real) {
    IsCell(r, at, cells, j, low, high) && NoneAbove(cells[..j], r.cancel - 1, low, high)
  }

  lemma {:induction false} BestInCellsIsLargest(best: Best, at: int, cells: seq<TileCell>, low: real, high: real)
    ensures var r := BestInCells(best, at, cells, low, high);
      && NoneAbove(cells, r.cancel, low, high)
      && (r == best || exists j :: IsFirstCell(r, at, cells, j, low, high))
  {
    if cells != [] {
      var n := |cells| - 1;
      BestInCellsIsLargest(best, at, cells[..n], low, high);
      assert forall j :: 0 <= j < n ==> cells[..n][j] == cells[j];
      var before, r := BestInCells(best, at, cells[..n], low, high), BestInCells(best, at, cells, low, high);
      if r != before {
        assert IsFirstCell(r, at, cells, n, low, high);
      } else if r != best {
        var j: nat :| IsFirstCell(r, at, cells[..n], j, low, high);
        assert cells[..n][..j] == cells[..j];
        assert IsFirstCell(r, at, cells, j, low, high);
      }
    }
  }

  /** `best` is the largest cancel of the band: of several the first column's, and its lowest row's. */
  ghost predicate IsFirstLargest(best: Best, columns: seq<TileColumn>, low: real, high: real) {
    && best.at < |columns|
    && (forall i :: 0 <= i < |columns| ==> NoneAbove(columns[i].cells, best.cancel, low, high))
    && (forall i :: 0 <= i < best.at ==> NoneAbove(columns[i].cells, best.cancel - 1, low, high))
    && (best.at >= 0 ==> exists j :: IsFirstCell(best, best.at, columns[best.at].cells, j, low, high))
  }

  /** What one more column makes of the best: it stays, or it is the first cell of the column that beats it. */
  lemma OneColumnMore(before: Best, best: Best, columns: seq<TileColumn>, low: real, high: real)
    requires columns != [] && before.at < |columns| - 1 && best.cancel >= before.cancel
    requires IsFirstLargest(before, columns[..|columns| - 1], low, high)
    requires var n := |columns| - 1;
      && NoneAbove(columns[n].cells, best.cancel, low, high)
      && (best == before || (best.at == n && best.cancel > before.cancel
                             && exists j :: IsFirstCell(best, n, columns[n].cells, j, low, high)))
    ensures IsFirstLargest(best, columns, low, high)
  {
    hide NoneAbove, IsFirstCell;
    var n := |columns| - 1;
    forall i | 0 <= i < n
      ensures NoneAbove(columns[i].cells, best.cancel, low, high)
      ensures best != before ==> NoneAbove(columns[i].cells, best.cancel - 1, low, high)
    {
      assert columns[..n][i] == columns[i];
      LessStill(columns[i].cells, before.cancel, best.cancel, low, high);
      if best != before {
        LessStill(columns[i].cells, before.cancel, best.cancel - 1, low, high);
      }
    }
    assert forall i :: 0 <= i <= before.at ==> columns[..n][i] == columns[i];
  }

  /** The scan finds the first of the largest cancels of the band. */
  lemma {:induction false} BestIsFirstLargest(columns: seq<TileColumn>, low: real, high: real)
    ensures IsFirstLargest(BestInColumns(columns, low, high), columns, low, high)
  {
    if columns != [] {
      hide BestInCells, NoneAbove, IsFirstCell, IsFirstLargest;
      var n := |columns| - 1;
      var before := BestInColumns(columns[..n], low, high);
      BestIsFirstLargest(columns[..n], low, high);
      BestBounds(columns[..n], low, high);
      BestInCellsIsLargest(before, n, columns[n].cells, low, high);
      BestInCellsBounds(before, n, columns[n].cells, low, high);
      OneColumnMore(before, BestInColumns(columns, low, high), columns, low, high);
    }
  }

  lemma LessStill(cells: seq<TileCell>, less: int, more: int, low: real, high: real)
    requires NoneAbove(cells, less, low, high) && less <= more
    ensures NoneAbove(cells, more, low, high)
  {
  }

  /** There is only one first of the largest. */
  lemma FirstLargestIsOne(a: Best, b: Best, columns: seq<TileColumn>, low: real, high: real)
    requires IsFirstLargest(a, columns, low, high) && IsFirstLargest(b, columns, low, high)
    requires a.at >= 0 && b.at >= 0
    ensures a == b
  {
    var i: nat :| IsFirstCell(a, a.at, columns[a.at].cells, i, low, high);
    var j: nat :| IsFirstCell(b, b.at, columns[b.at].cells, j, low, high);
    assert columns[a.at].cells[i].cancel == a.cancel == b.cancel by {
      assert NoneAbove(columns[a.at].cells, b.cancel, low, high) && NoneAbove(columns[b.at].cells, a.cancel, low, high);
    }
    assert !NoneAbove(columns[a.at].cells, b.cancel - 1, low, high);
    assert !NoneAbove(columns[b.at].cells, a.cancel - 1, low, high);
    assert a.at == b.at;
    PrefixBound(columns[a.at].cells, i, a.cancel - 1, low, high);
    PrefixBound(columns[a.at].cells, j, a.cancel - 1, low, high);
  }

  lemma PrefixBound(cells: seq<TileCell>, j: nat, most: int, low: real, high: real)
    requires j <= |cells| && NoneAbove(cells[..j], most, low, high)
    ensures forall t :: 0 <= t < j && low <= cells[t].bin as real <= high ==> cells[t].cancel <= most
  {
    assert forall t :: 0 <= t < j ==> cells[..j][t] == cells[t];
  }

  /** Some in-band cell of the row has quantity. */
  ghost predicate RowStands(c: TileColumn, bin: int, low: real, high: real) {
    low <= bin as real <= high && exists i :: 0 <= i < |c.cells| && c.cells[i].bin == bin && c.cells[i].qty > 0
  }

  lemma StandingMeans(c: TileColumn, bin: int, low: real, high: real)
    ensures StandsAt(c, bin, low, high) <==> RowStands(c, bin, low, high)
  {
  }

  /** The row stood in exactly the last `n` columns before column `at`, without a break. */
  ghost predicate StoodFor(columns: seq<TileColumn>, at: nat, bin: int, n: nat, low: real, high: real)
    requires at <= |columns|
  {
    && n <= at && (forall k :: at - n <= k < at ==> RowStands(columns[k], bin, low, high))
    && (n < at ==> !RowStands(columns[at - n - 1], bin, low, high))
  }

  /** What is suspicious: a large cancel of a row that stood, but not for long. */
  ghost predicate IsSuspicious(
    best: Best, n: nat, columns: seq<TileColumn>, population: seq<real>, low: real, high: real)
  {
    && best.at >= 0 && best.cancel > 0 && IsFirstLargest(best, columns, low, high)
    && 200 * CountAtMost(population, Dec(best.cancel)) > 189 * |population|
    && 1 <= n <= 60 && StoodFor(columns, best.at, best.bin, n, low, high)
  }

  /**
   The suspicion is raised exactly when the first of the largest cancels exceeds or equals more than
   94.5% of the day's samples and its row had stood for one to sixty columns just before it, and no longer.
   */
  lemma SuspicionIsShortStand(columns: seq<TileColumn>, population: seq<real>, low: real, high: real)
    ensures SpoofingSuspicion(columns, population, low, high)
      <==> exists best: Best, n: nat :: IsSuspicious(best, n, columns, population, low, high)
  {
    hide BestInColumns, Lifetime, PercentileRank, RowStands, IsFirstLargest;
    var best := BestInColumns(columns, low, high);
    BestIsFirstLargest(columns, low, high);
    BestBounds(columns, low, high);
    RankReachesShare(population, Dec(best.cancel), 95);
    if best.at >= 0 {
      var n := Lifetime(columns[..best.at], best.bin, low, high);
      LifetimeIsUnbroken(columns[..best.at], best.bin, low, high);
      assert StoodFor(columns, best.at, best.bin, n, low, high);
      assert SpoofingSuspicion(columns, population, low, high) ==> IsSuspicious(best, n, columns, population, low, high);
    }
    if b: Best, m: nat :| IsSuspicious(b, m, columns, population, low, high) {
      SomethingCancelled(best, b, columns, low, high);
      FirstLargestIsOne(best, b, columns, low, high);
      OneStand(columns, best.at, best.bin, m, Lifetime(columns[..best.at], best.bin, low, high), low, high);
    }
  }

  lemma SomethingCancelled(best: Best, other: Best, columns: seq<TileColumn>, low: real, high: real)
    requires IsFirstLargest(best, columns, low, high) && IsFirstLargest(other, columns, low, high)
    requires other.at >= 0 && other.cancel > 0 && (best.at < 0 ==> best == NO_BEST)
    ensures best.at >= 0
  {
    var j: nat :| IsFirstCell(other, other.at, columns[other.at].cells, j, low, high);
    assert NoneAbove(columns[other.at].cells, best.cancel, low, high);
  }

  lemma OneStand(columns: seq<TileColumn>, at: nat, bin: int, m: nat, n: nat, low: real, high: real)
    requires at <= |columns| && StoodFor(columns, at, bin, m, low, high) && StoodFor(columns, at, bin, n, low, high)
    ensures m == n
  {
    hide RowStands;
  }

  /** The lifetime is the length of the unbroken stand just before the end. */
  lemma {:induction false} LifetimeIsUnbroken(columns: seq<TileColumn>, bin: int, low: real, high: real)
    ensures var n := Lifetime(columns, bin, low, high);
      && n <= |columns|
      && (forall k :: |columns| - n <= k < |columns| ==> RowStands(columns[k], bin, low, high))
      && (n < |columns| ==> !RowStands(columns[|columns| - n - 1], bin, low, high))
  {
    hide RowStands, StandsAt;
    if columns != [] {
      StandingMeans(columns[|columns| - 1], bin, low, high);
      var front := columns[..|columns| - 1];
      LifetimeIsUnbroken(front, bin, low, high);
      assert forall k :: 0 <= k < |front| ==> front[k] == columns[k];
    }
  }
}
