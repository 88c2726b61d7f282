/**
 The band query of the array form: it equals walking the cells of every column, for every
 grid, exactly when the queried rows lie inside the range the composite key allows.
 */
module BandQuery {
  import opened Options
  import opened RegionSpec
  import opened DayGrid

  predicate Ordered(a: seq<int>) {
    forall i, j :: 0 <= i < j < |a| ==> a[i] <= a[j]
  }

  /** The leftmost place where `key` could be inserted. */
  function LeftOf(a: seq<int>, key: int): (k: nat)
    ensures k <= |a|
    ensures forall i :: 0 <= i < k ==> a[i] < key
    ensures k < |a| ==> a[k] >= key
  {
    if a == [] || a[0] >= key then 0 else 1 + LeftOf(a[1..], key)
  }

  lemma LeftOfIsUnique(a: seq<int>, key: int, k: nat)
    requires k <= |a|
    requires forall i :: 0 <= i < k ==> a[i] < key
    requires forall i :: k <= i < |a| ==> a[i] >= key
    ensures LeftOf(a, key) == k
  {
    var left := LeftOf(a, key);
    assert left < |a| ==> a[left] >= key;
    assert k < |a| ==> a[k] >= key;
  }

  lemma {:induction false} LeftOfRises(a: seq<int>, low: int, high: int)
    requires low <= high
    ensures LeftOf(a, low) <= LeftOf(a, high)
  {
    if a != [] {
      LeftOfRises(a[1..], low, high);
    }
  }

  /** `np.searchsorted` with its default side. */
  method SearchSorted(a: seq<int>, key: int) returns (k: nat)
    requires Ordered(a)
    ensures k == LeftOf(a, key)
  {
    var low, high := 0, |a|;
    while low < high
      invariant 0 <= low <= high <= |a|
      invariant forall i :: 0 <= i < low ==> a[i] < key
      invariant forall i :: high <= i < |a| ==> a[i] >= key
    {
      var middle := (low + high) / 2;
      if a[middle] < key {
        low := middle + 1;
      } else {
        high := middle;
      }
    }
    LeftOfIsUnique(a, key, low);
    return low;
  }

  /** What the array form answers for column `i`, rows `lo..hi` inclusive. */
  function Query(g: Grid, q: Quantity, i: nat, lo: int, hi: int): int
    requires |Prefix(g, q)| == |g.comp| + 1
  {
    Prefix(g, q)[LeftOf(g.comp, i * KEY_BASE + hi + 1)] - Prefix(g, q)[LeftOf(g.comp, i * KEY_BASE + lo)]
  }

  lemma PrefixLength(g: Grid, columns: seq<TileColumn>, q: Quantity)
    requires Represents(g, columns)
    ensures |Prefix(g, q)| == |g.comp| + 1 && IsPrefixSum(Prefix(g, q), Units(g, q))
  {
  }

  /** The composite keys ascend over the whole day. */
  lemma CompOrdered(g: Grid, columns: seq<TileColumn>)
    requires TileFile(columns) && Represents(g, columns)
    ensures Ordered(g.comp)
  {
    forall a, b | 0 <= a < b < |g.comp| ensures g.comp[a] <= g.comp[b] {
      CompAscends(g, columns, a, b);
    }
  }

  lemma SlotHolds(g: Grid, columns: seq<TileColumn>, k: nat)
    requires Represents(g, columns) && k < |g.bin|
    ensures var i := g.pos[k];
      && i < |columns| && 0 <= k - g.cellStart[i] < |columns[i].cells|
      && Holds(g, k, i, columns[i].cells[k - g.cellStart[i]])
  {
    var i := g.pos[k];
    assert Located(g) && HoldsColumn(g, i, columns[i].cells);
    var j := k - g.cellStart[i];
    assert Holds(g, g.cellStart[i] + j, i, columns[i].cells[j]);
  }

  lemma CompAscends(g: Grid, columns: seq<TileColumn>, a: nat, b: nat)
    requires TileFile(columns) && Represents(g, columns) && a < b < |g.comp|
    ensures g.comp[a] < g.comp[b]
  {
    SlotHolds(g, columns, a);
    SlotHolds(g, columns, b);
    var i, j := g.pos[a], g.pos[b];
    if j < i {
      StartsRise(g, columns, j + 1, i);
    }
    assert RowsAscend(columns[i].cells) && RowsAscend(columns[j].cells);
    if i < j {
      assert (i + 1) * KEY_BASE <= j * KEY_BASE;
    }
  }

  lemma SlotBelow(g: Grid, columns: seq<TileColumn>, i: nat, k: nat)
    requires TileFile(columns) && Represents(g, columns) && i < |columns| && k < |g.bin|
    requires k < g.cellStart[i]
    ensures g.comp[k] < i * KEY_BASE
  {
    hide Holds;
    SlotHolds(g, columns, k);
    var p := g.pos[k];
    if p >= i {
      StartsRise(g, columns, i, p);
    } else {
      assert RowsAscend(columns[p].cells);
      assert (p + 1) * KEY_BASE <= i * KEY_BASE;
      BinAtSlot(g, columns, k);
    }
  }

  lemma SlotAbove(g: Grid, columns: seq<TileColumn>, i: nat, k: nat)
    requires TileFile(columns) && Represents(g, columns) && i < |columns| && k < |g.bin|
    requires k >= g.cellStart[i + 1]
    ensures g.comp[k] >= (i + 1) * KEY_BASE
  {
    hide Holds;
    SlotHolds(g, columns, k);
    var p := g.pos[k];
    if p <= i {
      StartsRise(g, columns, p + 1, i + 1);
    } else {
      assert RowsAscend(columns[p].cells);
      assert (i + 1) * KEY_BASE <= p * KEY_BASE;
      BinAtSlot(g, columns, k);
    }
  }

  lemma BinAtSlot(g: Grid, columns: seq<TileColumn>, k: nat)
    requires Represents(g, columns) && k < |g.bin|
    ensures var i := g.pos[k];
      i < |columns| && 0 <= k - g.cellStart[i] < |columns[i].cells|
      && g.comp[k] == i * KEY_BASE + columns[i].cells[k - g.cellStart[i]].bin
  {
    SlotHolds(g, columns, k);
  }

  lemma SlotWithin(g: Grid, columns: seq<TileColumn>, i: nat, t: nat)
    requires Represents(g, columns) && i < |columns| && t < |columns[i].cells|
    ensures g.cellStart[i] + t < |g.comp|
    ensures g.comp[g.cellStart[i] + t] == i * KEY_BASE + columns[i].cells[t].bin
  {
    assert HoldsColumn(g, i, columns[i].cells);
    assert Holds(g, g.cellStart[i] + t, i, columns[i].cells[t]);
  }

  /** A key of column `i` is found among the cells of column `i`, at the first row not below it. */
  lemma KeyStaysInColumn(g: Grid, columns: seq<TileColumn>, i: nat, b: int)
    requires TileFile(columns) && Represents(g, columns) && i < |columns| && 0 <= b <= KEY_BASE
    ensures g.cellStart[i] <= LeftOf(g.comp, i * KEY_BASE + b) <= g.cellStart[i] + |columns[i].cells| <= |g.bin|
    ensures forall t :: 0 <= t < |columns[i].cells| ==>
      (columns[i].cells[t].bin < b <==> t < LeftOf(g.comp, i * KEY_BASE + b) - g.cellStart[i])
  {
    hide LeftOf, HoldsColumn, Holds, Located, RowsAscend;
    var k, cells := LeftOf(g.comp, i * KEY_BASE + b), columns[i].cells;
    StartsRise(g, columns, i + 1, |columns|);
    if k < g.cellStart[i] {
      SlotBelow(g, columns, i, k);
    }
    if k > g.cellStart[i + 1] {
      SlotAbove(g, columns, i, k - 1);
    }
    CompOrdered(g, columns);
    forall t | 0 <= t < |cells| ensures cells[t].bin < b <==> t < k - g.cellStart[i] {
      SlotWithin(g, columns, i, t);
      assert g.cellStart[i] + t >= k ==> g.comp[k] <= g.comp[g.cellStart[i] + t];
    }
  }

  /** The rows of the band are the cells `a..b` of the column. */
  ghost predicate Cuts(cells: seq<TileCell>, lo: int, hi: int, a: nat, b: nat) {
    a <= b <= |cells| && forall t :: 0 <= t < |cells| ==> (lo <= cells[t].bin <= hi <==> a <= t < b)
  }

  function Clamp(m: nat, a: nat, b: nat): nat { if m < a then a else if m < b then m else b }

  lemma PrefixStep(g: Grid, columns: seq<TileColumn>, q: Quantity, i: nat, n: nat)
    requires Represents(g, columns) && i < |columns| && n < |columns[i].cells|
    ensures |Prefix(g, q)| == |g.bin| + 1 && g.cellStart[i] + n < |g.bin|
    ensures Prefix(g, q)[g.cellStart[i] + n + 1] == Prefix(g, q)[g.cellStart[i] + n] + Amount(columns[i].cells[n], q)
  {
    PrefixLength(g, columns, q);
    assert HoldsColumn(g, i, columns[i].cells);
    assert Holds(g, g.cellStart[i] + n, i, columns[i].cells[n]);
  }

  /** The prefix difference over the rows `a..b` of a column is its band total. */
  lemma {:induction false} PrefixDifference(
    g: Grid, columns: seq<TileColumn>, q: Quantity, i: nat, lo: int, hi: int, a: nat, b: nat, m: nat)
    requires Represents(g, columns) && i < |columns| && |Prefix(g, q)| == |g.bin| + 1
    requires Cuts(columns[i].cells, lo, hi, a, b) && m <= |columns[i].cells|
    requires g.cellStart[i] + |columns[i].cells| <= |g.bin|
    ensures BandTotal(columns[i].cells[..m], q, lo as real, hi as real)
      == Prefix(g, q)[g.cellStart[i] + Clamp(m, a, b)] - Prefix(g, q)[g.cellStart[i] + a]
  {
    hide Represents, Prefix;
    if m > 0 {
      var cells, n := columns[i].cells, m - 1;
      PrefixDifference(g, columns, q, i, lo, hi, a, b, n);
      assert cells[..m][..n] == cells[..n];
      PrefixStep(g, columns, q, i, n);
      assert InBand(cells[n], lo as real, hi as real) <==> lo <= cells[n].bin <= hi;
    }
  }

  /** Inside the key range the array form answers exactly the walk over the column's cells. */
  lemma QueryIsBandTotal(g: Grid, columns: seq<TileColumn>, q: Quantity, i: nat, lo: int, hi: int)
    requires TileFile(columns) && Represents(g, columns) && i < |columns|
    requires 0 <= lo <= hi + 1 <= KEY_BASE
    requires |Prefix(g, q)| == |g.comp| + 1
    ensures Query(g, q, i, lo, hi) == BandTotal(columns[i].cells, q, lo as real, hi as real)
  {
    hide LeftOf, HoldsColumn, Located, BandTotal, Prefix, IsPrefixSum;
    var cells := columns[i].cells;
    KeyStaysInColumn(g, columns, i, lo);
    KeyStaysInColumn(g, columns, i, hi + 1);
    assert i * KEY_BASE + (hi + 1) == i * KEY_BASE + hi + 1;
    LeftOfRises(g.comp, i * KEY_BASE + lo, i * KEY_BASE + hi + 1);
    var a := LeftOf(g.comp, i * KEY_BASE + lo) - g.cellStart[i];
    var b := LeftOf(g.comp, i * KEY_BASE + hi + 1) - g.cellStart[i];
    PrefixDifference(g, columns, q, i, lo, hi, a, b, |cells|);
    assert cells[..|cells|] == cells;
  }

  /** The rows `lo..hi` for which the arrays answer right on every day: none at all, or inside the key range. */
  predicate RowsFit(lo: int, hi: int) {
    lo == hi + 1 || 0 <= lo <= hi < KEY_BASE
  }

  lemma QueryFits(g: Grid, columns: seq<TileColumn>, q: Quantity, i: nat, lo: int, hi: int)
    requires TileFile(columns) && Represents(g, columns) && i < |columns| && RowsFit(lo, hi)
    ensures |Prefix(g, q)| == |g.comp| + 1
    ensures Query(g, q, i, lo, hi) == BandTotal(columns[i].cells, q, lo as real, hi as real)
  {
    PrefixLength(g, columns, q);
    if lo == hi + 1 {
      NothingBackwards(columns[i].cells, q, lo, hi);
    } else {
      QueryIsBandTotal(g, columns, q, i, lo, hi);
    }
  }

  /** `totals[k]` is the band total of column `k`. */
  ghost predicate AreTotals(totals: seq<int>, columns: seq<TileColumn>, q: Quantity, low: real, high: real) {
    |totals| == |columns| && forall k :: 0 <= k < |columns| ==> totals[k] == BandTotal(columns[k].cells, q, low, high)
  }

  /** All four band totals of every column. */
  method BandArrays(g: Grid, ghost columns: seq<TileColumn>, lo: int, hi: int)
    returns (eaten: seq<int>, cancel: seq<int>, qty: seq<int>, add: seq<int>)
    requires TileFile(columns) && Represents(g, columns)
    requires RowsFit(lo, hi)
    ensures |eaten| == |cancel| == |qty| == |add| == |columns|
    ensures AreTotals(eaten, columns, Eaten, lo as real, hi as real)
    ensures AreTotals(cancel, columns, Cancel, lo as real, hi as real)
    ensures AreTotals(qty, columns, Qty, lo as real, hi as real)
    ensures AreTotals(add, columns, Add, lo as real, hi as real)
  {
    hide LeftOf, BandTotal, Ordered, HoldsColumn, Located, TileFile;
    CompOrdered(g, columns);
    eaten, cancel, qty, add := [], [], [], [];
    for i := 0 to |g.gap|
      invariant |eaten| == |cancel| == |qty| == |add| == i
      invariant forall k :: 0 <= k < i ==>
        && eaten[k] == BandTotal(columns[k].cells, Eaten, lo as real, hi as real)
        && cancel[k] == BandTotal(columns[k].cells, Cancel, lo as real, hi as real)
        && qty[k] == BandTotal(columns[k].cells, Qty, lo as real, hi as real)
        && add[k] == BandTotal(columns[k].cells, Add, lo as real, hi as real)
    {
      var left := SearchSorted(g.comp, i * KEY_BASE + lo);
      var right := SearchSorted(g.comp, i * KEY_BASE + hi + 1);
      QueryFits(g, columns, Eaten, i, lo, hi);
      QueryFits(g, columns, Cancel, i, lo, hi);
      QueryFits(g, columns, Qty, i, lo, hi);
      QueryFits(g, columns, Add, i, lo, hi);
      eaten := eaten + [g.prefixEaten[right] - g.prefixEaten[left]];
      cancel := cancel + [g.prefixCancel[right] - g.prefixCancel[left]];
      qty := qty + [g.prefixQty[right] - g.prefixQty[left]];
      add := add + [g.prefixAdd[right] - g.prefixAdd[left]];
    }
  }

  // ----- Outside the key range

  /** `n` columns of which only number `at` has a cell: one unit at row `bin`. */
  function OneCell(n: nat, at: nat, bin: int): seq<TileColumn> {
    seq(n, i => TileColumn(false, false, None, if i == at then [TileCell(bin, Ask, 1, 1, 1, 1)] else []))
  }

  function OneCellGrid(n: nat, at: nat, bin: int): Grid {
    Grid(seq(n, _ => false), seq(n, _ => false), seq(n, _ => -1), seq(n + 1, i => if i <= at then 0 else 1),
         [bin], [0], [1], [1], [1], [1], [at], [at * KEY_BASE + bin], [0, 1], [0, 1], [0, 1], [0, 1])
  }

  lemma OneCellFile(n: nat, at: nat, bin: int)
    requires at < n && 0 <= bin < KEY_BASE
    ensures TileFile(OneCell(n, at, bin))
  {
  }

  lemma OneCellStarts(n: nat, at: nat, bin: int)
    requires at < n && 0 <= bin < KEY_BASE
    ensures Starts(OneCellGrid(n, at, bin), OneCell(n, at, bin)) && Located(OneCellGrid(n, at, bin))
  {
  }

  lemma OneCellHolds(n: nat, at: nat, bin: int, i: nat)
    requires at < n && 0 <= bin < KEY_BASE && i < n
    ensures HoldsColumn(OneCellGrid(n, at, bin), i, OneCell(n, at, bin)[i].cells)
  {
    if i == at {
      assert Holds(OneCellGrid(n, at, bin), 0, at, OneCell(n, at, bin)[at].cells[0]);
    }
  }

  lemma OneCellRepresented(n: nat, at: nat, bin: int)
    requires at < n && 0 <= bin < KEY_BASE
    ensures TileFile(OneCell(n, at, bin)) && Represents(OneCellGrid(n, at, bin), OneCell(n, at, bin))
  {
    hide TileFile, Starts, Located, HoldsColumn;
    OneCellFile(n, at, bin);
    OneCellStarts(n, at, bin);
    forall i | 0 <= i < n ensures HoldsColumn(OneCellGrid(n, at, bin), i, OneCell(n, at, bin)[i].cells) {
      OneCellHolds(n, at, bin, i);
    }
  }

  /** The array form is exact on rows `lo..hi` for every day, column and quantity. */
  ghost predicate ExactForEveryDay(lo: int, hi: int) {
    forall g: Grid, columns: seq<TileColumn>, i: nat ::
      TileFile(columns) && Represents(g, columns) && i < |columns| ==> Exact(g, columns, i, lo, hi)
  }

  ghost predicate Exact(g: Grid, columns: seq<TileColumn>, i: nat, lo: int, hi: int)
    requires i < |columns|
  {
    forall q: Quantity ::
      |Prefix(g, q)| == |g.comp| + 1
      && Query(g, q, i, lo, hi) == BandTotal(columns[i].cells, q, lo as real, hi as real)
  }

  /** A key that belongs to another column is counted into column `i`. */
  lemma LeaksFrom(n: nat, at: nat, bin: int, i: nat, lo: int, hi: int)
    requires at < n && i < n && at != i && 0 <= bin < KEY_BASE
    requires i * KEY_BASE + lo <= at * KEY_BASE + bin <= i * KEY_BASE + hi
    ensures !ExactForEveryDay(lo, hi)
  {
    var g, columns := OneCellGrid(n, at, bin), OneCell(n, at, bin);
    OneCellRepresented(n, at, bin);
    assert columns[i].cells == [];
    LeftOfIsUnique(g.comp, i * KEY_BASE + lo, 0);
    LeftOfIsUnique(g.comp, i * KEY_BASE + hi + 1, 1);
    assert Query(g, Eaten, i, lo, hi) == 1;
    assert !Exact(g, columns, i, lo, hi);
  }

  /** With `lo` beyond `hi + 1` a key between the two is counted off. */
  lemma CountsOff(n: nat, at: nat, bin: int, i: nat, lo: int, hi: int)
    requires at < n && i < n && 0 <= bin < KEY_BASE && lo > hi + 1
    requires i * KEY_BASE + hi + 1 == at * KEY_BASE + bin
    ensures !ExactForEveryDay(lo, hi)
  {
    var g, columns := OneCellGrid(n, at, bin), OneCell(n, at, bin);
    OneCellRepresented(n, at, bin);
    LeftOfIsUnique(g.comp, i * KEY_BASE + lo, 1);
    LeftOfIsUnique(g.comp, i * KEY_BASE + hi + 1, 0);
    assert Query(g, Eaten, i, lo, hi) == -1;
    NothingBackwards(columns[i].cells, Eaten, lo, hi);
    assert !Exact(g, columns, i, lo, hi);
  }

  lemma {:induction false} NothingBackwards(cells: seq<TileCell>, q: Quantity, lo: int, hi: int)
    requires lo > hi
    ensures BandTotal(cells, q, lo as real, hi as real) == 0
  {
    if cells != [] {
      NothingBackwards(cells[..|cells| - 1], q, lo, hi);
    }
  }

  /** The array form is exact on every day if and only if the row range is empty or lies in [0, KEY_BASE). */
  lemma ExactExactlyInsideKeyRange(lo: int, hi: int)
    ensures ExactForEveryDay(lo, hi) <==> RowsFit(lo, hi)
  {
    hide ExactForEveryDay, Query, TileFile, Represents;
    if RowsFit(lo, hi) {
      FitsEveryDay(lo, hi);
    } else if lo > hi + 1 {
      var away := (hi + 1) / KEY_BASE;
      assert hi + 1 == away * KEY_BASE + (hi + 1) % KEY_BASE;
      if away >= 0 {
        CountsOff(away + 1, away, (hi + 1) % KEY_BASE, 0, lo, hi);
      } else {
        CountsOff(-away + 1, 0, (hi + 1) % KEY_BASE, -away, lo, hi);
      }
    } else if lo < 0 {
      var away := -(lo / KEY_BASE);
      assert lo == -away * KEY_BASE + lo % KEY_BASE;
      LeaksFrom(away + 1, 0, lo % KEY_BASE, away, lo, hi);
    } else {
      var away := hi / KEY_BASE;
      assert hi == away * KEY_BASE + hi % KEY_BASE;
      LeaksFrom(away + 1, away, hi % KEY_BASE, 0, lo, hi);
    }
  }

  lemma FitsEveryDay(lo: int, hi: int)
    requires RowsFit(lo, hi)
    ensures ExactForEveryDay(lo, hi)
  {
    hide Query, TileFile, Represents;
    forall g: Grid, columns: seq<TileColumn>, i: nat |
      TileFile(columns) && Represents(g, columns) && i < |columns| ensures Exact(g, columns, i, lo, hi)
    {
      forall q: Quantity ensures |Prefix(g, q)| == |g.comp| + 1
        && Query(g, q, i, lo, hi) == BandTotal(columns[i].cells, q, lo as real, hi as real)
      {
        QueryFits(g, columns, q, i, lo, hi);
      }
    }
  }
}
