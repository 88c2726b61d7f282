/**
 The array form of one day (`DayGrid` of the sweep script): all cells of all columns laid
 end to end, a composite key of column and price row, and prefix sums, so that a band
 total is two binary searches and a subtraction.
 */
module DayGrid {
  import opened Options
  import opened RegionSpec

  const KEY_BASE := 1000000000

  datatype Grid = Grid(
    gap: seq<bool>, carried: seq<bool>, midX10: seq<int>, cellStart: seq<nat>, bin: seq<int>, side: seq<int>,
    qty: seq<int>, add: seq<int>, cancel: seq<int>, eaten: seq<int>, pos: seq<nat>, comp: seq<int>,
    prefixQty: seq<int>, prefixAdd: seq<int>, prefixCancel: seq<int>, prefixEaten: seq<int>)

  function Units(g: Grid, q: Quantity): seq<int> {
    match q
    case Eaten => g.eaten
    case Cancel => g.cancel
    case Qty => g.qty
    case Add => g.add
  }

  function Prefix(g: Grid, q: Quantity): seq<int> {
    match q
    case Eaten => g.prefixEaten
    case Cancel => g.prefixCancel
    case Qty => g.prefixQty
    case Add => g.prefixAdd
  }

  function SideCode(s: Side): int {
    match s
    case Ask => 0
    case Bid => 1
    case Both => 2
    case Void => 3
  }

  /** A missing mid price is coded as -1. */
  function MidCode(mid: Option<int>): int { mid.GetOr(-1) }

  /** What the tile files hold: rows ascend within a column, prices are not negative. */
  predicate RowsAscend(cells: seq<TileCell>) {
    && (forall i :: 0 <= i < |cells| ==> 0 <= cells[i].bin < KEY_BASE)
    && (forall i, j :: 0 <= i < j < |cells| ==> cells[i].bin < cells[j].bin)
  }

  predicate TileFile(columns: seq<TileColumn>) {
    forall i :: 0 <= i < |columns| ==>
      RowsAscend(columns[i].cells) && (columns[i].mid.Some? ==> columns[i].mid.value >= 0)
  }

  // ----- How the arrays represent the columns

  /** Slot `k` holds the cell `c` of column `i`. */
  predicate Holds(g: Grid, k: nat, i: nat, c: TileCell) {
    && k < |g.bin| == |g.side| == |g.qty| == |g.add| == |g.cancel| == |g.eaten| == |g.pos|
    && g.bin[k] == c.bin && g.side[k] == SideCode(c.side) && g.qty[k] == c.qty && g.add[k] == c.add
    && g.cancel[k] == c.cancel && g.eaten[k] == c.eaten && g.pos[k] == i
  }

  predicate HoldsColumn(g: Grid, i: nat, cells: seq<TileCell>)
    requires i < |g.cellStart|
  {
    forall j :: 0 <= j < |cells| ==> Holds(g, g.cellStart[i] + j, i, cells[j])
  }

  predicate Starts(g: Grid, columns: seq<TileColumn>) {
    && |g.cellStart| == |columns| + 1 && g.cellStart[0] == 0 && g.cellStart[|columns|] == |g.bin|
    && forall i :: 0 <= i < |columns| ==> g.cellStart[i + 1] == g.cellStart[i] + |columns[i].cells|
  }

  /** Every slot lies in the column its position names. */
  predicate Located(g: Grid) {
    |g.pos| == |g.bin| && forall k :: 0 <= k < |g.pos| ==>
      g.pos[k] + 1 < |g.cellStart| && g.cellStart[g.pos[k]] <= k < g.cellStart[g.pos[k] + 1]
  }

  predicate IsPrefixSum(prefix: seq<int>, units: seq<int>) {
    |prefix| == |units| + 1 && prefix[0] == 0 && forall k :: 0 <= k < |units| ==> prefix[k + 1] == prefix[k] + units[k]
  }

  predicate Represents(g: Grid, columns: seq<TileColumn>) {
    && |g.gap| == |g.carried| == |g.midX10| == |columns|
    && (forall i :: 0 <= i < |columns| ==>
          g.gap[i] == columns[i].gap && g.carried[i] == columns[i].carried && g.midX10[i] == MidCode(columns[i].mid))
    && |g.bin| == |g.side| == |g.qty| == |g.add| == |g.cancel| == |g.eaten|
    && Starts(g, columns) && Located(g)
    && (forall i :: 0 <= i < |columns| ==> HoldsColumn(g, i, columns[i].cells))
    && |g.comp| == |g.bin| && (forall k :: 0 <= k < |g.bin| ==> g.comp[k] == g.pos[k] * KEY_BASE + g.bin[k])
    && IsPrefixSum(g.prefixEaten, g.eaten) && IsPrefixSum(g.prefixCancel, g.cancel)
    && IsPrefixSum(g.prefixQty, g.qty) && IsPrefixSum(g.prefixAdd, g.add)
  }

  // ----- Building the arrays

  method Cumulate(units: seq<int>) returns (prefix: seq<int>)
    ensures IsPrefixSum(prefix, units)
  {
    prefix := [0];
    for k := 0 to |units|
      invariant |prefix| == k + 1 && prefix[0] == 0
      invariant forall t :: 0 <= t < k ==> prefix[t + 1] == prefix[t] + units[t]
    {
      prefix := prefix + [prefix[k] + units[k]];
    }
  }

  method Repeat(cellStart: seq<nat>) returns (positions: seq<nat>)
    requires |cellStart| >= 1 && cellStart[0] == 0
    requires forall i :: 0 <= i < |cellStart| - 1 ==> cellStart[i] <= cellStart[i + 1]
    ensures |positions| == cellStart[|cellStart| - 1]
    ensures forall k :: 0 <= k < |positions| ==>
      positions[k] + 1 < |cellStart| && cellStart[positions[k]] <= k < cellStart[positions[k] + 1]
  {
    positions := [];
    for i := 0 to |cellStart| - 1
      invariant |positions| == cellStart[i]
      invariant forall k :: 0 <= k < |positions| ==>
        positions[k] + 1 < |cellStart| && cellStart[positions[k]] <= k < cellStart[positions[k] + 1]
    {
      positions := positions + seq(cellStart[i + 1] - cellStart[i], _ => i);
    }
  }

  /** Arrays filled so far from the first `n` columns. */
  predicate Filled(g: Grid, columns: seq<TileColumn>) {
    && |g.cellStart| == |columns| + 1 && g.cellStart[0] == 0 && g.cellStart[|columns|] == |g.bin|
    && |g.bin| == |g.side| == |g.qty| == |g.add| == |g.cancel| == |g.eaten|
    && |g.gap| == |g.carried| == |g.midX10| == |columns|
    && forall i :: 0 <= i < |columns| ==>
         && g.gap[i] == columns[i].gap && g.carried[i] == columns[i].carried && g.midX10[i] == MidCode(columns[i].mid)
         && g.cellStart[i + 1] == g.cellStart[i] + |columns[i].cells| <= |g.bin|
         && SlotsMatch(g, g.cellStart[i], columns[i].cells)
  }

  predicate SlotsMatch(g: Grid, start: nat, cells: seq<TileCell>) {
    && start + |cells| <= |g.bin| == |g.side| == |g.qty| == |g.add| == |g.cancel| == |g.eaten|
    && forall j :: 0 <= j < |cells| ==>
         && g.bin[start + j] == cells[j].bin && g.side[start + j] == SideCode(cells[j].side)
         && g.qty[start + j] == cells[j].qty && g.add[start + j] == cells[j].add
         && g.cancel[start + j] == cells[j].cancel && g.eaten[start + j] == cells[j].eaten
  }

  function Empty(): Grid {
    Grid([], [], [], [0], [], [], [], [], [], [], [], [], [0], [0], [0], [0])
  }

  method AppendCells(g: Grid, cells: seq<TileCell>) returns (r: Grid)
    requires |g.bin| == |g.side| == |g.qty| == |g.add| == |g.cancel| == |g.eaten|
    ensures |r.bin| == |r.side| == |r.qty| == |r.add| == |r.cancel| == |r.eaten|
    ensures r.cellStart == g.cellStart && r.gap == g.gap && r.carried == g.carried && r.midX10 == g.midX10
    ensures g.bin <= r.bin && g.side <= r.side && g.qty <= r.qty && g.add <= r.add && g.cancel <= r.cancel
    ensures g.eaten <= r.eaten && |r.bin| == |g.bin| + |cells| && SlotsMatch(r, |g.bin|, cells)
  {
    var bins, sides, qty, add, cancel, eaten := g.bin, g.side, g.qty, g.add, g.cancel, g.eaten;
    var n := |g.bin|;
    for j := 0 to |cells|
      invariant |bins| == |sides| == |qty| == |add| == |cancel| == |eaten| == n + j
      invariant g.bin <= bins && g.side <= sides && g.qty <= qty && g.add <= add && g.cancel <= cancel
      invariant g.eaten <= eaten
      invariant forall t :: 0 <= t < j ==>
        && bins[n + t] == cells[t].bin && sides[n + t] == SideCode(cells[t].side) && qty[n + t] == cells[t].qty
        && add[n + t] == cells[t].add && cancel[n + t] == cells[t].cancel && eaten[n + t] == cells[t].eaten
    {
      var cell := cells[j];
      bins := bins + [cell.bin];
      sides := sides + [SideCode(cell.side)];
      qty := qty + [cell.qty];
      add := add + [cell.add];
      cancel := cancel + [cell.cancel];
      eaten := eaten + [cell.eaten];
    }
    r := g.(bin := bins, side := sides, qty := qty, add := add, cancel := cancel, eaten := eaten);
  }

  /** The constructor of the grid. */
  method BuildGrid(columns: seq<TileColumn>) returns (g: Grid)
    ensures Represents(g, columns)
  {
    hide SlotsMatch, Located, HoldsColumn;
    g := Empty();
    for at := 0 to |columns|
      invariant Filled(g, columns[..at])
    {
      assert columns[..at + 1][..at] == columns[..at];
      var column := columns[at];
      ghost var before := g;
      g := AppendCells(g, column.cells);
      g := g.(gap := g.gap + [column.gap], carried := g.carried + [column.carried],
              midX10 := g.midX10 + [MidCode(column.mid)], cellStart := g.cellStart + [|g.bin|]);
      FilledGrows(before, g, columns[..at], column);
      assert columns[..at + 1] == columns[..at] + [column];
    }
    assert columns[..|columns|] == columns;
    var positions := Repeat(g.cellStart);
    var comp := seq(|positions|, k requires 0 <= k < |positions| => positions[k] * KEY_BASE + g.bin[k]);
    var prefixQty := Cumulate(g.qty);
    var prefixAdd := Cumulate(g.add);
    var prefixCancel := Cumulate(g.cancel);
    var prefixEaten := Cumulate(g.eaten);
    ghost var filled := g;
    g := g.(pos := positions, comp := comp, prefixQty := prefixQty, prefixAdd := prefixAdd,
            prefixCancel := prefixCancel, prefixEaten := prefixEaten);
    FilledRepresents(filled, g, columns);
  }

  lemma FilledGrows(before: Grid, g: Grid, columns: seq<TileColumn>, column: TileColumn)
    requires Filled(before, columns)
    requires |g.bin| == |g.side| == |g.qty| == |g.add| == |g.cancel| == |g.eaten|
    requires before.bin <= g.bin && before.side <= g.side && before.qty <= g.qty && before.add <= g.add
    requires before.cancel <= g.cancel && before.eaten <= g.eaten && |g.bin| == |before.bin| + |column.cells|
    requires SlotsMatch(g, |before.bin|, column.cells)
    requires g.cellStart == before.cellStart + [|g.bin|] && g.gap == before.gap + [column.gap]
    requires g.carried == before.carried + [column.carried] && g.midX10 == before.midX10 + [MidCode(column.mid)]
    ensures Filled(g, columns + [column])
  {
    forall i | 0 <= i < |columns| ensures SlotsMatch(g, g.cellStart[i], columns[i].cells) {
      SlotsStay(before, g, before.cellStart[i], columns[i].cells);
    }
  }

  lemma SlotsStay(before: Grid, g: Grid, start: nat, cells: seq<TileCell>)
    requires SlotsMatch(before, start, cells)
    requires |g.bin| == |g.side| == |g.qty| == |g.add| == |g.cancel| == |g.eaten|
    requires before.bin <= g.bin && before.side <= g.side && before.qty <= g.qty && before.add <= g.add
    requires before.cancel <= g.cancel && before.eaten <= g.eaten
    ensures SlotsMatch(g, start, cells)
  {
  }

  lemma FilledRepresents(filled: Grid, g: Grid, columns: seq<TileColumn>)
    requires Filled(filled, columns)
    requires g == filled.(pos := g.pos, comp := g.comp, prefixQty := g.prefixQty, prefixAdd := g.prefixAdd,
                          prefixCancel := g.prefixCancel, prefixEaten := g.prefixEaten)
    requires Located(g) && |g.comp| == |g.bin|
    requires forall k :: 0 <= k < |g.bin| ==> g.comp[k] == g.pos[k] * KEY_BASE + g.bin[k]
    requires IsPrefixSum(g.prefixEaten, g.eaten) && IsPrefixSum(g.prefixCancel, g.cancel)
    requires IsPrefixSum(g.prefixQty, g.qty) && IsPrefixSum(g.prefixAdd, g.add)
    ensures Represents(g, columns)
  {
    assert Starts(g, columns);
    forall i | 0 <= i < |columns| ensures HoldsColumn(g, i, columns[i].cells) {
      var cells := columns[i].cells;
      assert SlotsMatch(filled, filled.cellStart[i], cells);
      forall j | 0 <= j < |cells| ensures Holds(g, g.cellStart[i] + j, i, cells[j]) {
        OneColumnPerSlot(g, columns, g.cellStart[i] + j, i);
      }
    }
  }

  lemma {:induction false} StartsRise(g: Grid, columns: seq<TileColumn>, a: nat, b: nat)
    requires Starts(g, columns) && a <= b <= |columns|
    ensures g.cellStart[a] <= g.cellStart[b]
    decreases b - a
  {
    if a < b {
      StartsRise(g, columns, a, b - 1);
      assert g.cellStart[b - 1 + 1] == g.cellStart[b - 1] + |columns[b - 1].cells|;
    }
  }

  lemma OneColumnPerSlot(g: Grid, columns: seq<TileColumn>, k: nat, i: nat)
    requires Starts(g, columns) && Located(g) && k < |g.pos| && i < |columns|
    requires g.cellStart[i] <= k < g.cellStart[i + 1]
    ensures g.pos[k] == i
  {
    if g.pos[k] < i {
      StartsRise(g, columns, g.pos[k] + 1, i);
    } else if i < g.pos[k] {
      StartsRise(g, columns, i + 1, g.pos[k]);
    }
  }
}
