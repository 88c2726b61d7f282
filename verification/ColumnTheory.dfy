/**
 Conservation and the gap automaton of the column grid.
 */
module ColumnTheory {
  import opened Options
  import opened Sorting
  import opened ColumnGrid

  // ----- One cell

  /**
   Of every cell: a row's closing quantity is its opening quantity with the net flows applied, and it never both
   adds and cancels; its side names exactly the sides that stood at the close, or at the opening
   where nothing stands at the close.
   */
  lemma CellBalances(row: int, start: Levels, end: Levels, executed: map<int, real>)
    ensures Balances(CellAt(row, start, end, executed), row, start, end, executed)
  {
  }

  // ----- One column, row by row

  function Find(cells: seq<Cell>, row: int): Option<Cell> {
    if cells == [] then None
    else if cells[|cells| - 1].row == row then Some(cells[|cells| - 1])
    else Find(cells[..|cells| - 1], row)
  }

  /** The row's cell; a row without one has no quantity and no flow. */
  function RowIn(c: Column, row: int): Cell {
    Find(c.cells, row).GetOr(Cell(row, Void, 0.0, 0.0, 0.0, 0.0))
  }

  function NetFlow(c: Column, row: int): real {
    RowIn(c, row).netAdd - RowIn(c, row).netCancel - RowIn(c, row).eaten
  }

  lemma {:induction false} FindInFrameCells(
    rows: seq<int>, start: Levels, end: Levels, executed: map<int, real>, row: int)
    requires Ascending(rows)
    ensures Find(FrameCells(rows, start, end, executed), row)
      == if row in rows && !Quiet(row, start, end, executed) then Some(CellAt(row, start, end, executed)) else None
  {
    if rows != [] {
      hide CellAt, Quiet;
      CellAtRow(rows[|rows| - 1], start, end, executed);
      var front, last := rows[..|rows| - 1], rows[|rows| - 1];
      FindInFrameCells(front, start, end, executed, row);
      assert rows == front + [last];
      var before := FrameCells(front, start, end, executed);
      assert (before + [CellAt(last, start, end, executed)])[..|before|] == before;
    }
  }

  lemma CellAtRow(row: int, start: Levels, end: Levels, executed: map<int, real>)
    ensures CellAt(row, start, end, executed).row == row
  {
  }

  lemma {:induction false} FindInStanding(rows: seq<int>, levels: Levels, row: int)
    requires Ascending(rows)
    ensures Find(StandingCells(rows, levels), row) == if row in rows then Some(StandingCell(levels, row)) else None
  {
    if rows != [] {
      var front, last := rows[..|rows| - 1], rows[|rows| - 1];
      FindInStanding(front, levels, row);
      assert rows == front + [last];
      var before := StandingCells(front, levels);
      assert (before + [StandingCell(levels, last)])[..|before|] == before;
    }
  }

  /** A frame column: opening quantity, flows and closing quantity of every row. */
  lemma FrameColumnBalances(st: State, second: int, frames: seq<Frame>, prints: seq<Print>, row: int)
    requires frames != []
    ensures var (next, c) := Second(st, second, frames, prints);
      var start := if st.levels.None? then Binned(frames[0]) else st.levels.value;
      && next.levels.Some? && RowIn(c, row).after == Total(next.levels.value, row)
      && RowIn(c, row).after == Total(start, row) + NetFlow(c, row)
      && RowIn(c, row).netAdd >= 0.0 && RowIn(c, row).netCancel >= 0.0
      && (RowIn(c, row).netAdd == 0.0 || RowIn(c, row).netCancel == 0.0)
  {
    hide SortedKeys, Binned, Executed, FrameCells;
    var end := Binned(frames[|frames| - 1]);
    var start := if st.levels.None? then Binned(frames[0]) else st.levels.value;
    var executed := Executed(prints);
    FindInFrameCells(RowsOf(start, end, executed), start, end, executed, row);
    CellBalances(row, start, end, executed);
  }

  lemma CarriedColumnStands(st: State, second: int, row: int)
    requires Carries(st, second) && st.levels.Some?
    ensures var (next, c) := Second(st, second, [], []);
      next == st && RowIn(c, row).after == Total(st.levels.value, row) && NetFlow(c, row) == 0.0
  {
    hide SortedKeys, StandingCells;
    FindInStanding(SortedKeys(st.levels.value.Keys), st.levels.value, row);
  }

  // ----- The automaton

  /** What holds after any number of seconds. */
  ghost predicate Sound(b: Built, dayStart: int, n: nat) {
    && |b.columns| == n
    && (b.state.levels.Some? <==> n > 0 && !b.columns[n - 1].gap)
    && (b.state.levels.Some? ==> b.state.lastFrameMs.Some?)
    && (b.state.lastFrameMs.Some? ==> b.state.lastFrameMs.value < (dayStart + n) * 1000)
    && (b.state.levels.None? && b.state.lastFrameMs.Some? ==>
          (dayStart + n) * 1000 - b.state.lastFrameMs.value > CARRY_LIMIT_MS)
  }

  lemma {:induction false} AlwaysSound(frames: seq<Frame>, prints: seq<Print>, dayStart: int, n: nat)
    ensures Sound(Build(frames, prints, dayStart, n), dayStart, n)
  {
    hide Build, FramesIn, PrintsIn, FrameCells, RowsOf, SortedKeys, Executed, Binned, StandingCells, FrameMid;
    NoSeconds(frames, prints, dayStart);
    if n > 0 {
      AlwaysSound(frames, prints, dayStart, n - 1);
      OneSecondMore(frames, prints, dayStart, n - 1);
    }
  }

  /** Later seconds never change the columns already made. */
  lemma {:induction false} BuildKeepsColumns(frames: seq<Frame>, prints: seq<Print>, dayStart: int, m: nat, n: nat)
    requires m <= n
    ensures Build(frames, prints, dayStart, n).columns[..m] == Build(frames, prints, dayStart, m).columns
  {
    hide Build, FramesIn, PrintsIn, Second;
    if m < n {
      BuildKeepsColumns(frames, prints, dayStart, m, n - 1);
      OneSecondMore(frames, prints, dayStart, n - 1);
    }
  }

  /** Column `k` and the state it was made from. */
  lemma ColumnAt(frames: seq<Frame>, prints: seq<Print>, dayStart: int, n: nat, k: nat)
    requires k < n
    ensures var before, second := Build(frames, prints, dayStart, k), dayStart + k;
      var columns := Build(frames, prints, dayStart, n).columns;
      && columns[k] == Second(before.state, second, FramesIn(frames, second), PrintsIn(prints, second)).1
      && columns[..k] == before.columns
      && Build(frames, prints, dayStart, k + 1).columns == columns[..k + 1]
  {
    hide Build, FramesIn, PrintsIn, Second;
    BuildKeepsColumns(frames, prints, dayStart, k, n);
    BuildKeepsColumns(frames, prints, dayStart, k + 1, n);
    OneSecondMore(frames, prints, dayStart, k);
  }

  /** The kind of a column, from the state it was made from. */
  lemma SecondKind(st: State, second: int, frames: seq<Frame>, prints: seq<Print>)
    ensures var c := Second(st, second, frames, prints).1;
      && c.frames == |frames|
      && (c.carried <==> frames == [] && Carries(st, second))
      && (c.gap <==> frames == [] && !Carries(st, second))
      && (c.reset <==> frames != [] && st.levels.None?)
      && (c.carried ==> c.mid == st.carriedMid)
  {
  }

  /**
   The automaton. A column is a frame, a carried column or a gap; a frame column is marked reset
   exactly when it opens the day or follows a gap; so a gap lasts until a reset frame column, and
   a carried column never follows a gap or opens the day.
   */
  lemma GapsLastUntilReset(frames: seq<Frame>, prints: seq<Print>, dayStart: int, n: nat, k: nat)
    requires k < n
    ensures var columns := Build(frames, prints, dayStart, n).columns; var c := columns[k];
      && (c.gap <==> c.frames == 0 && !c.carried) && !(c.gap && c.carried)
      && c.frames == |FramesIn(frames, dayStart + k)|
      && (c.reset <==> c.frames > 0 && (k == 0 || columns[k - 1].gap))
      && (c.carried ==> c.frames == 0 && k > 0 && !columns[k - 1].gap)
  {
    hide Build, FramesIn, PrintsIn, Second, Carries;
    ColumnAt(frames, prints, dayStart, n, k);
    AlwaysSound(frames, prints, dayStart, k);
    var before, second := Build(frames, prints, dayStart, k), dayStart + k;
    SecondKind(before.state, second, FramesIn(frames, second), PrintsIn(prints, second));
    if Carries(before.state, second) {
      CarriedHasLevels(frames, prints, dayStart, k);
    }
  }

  /** A carried column always has stored levels: the empty default is never taken. */
  lemma CarriedHasLevels(frames: seq<Frame>, prints: seq<Print>, dayStart: int, n: nat)
    requires Carries(Build(frames, prints, dayStart, n).state, dayStart + n)
    ensures Build(frames, prints, dayStart, n).state.levels.Some?
  {
    AlwaysSound(frames, prints, dayStart, n);
  }

  predicate Silent(frames: seq<Frame>, dayStart: int, k: int) { FramesIn(frames, dayStart + k) == [] }

  /** The last second before second `k` with frames is second `j`. */
  ghost predicate IsLastFrameSecond(frames: seq<Frame>, dayStart: int, k: nat, j: nat) {
    j < k && !Silent(frames, dayStart, j) && forall i :: j < i < k ==> Silent(frames, dayStart, i)
  }

  /** Second `k` ends within 30 seconds of the last frame before it, which lies in second `j`. */
  ghost predicate WithinLimit(frames: seq<Frame>, dayStart: int, k: nat, j: nat) {
    && IsLastFrameSecond(frames, dayStart, k, j)
    && (var seen := FramesIn(frames, dayStart + j);
        (dayStart + k + 1) * 1000 - seen[|seen| - 1].epochMs <= 30000)
  }

  function LastFrame(frames: seq<Frame>, dayStart: int, n: nat): Option<Frame> {
    if n == 0 then None
    else
      var here := FramesIn(frames, dayStart + n - 1);
      if here != [] then Some(here[|here| - 1]) else LastFrame(frames, dayStart, n - 1)
  }

  lemma {:induction false} LastFrameMeans(frames: seq<Frame>, dayStart: int, k: nat)
    ensures LastFrame(frames, dayStart, k).Some? <==> exists j: nat :: IsLastFrameSecond(frames, dayStart, k, j)
    ensures forall j: nat :: IsLastFrameSecond(frames, dayStart, k, j) ==>
      var seen := FramesIn(frames, dayStart + j);
      LastFrame(frames, dayStart, k) == Some(seen[|seen| - 1])
  {
    hide FramesIn;
    if k > 0 {
      var n: nat := k - 1;
      LastFrameMeans(frames, dayStart, n);
      assert dayStart + k - 1 == dayStart + n;
      if !Silent(frames, dayStart, n) {
        assert IsLastFrameSecond(frames, dayStart, k, n);
      } else {
        forall j: nat ensures IsLastFrameSecond(frames, dayStart, k, j) <==> IsLastFrameSecond(frames, dayStart, n, j) {
        }
      }
    }
  }

  /** What is carried along are the time, the mid price and, while no gap forgets them, the levels of the last frame. */
  ghost predicate Remembers(st: State, last: Option<Frame>) {
    match last
    case None => st == State(None, None, None)
    case Some(f) =>
      && st.lastFrameMs == Some(f.epochMs) && st.carriedMid == FrameMid(f)
      && (st.levels.Some? ==> st.levels == Some(Binned(f)))
  }

  lemma {:induction false} CarriedAlong(frames: seq<Frame>, prints: seq<Print>, dayStart: int, n: nat)
    ensures var b := Build(frames, prints, dayStart, n);
      && Remembers(b.state, LastFrame(frames, dayStart, n))
      && (b.state.levels.Some? ==> n > 0 && b.columns[n - 1].mid == b.state.carriedMid)
  {
    hide Build, FramesIn, PrintsIn, FrameCells, RowsOf, SortedKeys, Executed, Binned, StandingCells, FrameMid;
    NoSeconds(frames, prints, dayStart);
    if n > 0 {
      CarriedAlong(frames, prints, dayStart, n - 1);
      OneSecondMore(frames, prints, dayStart, n - 1);
    }
  }

  /**
   A second without frames is carried exactly when it ends within the carry limit of the last frame
   before it, wherever that frame was; it then repeats the mid price of the column before it.
   */
  lemma CarriedExactlyWithinLimit(frames: seq<Frame>, prints: seq<Print>, dayStart: int, n: nat, k: nat)
    requires k < n
    ensures var columns := Build(frames, prints, dayStart, n).columns; var c := columns[k];
      && (c.carried <==> FramesIn(frames, dayStart + k) == []
                         && exists j: nat :: WithinLimit(frames, dayStart, k, j))
      && (c.carried ==> k > 0 && c.mid == columns[k - 1].mid)
  {
    hide Build, FramesIn, PrintsIn, Second, IsLastFrameSecond;
    ColumnAt(frames, prints, dayStart, n, k);
    CarriedAlong(frames, prints, dayStart, k);
    LastFrameMeans(frames, dayStart, k);
    var before, second := Build(frames, prints, dayStart, k), dayStart + k;
    SecondKind(before.state, second, FramesIn(frames, second), PrintsIn(prints, second));
    if Carries(before.state, second) {
      CarriedHasLevels(frames, prints, dayStart, k);
      var j: nat :| IsLastFrameSecond(frames, dayStart, k, j);
      assert WithinLimit(frames, dayStart, k, j);
    }
  }

  lemma FrameColumnMid(st: State, second: int, frames: seq<Frame>, prints: seq<Print>)
    ensures frames != [] ==> Second(st, second, frames, prints).1.mid == FrameMid(frames[|frames| - 1])
  {
  }

  lemma Halfway(f: Frame)
    ensures FrameMid(f).Some? <==> f.asks != [] && f.bids != []
    ensures FrameMid(f).Some? ==> FrameMid(f).value - f.bids[0].price == f.asks[0].price - FrameMid(f).value
  {
  }

  /** `mid` lies halfway between the best quotes of the last frame seen; it is blank if a side is missing. */
  ghost predicate IsHalfway(mid: Option<real>, seen: seq<Frame>)
    requires seen != []
  {
    var last := seen[|seen| - 1];
    && (mid.Some? <==> last.asks != [] && last.bids != [])
    && (mid.Some? ==> mid.value - last.bids[0].price == last.asks[0].price - mid.value)
  }

  /** A frame column shows the price halfway between the best quotes of its last frame, if both sides quote. */
  lemma MidIsHalfway(frames: seq<Frame>, prints: seq<Print>, dayStart: int, n: nat, k: nat)
    requires k < n
    ensures var seen := FramesIn(frames, dayStart + k);
      seen != [] ==> IsHalfway(Build(frames, prints, dayStart, n).columns[k].mid, seen)
  {
    hide Build, FramesIn, PrintsIn, Second, FrameMid;
    ColumnAt(frames, prints, dayStart, n, k);
    var before, second := Build(frames, prints, dayStart, k), dayStart + k;
    var seen := FramesIn(frames, second);
    if seen != [] {
      FrameColumnMid(before.state, second, seen, PrintsIn(prints, second));
      Halfway(seen[|seen| - 1]);
    }
  }

  // ----- Executions

  /** What the prints of one second took from one row. */
  function PrintedIn(prints: seq<Print>, second: int, row: int): real {
    if prints == [] then 0.0
    else
      var p := prints[|prints| - 1];
      PrintedIn(prints[..|prints| - 1], second, row)
        + if SecondOf(p.epochMs) == second && p.price.Floor == row then p.size else 0.0
  }

  lemma {:induction false} ExecutedSums(prints: seq<Print>, second: int, row: int)
    ensures EatenAt(Executed(PrintsIn(prints, second)), row) == PrintedIn(prints, second, row)
  {
    if prints != [] {
      var front, p := prints[..|prints| - 1], prints[|prints| - 1];
      ExecutedSums(front, second, row);
      var before := PrintsIn(front, second);
      assert (before + [p])[..|before|] == before;
    }
  }

  lemma FrameColumnEats(st: State, second: int, frames: seq<Frame>, prints: seq<Print>, row: int)
    ensures var c := Second(st, second, frames, prints).1;
      RowIn(c, row).eaten == if frames != [] then EatenAt(Executed(prints), row) else 0.0
  {
    hide SortedKeys, Binned, Executed, FrameCells, StandingCells;
    if frames != [] {
      var end := Binned(frames[|frames| - 1]);
      var start := if st.levels.None? then Binned(frames[0]) else st.levels.value;
      var executed := Executed(prints);
      FindInFrameCells(RowsOf(start, end, executed), start, end, executed, row);
    } else if Carries(st, second) {
      var levels := st.levels.GetOr(map[]);
      FindInStanding(SortedKeys(levels.Keys), levels, row);
    }
  }

  /**
   Every print of a second with frames is executed in its row, once; a print of a second without
   frames is counted in no column.
   */
  lemma EatenIsPrinted(frames: seq<Frame>, prints: seq<Print>, dayStart: int, n: nat, k: nat, row: int)
    requires k < n
    ensures var c := Build(frames, prints, dayStart, n).columns[k];
      RowIn(c, row).eaten == if c.frames > 0 then PrintedIn(prints, dayStart + k, row) else 0.0
  {
    hide Build, FramesIn, PrintsIn, Second, RowIn, Executed, EatenAt, PrintedIn;
    ColumnAt(frames, prints, dayStart, n, k);
    var before, second := Build(frames, prints, dayStart, k), dayStart + k;
    SecondKind(before.state, second, FramesIn(frames, second), PrintsIn(prints, second));
    FrameColumnEats(before.state, second, FramesIn(frames, second), PrintsIn(prints, second), row);
    ExecutedSums(prints, second, row);
  }

  /** The size one side of a frame quotes in one row. */
  function QuotedIn(levels: seq<PriceLevel>, row: int): real {
    if levels == [] then 0.0
    else
      var l := levels[|levels| - 1];
      QuotedIn(levels[..|levels| - 1], row) + if l.price.Floor == row then l.size else 0.0
  }

  lemma {:induction false} AsksBinned(levels: Levels, asks: seq<PriceLevel>, row: int)
    ensures At(BinAsks(levels, asks), row) == (At(levels, row).0 + QuotedIn(asks, row), At(levels, row).1)
  {
    if asks != [] {
      AsksBinned(levels, asks[..|asks| - 1], row);
    }
  }

  lemma {:induction false} BidsBinned(levels: Levels, bids: seq<PriceLevel>, row: int)
    ensures At(BinBids(levels, bids), row) == (At(levels, row).0, At(levels, row).1 + QuotedIn(bids, row))
  {
    if bids != [] {
      BidsBinned(levels, bids[..|bids| - 1], row);
    }
  }

  /** Binning a frame keeps both sides apart and sums each by row. */
  lemma BinnedSums(f: Frame, row: int)
    ensures At(Binned(f), row) == (QuotedIn(f.asks, row), QuotedIn(f.bids, row))
  {
    AsksBinned(map[], f.asks, row);
    BidsBinned(BinAsks(map[], f.asks), f.bids, row);
  }

  // ----- Row order

  ghost predicate RowsAscend(cells: seq<Cell>) {
    forall i, j :: 0 <= i < j < |cells| ==> cells[i].row < cells[j].row
  }

  lemma {:induction false} FrameCellsAscend(rows: seq<int>, start: Levels, end: Levels, executed: map<int, real>)
    requires Ascending(rows)
    ensures RowsAscend(FrameCells(rows, start, end, executed))
    ensures forall c :: c in FrameCells(rows, start, end, executed) ==> c.row in rows
  {
    if rows != [] {
      hide CellAt, Quiet;
      var front, last := rows[..|rows| - 1], rows[|rows| - 1];
      FrameCellsAscend(front, start, end, executed);
      CellAtRow(last, start, end, executed);
      assert rows == front + [last];
      assert forall c :: c in FrameCells(front, start, end, executed) ==> c.row < last;
    }
  }

  lemma SecondAscends(st: State, second: int, frames: seq<Frame>, prints: seq<Print>)
    ensures RowsAscend(Second(st, second, frames, prints).1.cells)
  {
    hide SortedKeys, Binned, Executed, FrameCells;
    if frames != [] {
      var end := Binned(frames[|frames| - 1]);
      var start := if st.levels.None? then Binned(frames[0]) else st.levels.value;
      FrameCellsAscend(RowsOf(start, end, Executed(prints)), start, end, Executed(prints));
    }
  }

  /** The cells of every built column have strictly ascending rows: no row is listed twice. */
  lemma BuiltRowsAscend(frames: seq<Frame>, prints: seq<Print>, dayStart: int, n: nat, k: nat)
    requires k < n
    ensures RowsAscend(Build(frames, prints, dayStart, n).columns[k].cells)
  {
    hide Build, FramesIn, PrintsIn, Second, RowsAscend;
    ColumnAt(frames, prints, dayStart, n, k);
    var before, second := Build(frames, prints, dayStart, k), dayStart + k;
    SecondAscends(before.state, second, FramesIn(frames, second), PrintsIn(prints, second));
  }

  // ----- Whole columns, from the frames and prints alone

  /** The frames of two stretches are those of the first and then those of the second. */
  lemma {:induction false} FramesOfBoth(a: seq<Frame>, b: seq<Frame>, second: int)
    ensures FramesIn(a + b, second) == FramesIn(a, second) + FramesIn(b, second)
  {
    if b == [] {
      assert a + b == a;
    } else {
      var n := |b| - 1;
      assert (a + b)[..|a| + n] == a + b[..n];
      FramesOfBoth(a, b[..n], second);
    }
  }

  /** A frame belongs to the second its time in milliseconds lies in. */
  lemma OneFrame(f: Frame, second: int)
    ensures FramesIn([f], second) == if 1000 * second <= f.epochMs < 1000 * second + 1000 then [f] else []
  {
    assert [f][..0] == [];
  }

  /** What is printed in a row in a second adds over the prints. */
  lemma {:induction false} PrintedOfBoth(a: seq<Print>, b: seq<Print>, second: int, row: int)
    ensures PrintedIn(a + b, second, row) == PrintedIn(a, second, row) + PrintedIn(b, second, row)
  {
    if b == [] {
      assert a + b == a;
    } else {
      var n := |b| - 1;
      assert (a + b)[..|a| + n] == a + b[..n];
      PrintedOfBoth(a, b[..n], second, row);
    }
  }

  /** A print counts with its size in the second of its time and in the one-unit row of its price. */
  lemma OnePrint(p: Print, second: int, row: int)
    ensures PrintedIn([p], second, row)
      == if 1000 * second <= p.epochMs < 1000 * second + 1000 && row as real <= p.price < row as real + 1.0
         then p.size else 0.0
  {
    assert [p][..0] == [];
  }

  /** What one side quotes in a row adds over its levels. */
  lemma {:induction false} QuotedOfBoth(a: seq<PriceLevel>, b: seq<PriceLevel>, row: int)
    ensures QuotedIn(a + b, row) == QuotedIn(a, row) + QuotedIn(b, row)
  {
    if b == [] {
      assert a + b == a;
    } else {
      var n := |b| - 1;
      assert (a + b)[..|a| + n] == a + b[..n];
      QuotedOfBoth(a, b[..n], row);
    }
  }

  lemma OneQuote(l: PriceLevel, row: int)
    ensures QuotedIn([l], row) == if row as real <= l.price < row as real + 1.0 then l.size else 0.0
  {
    assert [l][..0] == [];
  }

  /** Ask and bid size a frame quotes in a row. */
  function Quoted(f: Frame, row: int): (real, real) { (QuotedIn(f.asks, row), QuotedIn(f.bids, row)) }

  ghost predicate Listed(cells: seq<Cell>, row: int) { exists i :: 0 <= i < |cells| && cells[i].row == row }

  lemma {:induction false} FoundIsListed(cells: seq<Cell>, row: int)
    requires RowsAscend(cells)
    ensures Find(cells, row).Some? <==> Listed(cells, row)
    ensures forall i :: 0 <= i < |cells| && cells[i].row == row ==> Find(cells, row) == Some(cells[i])
  {
    if cells != [] {
      var n := |cells| - 1;
      FoundIsListed(cells[..n], row);
      assert cells[n].row == row ==> Listed(cells, row);
      if Listed(cells[..n], row) {
        var i :| 0 <= i < n && cells[..n][i].row == row;
        assert cells[i].row == row;
      }
      assert forall i :: 0 <= i < n ==> cells[..n][i] == cells[i];
    }
  }

  /** Frame `f` is what column `k` opens from: its own first frame after a reset, else the last frame before it. */
  ghost predicate OpensFrom(c: Column, frames: seq<Frame>, dayStart: int, k: nat, f: Frame) {
    if c.reset then FramesIn(frames, dayStart + k) != [] && f == FramesIn(frames, dayStart + k)[0]
    else exists j: nat :: IsLastFrameSecond(frames, dayStart, k, j)
           && f == FramesIn(frames, dayStart + j)[|FramesIn(frames, dayStart + j)| - 1]
  }

  /** The column accounts for the row between the frames `f` and `g`; a row with nothing to tell is left out. */
  ghost predicate AccountsFor(c: Column, row: int, f: Frame, g: Frame, eaten: real) {
    var start, end := Quoted(f, row), Quoted(g, row);
    && (!Listed(c.cells, row) <==> start.0 + start.1 == 0.0 && end.0 + end.1 == 0.0 && eaten == 0.0)
    && (forall i :: 0 <= i < |c.cells| && c.cells[i].row == row ==> Accounts(c.cells[i], row, start, end, eaten))
  }

  lemma FrameCellsAccount(st: State, second: int, frames: seq<Frame>, prints: seq<Print>, row: int, f: Frame)
    requires frames != []
    requires if st.levels.None? then f == frames[0] else st.levels == Some(Binned(f))
    ensures var c := Second(st, second, frames, prints).1;
      AccountsFor(c, row, f, frames[|frames| - 1], EatenAt(Executed(prints), row))
  {
    hide SortedKeys, Binned, Executed, FrameCells, CellAt, Accounts, FrameMid, RowsAscend, Find, Listed;
    var g := frames[|frames| - 1];
    var start, end, executed := Binned(f), Binned(g), Executed(prints);
    var rows := RowsOf(start, end, executed);
    FindInFrameCells(rows, start, end, executed, row);
    FrameCellsAscend(rows, start, end, executed);
    FoundIsListed(FrameCells(rows, start, end, executed), row);
    CellBalances(row, start, end, executed);
    BinnedSums(f, row);
    BinnedSums(g, row);
  }

  /**
   A frame column, row by row: every row in which anything stood or was printed has one cell, which
   accounts for the change from the opening frame to the second's last frame with the second's
   prints; other rows have none.
   */
  lemma FrameColumnAccounts(frames: seq<Frame>, prints: seq<Print>, dayStart: int, n: nat, k: nat, row: int)
    requires k < n
    ensures var c, seen := Build(frames, prints, dayStart, n).columns[k], FramesIn(frames, dayStart + k);
      seen != [] ==>
        exists f: Frame :: OpensFrom(c, frames, dayStart, k, f)
          && AccountsFor(c, row, f, seen[|seen| - 1], PrintedIn(prints, dayStart + k, row))
  {
    hide Build, FramesIn, PrintsIn, Second, Executed, EatenAt, PrintedIn, AccountsFor, Binned, FrameMid;
    ColumnAt(frames, prints, dayStart, n, k);
    AlwaysSound(frames, prints, dayStart, k);
    CarriedAlong(frames, prints, dayStart, k);
    LastFrameMeans(frames, dayStart, k);
    var before, second := Build(frames, prints, dayStart, k), dayStart + k;
    var seen, c := FramesIn(frames, second), Build(frames, prints, dayStart, n).columns[k];
    SecondKind(before.state, second, seen, PrintsIn(prints, second));
    ExecutedSums(prints, second, row);
    if seen != [] {
      var f := if before.state.levels.None? then seen[0] else LastFrame(frames, dayStart, k).value;
      FrameCellsAccount(before.state, second, seen, PrintsIn(prints, second), row, f);
      assert OpensFrom(c, frames, dayStart, k, f);
    }
  }

  /** A row some level of the frame is priced in. */
  ghost predicate PricedIn(levels: seq<PriceLevel>, row: int) {
    exists i :: 0 <= i < |levels| && row as real <= levels[i].price < row as real + 1.0
  }

  lemma PricedSnoc(levels: seq<PriceLevel>, row: int)
    requires levels != []
    ensures var n := |levels| - 1; PricedIn(levels, row) <==> PricedIn(levels[..n], row) || levels[n].price.Floor == row
  {
    var n := |levels| - 1;
    if PricedIn(levels[..n], row) {
      var i :| 0 <= i < n && row as real <= levels[..n][i].price < row as real + 1.0;
      assert row as real <= levels[i].price < row as real + 1.0;
    }
    if PricedIn(levels, row) {
      var i :| 0 <= i < |levels| && row as real <= levels[i].price < row as real + 1.0;
      assert i < n ==> row as real <= levels[..n][i].price < row as real + 1.0;
    }
    assert row as real <= levels[n].price < row as real + 1.0 <==> levels[n].price.Floor == row;
  }

  lemma {:induction false} AskRows(levels: Levels, asks: seq<PriceLevel>, row: int)
    ensures row in BinAsks(levels, asks) <==> row in levels || PricedIn(asks, row)
  {
    if asks != [] {
      hide PricedIn;
      AskRows(levels, asks[..|asks| - 1], row);
      PricedSnoc(asks, row);
    }
  }

  lemma {:induction false} BidRows(levels: Levels, bids: seq<PriceLevel>, row: int)
    ensures row in BinBids(levels, bids) <==> row in levels || PricedIn(bids, row)
  {
    if bids != [] {
      hide PricedIn;
      BidRows(levels, bids[..|bids| - 1], row);
      PricedSnoc(bids, row);
    }
  }

  /** The cell shows what stands, with the sides that stand, and no flow at all. */
  ghost predicate Stands(c: Cell, row: int, standing: (real, real)) {
    && c.row == row && c.after == standing.0 + standing.1
    && c.netAdd == 0.0 && c.netCancel == 0.0 && c.eaten == 0.0
    && (c.side in {Ask, Both} <==> standing.0 > 0.0) && (c.side in {Bid, Both} <==> standing.1 > 0.0)
  }

  /** The column lists exactly the rows frame `f` prices, each with what stands there and no flow. */
  ghost predicate ShowsStanding(c: Column, row: int, f: Frame) {
    && (Listed(c.cells, row) <==> PricedIn(f.asks, row) || PricedIn(f.bids, row))
    && (forall i :: 0 <= i < |c.cells| && c.cells[i].row == row ==> Stands(c.cells[i], row, Quoted(f, row)))
  }

  lemma StandingCellsAscend(rows: seq<int>, levels: Levels)
    requires Ascending(rows)
    ensures RowsAscend(StandingCells(rows, levels))
  {
  }

  lemma StandingCellStands(levels: Levels, row: int)
    ensures Stands(StandingCell(levels, row), row, At(levels, row))
  {
  }

  lemma CarriedCellsStand(st: State, second: int, prints: seq<Print>, row: int, f: Frame)
    requires Carries(st, second) && st.levels == Some(Binned(f))
    ensures ShowsStanding(Second(st, second, [], prints).1, row, f)
  {
    hide SortedKeys, Binned, StandingCells, StandingCell, Find, Listed, RowsAscend, PricedIn, Stands;
    var levels := Binned(f);
    var rows := SortedKeys(levels.Keys);
    FindInStanding(rows, levels, row);
    StandingCellsAscend(rows, levels);
    FoundIsListed(StandingCells(rows, levels), row);
    StandingCellStands(levels, row);
    BinnedSums(f, row);
    BinnedRows(f, row);
  }

  lemma BinnedRows(f: Frame, row: int)
    ensures row in Binned(f) <==> PricedIn(f.asks, row) || PricedIn(f.bids, row)
  {
    hide PricedIn;
    AskRows(map[], f.asks, row);
    BidRows(BinAsks(map[], f.asks), f.bids, row);
  }

  /** A carried column shows what stood in the last frame before it, row by row, without any flow, and its mid price. */
  lemma CarriedColumnShows(frames: seq<Frame>, prints: seq<Print>, dayStart: int, n: nat, k: nat, row: int)
    requires k < n
    ensures var c := Build(frames, prints, dayStart, n).columns[k];
      c.carried ==>
        exists j: nat :: IsLastFrameSecond(frames, dayStart, k, j)
          && (var seen := FramesIn(frames, dayStart + j);
              ShowsStanding(c, row, seen[|seen| - 1]) && IsHalfway(c.mid, seen))
  {
    hide Build, FramesIn, PrintsIn, Second, Binned, FrameMid, Carries, ShowsStanding, IsLastFrameSecond;
    ColumnAt(frames, prints, dayStart, n, k);
    CarriedAlong(frames, prints, dayStart, k);
    LastFrameMeans(frames, dayStart, k);
    var before, second := Build(frames, prints, dayStart, k), dayStart + k;
    SecondKind(before.state, second, FramesIn(frames, second), PrintsIn(prints, second));
    if FramesIn(frames, second) == [] && Carries(before.state, second) {
      CarriedHasLevels(frames, prints, dayStart, k);
      var f := LastFrame(frames, dayStart, k).value;
      CarriedCellsStand(before.state, second, PrintsIn(prints, second), row, f);
      Halfway(f);
      var j: nat :| IsLastFrameSecond(frames, dayStart, k, j);
      LastSecondSeen(frames, dayStart, k, j);
    }
  }

  lemma LastSecondSeen(frames: seq<Frame>, dayStart: int, k: nat, j: nat)
    requires IsLastFrameSecond(frames, dayStart, k, j)
    ensures FramesIn(frames, dayStart + j) != []
  {
  }

  /** Column `k` is that of second `dayStart + k`, and a gap shows no cells and no mid price. */
  lemma GapsAreEmpty(frames: seq<Frame>, prints: seq<Print>, dayStart: int, n: nat, k: nat)
    requires k < n
    ensures var c := Build(frames, prints, dayStart, n).columns[k];
      c.e == dayStart + k && (c.gap ==> c.cells == [] && c.mid == None && c.frames == 0)
  {
    hide Build, FramesIn, PrintsIn, Binned, FrameMid, FrameCells, RowsOf, StandingCells, SortedKeys, Executed;
    ColumnAt(frames, prints, dayStart, n, k);
  }

  // ----- Conservation

  /** The stored levels are the last column's quantities, row by row. */
  lemma StoredLevelsAreShown(frames: seq<Frame>, prints: seq<Print>, dayStart: int, n: nat, row: int)
    requires n > 0
    ensures var b := Build(frames, prints, dayStart, n);
      b.state.levels.Some? ==> RowIn(b.columns[n - 1], row).after == Total(b.state.levels.value, row)
  {
    hide FramesIn, PrintsIn, Second, Find, Total;
    var before, second := Build(frames, prints, dayStart, n - 1), dayStart + n - 1;
    AlwaysSound(frames, prints, dayStart, n - 1);
    SecondShows(before.state, second, FramesIn(frames, second), PrintsIn(prints, second), row);
    if FramesIn(frames, second) == [] && Carries(before.state, second) {
      CarriedHasLevels(frames, prints, dayStart, n - 1);
    }
  }

  lemma SecondShows(st: State, second: int, frames: seq<Frame>, prints: seq<Print>, row: int)
    requires frames == [] && Carries(st, second) ==> st.levels.Some?
    ensures var (next, c) := Second(st, second, frames, prints);
      next.levels.Some? ==> RowIn(c, row).after == Total(next.levels.value, row)
  {
    if frames != [] {
      FrameColumnBalances(st, second, frames, prints, row);
    } else if Carries(st, second) {
      CarriedColumnStands(st, second, row);
      SilentSecond(st, second, prints);
    }
  }

  lemma SilentSecond(st: State, second: int, prints: seq<Print>)
    ensures Second(st, second, [], prints) == Second(st, second, [], [])
  {
  }

  lemma SecondFlows(st: State, second: int, frames: seq<Frame>, prints: seq<Print>, row: int)
    requires st.levels.Some?
    ensures var (next, c) := Second(st, second, frames, prints);
      !c.gap ==> RowIn(c, row).after == Total(st.levels.value, row) + NetFlow(c, row)
  {
    if frames != [] {
      FrameColumnBalances(st, second, frames, prints, row);
    } else if Carries(st, second) {
      CarriedColumnStands(st, second, row);
      SilentSecond(st, second, prints);
    }
  }

  /** One step of conservation: from a column that is no gap to the next one that is no gap. */
  lemma FlowsJoin(frames: seq<Frame>, prints: seq<Print>, dayStart: int, n: nat, k: nat, row: int)
    requires 0 < k < n
    ensures var columns := Build(frames, prints, dayStart, n).columns;
      !columns[k - 1].gap && !columns[k].gap ==>
        RowIn(columns[k], row).after == RowIn(columns[k - 1], row).after + NetFlow(columns[k], row)
  {
    hide Build, FramesIn, PrintsIn, Second, Find, Total;
    ColumnAt(frames, prints, dayStart, n, k);
    AlwaysSound(frames, prints, dayStart, k);
    var before, second := Build(frames, prints, dayStart, k), dayStart + k;
    StoredLevelsAreShown(frames, prints, dayStart, k, row);
    if before.state.levels.Some? {
      SecondFlows(before.state, second, FramesIn(frames, second), PrintsIn(prints, second), row);
    }
  }

  /** Total net flow of a row over the columns `from..till`. */
  function FlowOver(columns: seq<Column>, from: nat, till: nat, row: int): real
    requires from <= till <= |columns|
    decreases till - from
  {
    if from == till then 0.0 else FlowOver(columns, from, till - 1, row) + NetFlow(columns[till - 1], row)
  }

  /** Neighbouring columns that are no gaps are joined by the later one's flow. */
  ghost predicate Joined(columns: seq<Column>, k: nat, row: int)
    requires 0 < k < |columns|
  {
    !columns[k - 1].gap && !columns[k].gap ==>
      RowIn(columns[k], row).after == RowIn(columns[k - 1], row).after + NetFlow(columns[k], row)
  }

  lemma {:induction false} JoinedStretch(columns: seq<Column>, from: nat, till: nat, row: int)
    requires from <= till < |columns|
    requires forall k :: from <= k <= till ==> !columns[k].gap
    requires forall k :: 0 < k < |columns| ==> Joined(columns, k, row)
    ensures RowIn(columns[till], row).after
         == RowIn(columns[from], row).after + FlowOver(columns, from + 1, till + 1, row)
    decreases till - from
  {
    hide RowIn, NetFlow;
    if from < till {
      JoinedStretch(columns, from, till - 1, row);
      assert Joined(columns, till, row);
    }
  }

  /**
   Conservation. Over any stretch of frame and carried columns with no gap between them, every row
   ends with its starting quantity plus all net additions minus all net cancellations minus
   everything executed.
   */
  lemma QuantityIsConserved(
    frames: seq<Frame>, prints: seq<Print>, dayStart: int, n: nat, from: nat, till: nat, row: int)
    requires from <= till < n
    requires forall k :: from <= k <= till ==> !Build(frames, prints, dayStart, n).columns[k].gap
    ensures var columns := Build(frames, prints, dayStart, n).columns;
      RowIn(columns[till], row).after == RowIn(columns[from], row).after + FlowOver(columns, from + 1, till + 1, row)
  {
    hide Build, RowIn, NetFlow, FlowOver;
    var columns := Build(frames, prints, dayStart, n).columns;
    forall k | 0 < k < n ensures Joined(columns, k, row) {
      FlowsJoin(frames, prints, dayStart, n, k, row);
    }
    JoinedStretch(columns, from, till, row);
  }

  /** A reset column balances against the first frame of its own second. */
  lemma ResetStartsFromFirstFrame(frames: seq<Frame>, prints: seq<Print>, dayStart: int, n: nat, k: nat, row: int)
    requires k < n
    ensures var c := Build(frames, prints, dayStart, n).columns[k];
      c.reset ==>
        && FramesIn(frames, dayStart + k) != []
        && RowIn(c, row).after == Total(Binned(FramesIn(frames, dayStart + k)[0]), row) + NetFlow(c, row)
  {
    hide Build, FramesIn, PrintsIn, Second, Find, Total, Binned;
    ColumnAt(frames, prints, dayStart, n, k);
    var before, second := Build(frames, prints, dayStart, k), dayStart + k;
    SecondKind(before.state, second, FramesIn(frames, second), PrintsIn(prints, second));
    if FramesIn(frames, second) != [] {
      FrameColumnBalances(before.state, second, FramesIn(frames, second), PrintsIn(prints, second), row);
    }
  }
}
