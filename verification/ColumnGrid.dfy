/**
 The one-second column grid (`build_columns`): frames and trade prints of a day become
 columns of per-row net additions, cancellations and executions, carried over short
 silences and broken by long ones.
 */
module ColumnGrid {
  import opened Options
  import opened Sorting

  const CARRY_LIMIT_MS := 30000

  datatype PriceLevel = PriceLevel(price: real, size: real)

  datatype Frame = Frame(epochMs: int, asks: seq<PriceLevel>, bids: seq<PriceLevel>)

  datatype Print = Print(epochMs: int, price: real, size: real)

  datatype CellSide = Both | Ask | Bid | Void

  datatype Cell = Cell(row: int, side: CellSide, after: real, netAdd: real, netCancel: real, eaten: real)

  datatype Column = Column(
    e: int, gap: bool, carried: bool, reset: bool, frames: nat, mid: Option<real>, cells: seq<Cell>)

  /** Ask and bid quantity of each price row. */
  type Levels = map<int, (real, real)>

  // ----- One frame

  function At(levels: Levels, row: int): (real, real) {
    if row in levels then levels[row] else (0.0, 0.0)
  }

  function Total(levels: Levels, row: int): real { At(levels, row).0 + At(levels, row).1 }

  function BinAsks(levels: Levels, asks: seq<PriceLevel>): Levels {
    if asks == [] then levels
    else
      var before, l := BinAsks(levels, asks[..|asks| - 1]), asks[|asks| - 1];
      var row := l.price.Floor;
      before[row := (At(before, row).0 + l.size, At(before, row).1)]
  }

  function BinBids(levels: Levels, bids: seq<PriceLevel>): Levels {
    if bids == [] then levels
    else
      var before, l := BinBids(levels, bids[..|bids| - 1]), bids[|bids| - 1];
      var row := l.price.Floor;
      before[row := (At(before, row).0, At(before, row).1 + l.size)]
  }

  function Binned(f: Frame): Levels { BinBids(BinAsks(map[], f.asks), f.bids) }

  function SideOf(ask: real, bid: real): CellSide {
    if ask > 0.0 && bid > 0.0 then Both else if ask > 0.0 then Ask else if bid > 0.0 then Bid else Void
  }

  function FrameMid(f: Frame): Option<real> {
    if f.asks == [] || f.bids == [] then None else Some((f.asks[0].price + f.bids[0].price) / 2.0)
  }

  // ----- One second

  function SecondOf(epochMs: int): int { epochMs / 1000 }

  function FramesIn(frames: seq<Frame>, second: int): (r: seq<Frame>)
    ensures forall i :: 0 <= i < |r| ==> SecondOf(r[i].epochMs) == second
  {
    if frames == [] then []
    else
      var before, f := FramesIn(frames[..|frames| - 1], second), frames[|frames| - 1];
      if SecondOf(f.epochMs) == second then before + [f] else before
  }

  function PrintsIn(prints: seq<Print>, second: int): seq<Print> {
    if prints == [] then []
    else
      var before, p := PrintsIn(prints[..|prints| - 1], second), prints[|prints| - 1];
      if SecondOf(p.epochMs) == second then before + [p] else before
  }

  function Executed(prints: seq<Print>): map<int, real> {
    if prints == [] then map[]
    else
      var before, p := Executed(prints[..|prints| - 1]), prints[|prints| - 1];
      var row := p.price.Floor;
      before[row := (if row in before then before[row] else 0.0) + p.size]
  }

  function EatenAt(executed: map<int, real>, row: int): real {
    if row in executed then executed[row] else 0.0
  }

  /** The row's net flow: what is left after executions is an addition or a cancellation. */
  function CellAt(row: int, start: Levels, end: Levels, executed: map<int, real>): Cell {
    var before, after, eaten := Total(start, row), Total(end, row), EatenAt(executed, row);
    var residual := after - before + eaten;
    var closing := SideOf(At(end, row).0, At(end, row).1);
    Cell(row, if closing == Void then SideOf(At(start, row).0, At(start, row).1) else closing,
         after, if residual > 0.0 then residual else 0.0, if residual < 0.0 then -residual else 0.0, eaten)
  }

  /**
   The cell accounts for its row from what stood there at the opening and at the close, asks before bids, and
   what was executed: closing is opening plus additions minus cancellations minus what was executed, it never
   both adds and cancels, and its side names exactly the sides that stood at the close, or at the opening if
   nothing is left.
   */
  ghost predicate Accounts(c: Cell, row: int, start: (real, real), end: (real, real), eaten: real) {
    var stood := if end.0 > 0.0 || end.1 > 0.0 then end else start;
    && c.row == row && c.after == end.0 + end.1 && c.eaten == eaten
    && c.after == start.0 + start.1 + c.netAdd - c.netCancel - c.eaten
    && c.netAdd >= 0.0 && c.netCancel >= 0.0 && (c.netAdd == 0.0 || c.netCancel == 0.0)
    && (c.side in {Ask, Both} <==> stood.0 > 0.0) && (c.side in {Bid, Both} <==> stood.1 > 0.0)
  }

  ghost predicate Balances(c: Cell, row: int, start: Levels, end: Levels, executed: map<int, real>) {
    Accounts(c, row, At(start, row), At(end, row), EatenAt(executed, row))
  }

  /** Only one cell accounts for a row. */
  lemma BalanceDecides(c: Cell, row: int, start: Levels, end: Levels, executed: map<int, real>)
    requires Balances(c, row, start, end, executed)
    ensures c == CellAt(row, start, end, executed)
  {
  }

  predicate Quiet(row: int, start: Levels, end: Levels, executed: map<int, real>) {
    Total(start, row) == Total(end, row) == EatenAt(executed, row) == 0.0
  }

  function FrameCells(rows: seq<int>, start: Levels, end: Levels, executed: map<int, real>): seq<Cell> {
    if rows == [] then []
    else
      var before, row := FrameCells(rows[..|rows| - 1], start, end, executed), rows[|rows| - 1];
      if Quiet(row, start, end, executed) then before else before + [CellAt(row, start, end, executed)]
  }

  function RowsOf(start: Levels, end: Levels, executed: map<int, real>): seq<int> {
    SortedKeys(start.Keys + end.Keys + executed.Keys)
  }

  function StandingCell(levels: Levels, row: int): Cell {
    Cell(row, SideOf(At(levels, row).0, At(levels, row).1), Total(levels, row), 0.0, 0.0, 0.0)
  }

  function StandingCells(rows: seq<int>, levels: Levels): (r: seq<Cell>)
    ensures |r| == |rows|
    ensures forall i :: 0 <= i < |r| ==> r[i] == StandingCell(levels, rows[i])
  {
    if rows == [] then [] else StandingCells(rows[..|rows| - 1], levels) + [StandingCell(levels, rows[|rows| - 1])]
  }

  // ----- The day

  /** The three variables carried from second to second. */
  datatype State = State(levels: Option<Levels>, lastFrameMs: Option<int>, carriedMid: Option<real>)

  const SILENT := State(None, None, None)

  predicate Carries(st: State, second: int) {
    st.lastFrameMs.Some? && (second + 1) * 1000 - st.lastFrameMs.value <= CARRY_LIMIT_MS
  }

  function Second(st: State, second: int, frames: seq<Frame>, prints: seq<Print>): (State, Column) {
    if frames != [] then
      var last, end := frames[|frames| - 1], Binned(frames[|frames| - 1]);
      var start := if st.levels.None? then Binned(frames[0]) else st.levels.value;
      var executed := Executed(prints);
      (State(Some(end), Some(last.epochMs), FrameMid(last)),
       Column(second, false, false, st.levels.None?, |frames|, FrameMid(last),
              FrameCells(RowsOf(start, end, executed), start, end, executed)))
    else if Carries(st, second) then
      var levels := st.levels.GetOr(map[]);
      (st, Column(second, false, true, false, 0, st.carriedMid, StandingCells(SortedKeys(levels.Keys), levels)))
    else
      (st.(levels := None), Column(second, true, false, false, 0, None, []))
  }

  datatype Built = Built(state: State, columns: seq<Column>)

  /** The state and the columns after the first `n` seconds of the day. */
  function Build(frames: seq<Frame>, prints: seq<Print>, dayStart: int, n: nat): (b: Built)
    ensures |b.columns| == n
  {
    if n == 0 then Built(SILENT, [])
    else
      var before, second := Build(frames, prints, dayStart, n - 1), dayStart + n - 1;
      var (st, column) := Second(before.state, second, FramesIn(frames, second), PrintsIn(prints, second));
      Built(st, before.columns + [column])
  }

  lemma OneSecondMore(frames: seq<Frame>, prints: seq<Print>, dayStart: int, n: nat)
    ensures var before, second := Build(frames, prints, dayStart, n), dayStart + n;
      var (st, c) := Second(before.state, second, FramesIn(frames, second), PrintsIn(prints, second));
      Build(frames, prints, dayStart, n + 1) == Built(st, before.columns + [c])
  {
  }

  lemma NoSeconds(frames: seq<Frame>, prints: seq<Print>, dayStart: int)
    ensures Build(frames, prints, dayStart, 0) == Built(SILENT, [])
  {
  }

  method GroupFrames(frames: seq<Frame>, dayStart: int, horizon: int) returns (bySecond: map<int, seq<Frame>>)
    ensures forall at :: 0 <= at < horizon - dayStart ==>
      (if at in bySecond then bySecond[at] else []) == FramesIn(frames, dayStart + at)
  {
    bySecond := map[];
    for k := 0 to |frames|
      invariant forall at :: 0 <= at < horizon - dayStart ==>
        (if at in bySecond then bySecond[at] else []) == FramesIn(frames[..k], dayStart + at)
    {
      assert frames[..k + 1][..k] == frames[..k];
      var second := frames[k].epochMs / 1000;
      if second < dayStart || second >= horizon {
        continue;
      }
      var at := second - dayStart;
      bySecond := bySecond[at := (if at in bySecond then bySecond[at] else []) + [frames[k]]];
    }
    assert frames[..|frames|] == frames;
  }

  method GroupPrints(prints: seq<Print>, dayStart: int, horizon: int) returns (bySecond: map<int, seq<Print>>)
    ensures forall at :: 0 <= at < horizon - dayStart ==>
      (if at in bySecond then bySecond[at] else []) == PrintsIn(prints, dayStart + at)
  {
    bySecond := map[];
    for k := 0 to |prints|
      invariant forall at :: 0 <= at < horizon - dayStart ==>
        (if at in bySecond then bySecond[at] else []) == PrintsIn(prints[..k], dayStart + at)
    {
      assert prints[..k + 1][..k] == prints[..k];
      var second := prints[k].epochMs / 1000;
      if second < dayStart || second >= horizon {
        continue;
      }
      var at := second - dayStart;
      bySecond := bySecond[at := (if at in bySecond then bySecond[at] else []) + [prints[k]]];
    }
    assert prints[..|prints|] == prints;
  }

  method ExecutedByRow(prints: seq<Print>) returns (executed: map<int, real>)
    ensures executed == Executed(prints)
  {
    executed := map[];
    for k := 0 to |prints|
      invariant executed == Executed(prints[..k])
    {
      assert prints[..k + 1][..k] == prints[..k];
      var row := prints[k].price.Floor;
      executed := executed[row := (if row in executed then executed[row] else 0.0) + prints[k].size];
    }
    assert prints[..|prints|] == prints;
  }

  lemma FrameCellsStep(rows: seq<int>, k: nat, start: Levels, end: Levels, executed: map<int, real>)
    requires k < |rows|
    ensures var before := FrameCells(rows[..k], start, end, executed);
      FrameCells(rows[..k + 1], start, end, executed)
        == if Quiet(rows[k], start, end, executed) then before else before + [CellAt(rows[k], start, end, executed)]
  {
    assert rows[..k + 1][..k] == rows[..k];
  }

  lemma FrameCellsStart(rows: seq<int>, start: Levels, end: Levels, executed: map<int, real>)
    ensures FrameCells(rows[..0], start, end, executed) == [] && rows[..|rows|] == rows
  {
  }

  /** The cells of a second with frames. */
  method CellsOfSecond(start: Levels, end: Levels, executed: map<int, real>) returns (cells: seq<Cell>)
    ensures cells == FrameCells(RowsOf(start, end, executed), start, end, executed)
  {
    hide SortedKeys, FrameCells, Total, EatenAt, CellAt, Balances;
    var rows := SortedKeys(start.Keys + end.Keys + executed.Keys);
    FrameCellsStart(rows, start, end, executed);
    cells := [];
    for k := 0 to |rows|
      invariant cells == FrameCells(rows[..k], start, end, executed)
    {
      FrameCellsStep(rows, k, start, end, executed);
      var row := rows[k];
      var before, after, eaten := Total(start, row), Total(end, row), EatenAt(executed, row);
      if before == after == eaten == 0.0 {
        continue;
      }
      var cell := NetCell(row, start, end, executed);
      BalanceDecides(cell, row, start, end, executed);
      cells := cells + [cell];
    }
  }

  /** One row's cell: the residual of the quantity change is an addition or a cancellation. */
  method NetCell(row: int, start: Levels, end: Levels, executed: map<int, real>) returns (cell: Cell)
    ensures Balances(cell, row, start, end, executed)
  {
    var before, after, eaten := Total(start, row), Total(end, row), EatenAt(executed, row);
    var residual := after - before + eaten;
    var netAdd := if residual > 0.0 then residual else 0.0;
    var netCancel := if residual < 0.0 then -residual else 0.0;
    var side := SideOf(At(end, row).0, At(end, row).1);
    if side == Void {
      side := SideOf(At(start, row).0, At(start, row).1);
    }
    cell := Cell(row, side, after, netAdd, netCancel, eaten);
  }

  method BuildColumns(frames: seq<Frame>, prints: seq<Print>, dayStart: int, horizon: int)
    returns (columns: seq<Column>)
    ensures columns == Build(frames, prints, dayStart, if horizon > dayStart then horizon - dayStart else 0).columns
  {
    hide FramesIn, PrintsIn, FrameCells, RowsOf, SortedKeys, Executed, Binned, FrameMid, StandingCells, Build;
    NoSeconds(frames, prints, dayStart);
    var bySecond := GroupFrames(frames, dayStart, horizon);
    var printsBySecond := GroupPrints(prints, dayStart, horizon);
    var prevLevels: Option<Levels> := None;
    var lastFrameMs: Option<int> := None;
    var carriedMid: Option<real> := None;
    columns := [];
    var n := if horizon > dayStart then horizon - dayStart else 0;
    for at := 0 to n
      invariant Built(State(prevLevels, lastFrameMs, carriedMid), columns) == Build(frames, prints, dayStart, at)
    {
      OneSecondMore(frames, prints, dayStart, at);
      var bucket := if at in bySecond then bySecond[at] else [];
      var bucketPrints := if at in printsBySecond then printsBySecond[at] else [];
      assert bucket == FramesIn(frames, dayStart + at) && bucketPrints == PrintsIn(prints, dayStart + at);
      if bucket != [] {
        var last := bucket[|bucket| - 1];
        var endLevels := Binned(last);
        var reset := prevLevels.None?;
        var startLevels := if reset then Binned(bucket[0]) else prevLevels.value;
        var executed := ExecutedByRow(bucketPrints);
        var cells := CellsOfSecond(startLevels, endLevels, executed);
        var mid := FrameMid(last);
        columns := columns + [Column(dayStart + at, false, false, reset, |bucket|, mid, cells)];
        prevLevels := Some(endLevels);
        carriedMid := mid;
        lastFrameMs := Some(last.epochMs);
      } else {
        var bucketEndMs := (dayStart + at + 1) * 1000;
        if lastFrameMs.Some? && bucketEndMs - lastFrameMs.value <= CARRY_LIMIT_MS {
          var levels := prevLevels.GetOr(map[]);
          var cells := StandingCells(SortedKeys(levels.Keys), levels);
          columns := columns + [Column(dayStart + at, false, true, false, 0, carriedMid, cells)];
        } else {
          columns := columns + [Column(dayStart + at, true, false, false, 0, None, [])];
          prevLevels := None;
        }
      }
    }
  }
}
