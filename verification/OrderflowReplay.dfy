/**
 Sparse order-flow columns: the per-column step on the book (`ofl-v2.ts`), the replay
 of a chunk of columns and the reconciliation of replayed chunks (`ofl-replay.ts`).
 */
module OrderflowReplay {
  import opened Options
  import opened OrderedMap
  import opened Sorting

  datatype Side = Ask | Bid

  /** `takerTotal` is the text of the cell's taker buy size plus its taker sell size. */
  datatype Cell = Cell(
    side: Side, priceKey: int, price: string, bookEndSize: Option<string>, netIncrease: string,
    netDecreaseUnknown: string, takerTotal: string, stateRole: string)

  datatype Column = Column(
    columnId: string, bucketEpoch: int, bucketStart: string, isAnchor: bool, isReset: bool, isCarried: bool,
    isGap: bool, contextOnly: bool, frameCount: int, methodVersion: string, rowSize: Option<string>,
    cells: seq<Cell>)

  datatype Level = Level(side: Side, priceKey: int, price: string, size: string)

  type LevelKey = (Side, int)
  type Levels = Entries<LevelKey, Level>

  datatype BookState = BookState(trusted: bool, levels: Levels)

  const UNTRUSTED := BookState(false, [])

  datatype TileCell = TileCell(
    price: string, side: Side, size: string, netIncrease: string, netDecrease: string, taker: string)

  /** A replayed column. The fields TypeScript may leave undefined are optional. */
  datatype TileColumn = TileColumn(
    t: string, e: int, gap: bool, carried: bool, reset: bool, methodVersion: Option<string>,
    rowSize: Option<string>, contractBreak: Option<bool>, frames: int, cells: seq<TileCell>)

  // ----- One column

  function KeyOf(c: Cell): LevelKey { (c.side, c.priceKey) }

  /** A trade-only cell never touches the book; an absent or zero size removes the level. */
  function ApplyCell(levels: Levels, c: Cell): Levels {
    if c.stateRole == "trade" then levels
    else if c.bookEndSize == None || c.bookEndSize == Some("0") then Delete(levels, KeyOf(c))
    else Set(levels, KeyOf(c), Level(c.side, c.priceKey, c.price, c.bookEndSize.value))
  }

  function ApplyCells(levels: Levels, cells: seq<Cell>): Levels {
    if cells == [] then levels
    else ApplyCell(ApplyCells(levels, cells[..|cells| - 1]), cells[|cells| - 1])
  }

  function Apply(previous: BookState, column: Column): BookState {
    if column.isGap then UNTRUSTED
    else
      var levels := if column.isAnchor then [] else previous.levels;
      if column.isAnchor || previous.trusted then BookState(true, ApplyCells(levels, column.cells))
      else BookState(false, levels)
  }

  method ApplyOrderflowColumnV2(previous: BookState, column: Column) returns (next: BookState)
    ensures next == Apply(previous, column)
  {
    if column.isGap {
      return BookState(false, []);
    }
    var levels: Levels := if column.isAnchor then [] else previous.levels;
    ghost var start := levels;
    var trusted := column.isAnchor || previous.trusted;
    if !trusted {
      return BookState(false, levels);
    }
    for at := 0 to |column.cells|
      invariant levels == ApplyCells(start, column.cells[..at])
    {
      assert column.cells[..at + 1][..at] == column.cells[..at];
      var cell := column.cells[at];
      if cell.stateRole == "trade" {
        continue;
      }
      var key := KeyOf(cell);
      if cell.bookEndSize == None || cell.bookEndSize == Some("0") {
        levels := Delete(levels, key);
        continue;
      }
      levels := Set(levels, key, Level(cell.side, cell.priceKey, cell.price, cell.bookEndSize.value));
    }
    assert column.cells[..|column.cells|] == column.cells;
    return BookState(true, levels);
  }

  // ----- Replay of one source

  /** `method_version`, a NUL and the row size; an absent row size reads `<null>`. */
  function ContractText(methodVersion: string, rowSize: Option<string>): string {
    methodVersion + ['\0'] + rowSize.GetOr("<null>")
  }

  function ContractOf(c: Column): string { ContractText(c.methodVersion, c.rowSize) }

  datatype Cursor = Cursor(state: BookState, contract: Option<string>)

  const START := Cursor(UNTRUSTED, None)

  predicate Breaks(cur: Cursor, c: Column) {
    cur.contract.Some? && cur.contract.value != ContractOf(c)
  }

  function Advance(cur: Cursor, c: Column): Cursor {
    Cursor(Apply(if Breaks(cur, c) then UNTRUSTED else cur.state, c), Some(ContractOf(c)))
  }

  function AdvanceAll(cur: Cursor, columns: seq<Column>): Cursor {
    if columns == [] then cur
    else Advance(AdvanceAll(cur, columns[..|columns| - 1]), columns[|columns| - 1])
  }

  function CellPairs(cells: seq<Cell>): (r: seq<(LevelKey, Cell)>)
  {
    seq(|cells|, i requires 0 <= i < |cells| => (KeyOf(cells[i]), cells[i]))
  }

  function TileCellOf(entry: (LevelKey, Level), change: Option<Cell>): TileCell {
    var level := entry.1;
    match change
    case None => TileCell(level.price, level.side, level.size, "0", "0", "0")
    case Some(c) => TileCell(level.price, level.side, level.size, c.netIncrease, c.netDecreaseUnknown, c.takerTotal)
  }

  function TileCells(levels: Levels, changes: Entries<LevelKey, Cell>): seq<TileCell> {
    seq(|levels|, i requires 0 <= i < |levels| => TileCellOf(levels[i], Get(changes, levels[i].0)))
  }

  /** The row shown for `c`, given the cursor before it. */
  function RowOf(cur: Cursor, c: Column): TileColumn {
    var state, broke := Advance(cur, c).state, Breaks(cur, c);
    TileColumn(
      c.bucketStart, c.bucketEpoch, c.isGap || !state.trusted, c.isCarried && !broke,
      c.isReset || (broke && state.trusted), Some(c.methodVersion), c.rowSize, Some(broke), c.frameCount,
      if state.trusted then TileCells(state.levels, FromPairs(CellPairs(c.cells))) else [])
  }

  /** The `made` map after a source: one row per id of a column that is not context. */
  function Made(source: seq<Column>): Entries<string, TileColumn> {
    if source == [] then []
    else
      var front, c := source[..|source| - 1], source[|source| - 1];
      if c.contextOnly then Made(front) else Set(Made(front), c.columnId, RowOf(AdvanceAll(START, front), c))
  }

  function Visible(columns: seq<Column>): seq<Column> {
    if columns == [] then []
    else if columns[0].contextOnly then Visible(columns[1..]) else [columns[0]] + Visible(columns[1..])
  }

  predicate IsVisibleId(source: seq<Column>, id: string) {
    exists c :: c in Visible(source) && c.columnId == id
  }

  function KeepVisible(made: Entries<string, TileColumn>, source: seq<Column>): Entries<string, TileColumn> {
    if made == [] then []
    else if IsVisibleId(source, made[0].0) then [made[0]] + KeepVisible(made[1..], source)
    else KeepVisible(made[1..], source)
  }

  function Epoch(c: TileColumn): real { c.e as real }

  function Replay(source: seq<Column>): seq<TileColumn> {
    StableSort(Values(KeepVisible(Made(source), source)), Epoch)
  }

  method ReplayOrderflowColumnsV2(source: seq<Column>) returns (rows: seq<TileColumn>)
    ensures rows == Replay(source)
  {
    hide StableSort, KeepVisible, FromPairs, CellPairs, ContractText, Get, Set, Delete, Apply, ApplyCells, TileCellOf;
    var state := BookState(false, []);
    var made: Entries<string, TileColumn> := [];
    var previousContract: Option<string> := None;
    for at := 0 to |source|
      invariant Cursor(state, previousContract) == AdvanceAll(START, source[..at])
      invariant made == Made(source[..at])
    {
      assert source[..at + 1][..at] == source[..at];
      var column := source[at];
      ghost var before := Cursor(state, previousContract);
      var contract := ContractOf(column);
      var contractBreak := previousContract.Some? && previousContract.value != contract;
      if contractBreak {
        state := BookState(false, []);
      }
      state := ApplyOrderflowColumnV2(state, column);
      previousContract := Some(contract);
      assert Advance(before, column) == Cursor(state, previousContract);
      if column.contextOnly {
        continue;
      }
      var changes := FromPairs(CellPairs(column.cells));
      var cells: seq<TileCell> := [];
      if state.trusted {
        for k := 0 to |state.levels|
          invariant cells == TileCells(state.levels, changes)[..k]
        {
          cells := cells + [TileCellOf(state.levels[k], Get(changes, state.levels[k].0))];
        }
        assert cells == TileCells(state.levels, changes);
      }
      var row := TileColumn(
        column.bucketStart, column.bucketEpoch, column.isGap || !state.trusted,
        column.isCarried && !contractBreak, column.isReset || (contractBreak && state.trusted),
        Some(column.methodVersion), column.rowSize, Some(contractBreak), column.frameCount, cells);
      assert row == RowOf(before, column);
      made := Set(made, column.columnId, row);
    }
    assert source[..|source|] == source;
    rows := StableSort(Values(KeepVisible(made, source)), Epoch);
  }

  // ----- Reconciliation of independently replayed chunks

  datatype Assembly = Assembly(
    columns: seq<TileColumn>, methodVersions: seq<string>, rowSizes: seq<string>, contractBreaks: nat)

  function ReplayedContract(c: TileColumn): Option<string> {
    if c.methodVersion == None then None else Some(ContractText(c.methodVersion.value, c.rowSize))
  }

  /** `Set.prototype.add` on an insertion-ordered set. */
  function Add(s: seq<string>, x: string): seq<string> {
    if x in s then s else s + [x]
  }

  predicate Crosses(previous: Option<string>, c: TileColumn) {
    ReplayedContract(c).Some? && previous.Some? && ReplayedContract(c) != previous
  }

  /** What reconciliation makes of a column that enters a new contract unannounced. */
  function Mend(c: TileColumn, crossed: bool): TileColumn {
    if crossed && c.contractBreak != Some(true)
    then c.(carried := false, reset := if c.gap then c.reset else true, contractBreak := Some(true))
    else c
  }

  function ContractAfter(ordered: seq<TileColumn>): Option<string> {
    if ordered == [] then None
    else
      var own := ReplayedContract(ordered[|ordered| - 1]);
      if own.Some? then own else ContractAfter(ordered[..|ordered| - 1])
  }

  function Assemble(ordered: seq<TileColumn>): Assembly {
    if ordered == [] then Assembly([], [], [], 0)
    else
      var front, c := ordered[..|ordered| - 1], ordered[|ordered| - 1];
      var before, crossed := Assemble(front), Crosses(ContractAfter(front), c);
      Assembly(
        before.columns + [Mend(c, crossed)],
        if c.methodVersion.Some? then Add(before.methodVersions, c.methodVersion.value) else before.methodVersions,
        if c.rowSize.Some? then Add(before.rowSizes, c.rowSize.value) else before.rowSizes,
        before.contractBreaks + if c.contractBreak == Some(true) || crossed then 1 else 0)
  }

  function Reconcile(source: seq<TileColumn>): Assembly {
    Assemble(StableSort(source, Epoch))
  }

  method ReconcileOrderflowColumnsV2(source: seq<TileColumn>) returns (r: Assembly)
    ensures r == Reconcile(source)
  {
    hide StableSort, Add, ContractText;
    var ordered := StableSort(source, Epoch);
    var columns: seq<TileColumn>, methodVersions: seq<string>, rowSizes: seq<string> := [], [], [];
    var previousContract: Option<string> := None;
    var contractBreaks := 0;
    for at := 0 to |ordered|
      invariant Assembly(columns, methodVersions, rowSizes, contractBreaks) == Assemble(ordered[..at])
      invariant previousContract == ContractAfter(ordered[..at])
    {
      assert ordered[..at + 1][..at] == ordered[..at];
      var column := ordered[at];
      var contract := ReplayedContract(column);
      if column.methodVersion.Some? {
        methodVersions := Add(methodVersions, column.methodVersion.value);
      }
      if column.rowSize.Some? {
        rowSizes := Add(rowSizes, column.rowSize.value);
      }
      var crossed := contract.Some? && previousContract.Some? && contract != previousContract;
      var contractBreak := column.contractBreak == Some(true) || crossed;
      var made := column;
      if crossed && column.contractBreak != Some(true) {
        made := column.(carried := false, reset := if column.gap then column.reset else true,
                        contractBreak := Some(true));
      }
      if contractBreak {
        contractBreaks := contractBreaks + 1;
      }
      columns := columns + [made];
      if contract.Some? {
        previousContract := contract;
      }
    }
    assert ordered[..|ordered|] == ordered;
    r := Assembly(columns, methodVersions, rowSizes, contractBreaks);
  }
}
