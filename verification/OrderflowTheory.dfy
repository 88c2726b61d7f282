/**
 What a replayed book and a reconciliation report mean, said without the replay: the book is
 decided by the last cell that touched each level since the last anchor, and the report counts
 exactly the columns it marks.
 */
module OrderflowTheory {
  import opened Options
  import opened OrderedMap
  import opened Sorting
  import opened OrderflowReplay
  import opened OrderflowChunks

  // ----- One column

  predicate Touches(c: Cell, key: LevelKey) { c.stateRole != "trade" && KeyOf(c) == key }

  /** The last cell that says anything about the level. */
  function LastTouch(cells: seq<Cell>, key: LevelKey): Option<Cell> {
    if cells == [] then None
    else if Touches(cells[|cells| - 1], key) then Some(cells[|cells| - 1])
    else LastTouch(cells[..|cells| - 1], key)
  }

  /** The level a touching cell leaves: none for an absent or zero size. */
  function LevelLeft(c: Cell): Option<Level> {
    match c.bookEndSize
    case None => None
    case Some(size) => if size == "0" then None else Some(Level(c.side, c.priceKey, c.price, size))
  }

  function Decided(before: Option<Level>, cells: seq<Cell>, key: LevelKey): Option<Level> {
    match LastTouch(cells, key)
    case None => before
    case Some(c) => LevelLeft(c)
  }

  lemma OneCell(levels: Levels, c: Cell, key: LevelKey)
    requires Unique(levels)
    ensures Unique(ApplyCell(levels, c))
    ensures Get(ApplyCell(levels, c), key) == if Touches(c, key) then LevelLeft(c) else Get(levels, key)
  {
    hide Get, Set, Delete, Unique;
    DeleteMeans(levels, KeyOf(c));
    if c.bookEndSize.Some? {
      SetMeans(levels, KeyOf(c), Level(c.side, c.priceKey, c.price, c.bookEndSize.value));
    }
  }

  /** The last cell that touches a level decides it; trade-only cells decide nothing. */
  lemma {:induction false} LastCellDecides(levels: Levels, cells: seq<Cell>, key: LevelKey)
    requires Unique(levels)
    ensures Unique(ApplyCells(levels, cells))
    ensures Get(ApplyCells(levels, cells), key) == Decided(Get(levels, key), cells, key)
  {
    if cells != [] {
      hide Get, Unique, ApplyCell, Touches, LevelLeft;
      var n := |cells| - 1;
      LastCellDecides(levels, cells[..n], key);
      OneCell(ApplyCells(levels, cells[..n]), cells[n], key);
    }
  }

  // ----- The book since the last anchor

  /** Since the anchor at `a` there was neither a gap nor a change of contract. */
  ghost predicate Rooted(columns: seq<Column>, a: nat) {
    && a < |columns| && columns[a].isAnchor
    && (forall i :: a <= i < |columns| ==> !columns[i].isGap)
    && (forall i :: a < i < |columns| ==> ContractOf(columns[i]) == ContractOf(columns[i - 1]))
  }

  /** An anchor stands behind the columns, with no gap and no new contract since. */
  ghost predicate HasRoot(columns: seq<Column>) {
    exists a: nat :: Rooted(columns, a)
  }

  ghost predicate LastRoot(columns: seq<Column>, a: nat) {
    Rooted(columns, a) && forall i :: a < i < |columns| ==> !columns[i].isAnchor
  }

  function CellsFrom(columns: seq<Column>, a: nat): seq<Cell> {
    if |columns| <= a then [] else CellsFrom(columns[..|columns| - 1], a) + columns[|columns| - 1].cells
  }

  lemma RootSnoc(columns: seq<Column>, a: nat)
    requires columns != []
    ensures var n := |columns| - 1; var c := columns[n];
      && (a < n ==> (Rooted(columns, a) <==>
            (Rooted(columns[..n], a) && !c.isGap && ContractOf(c) == ContractOf(columns[n - 1]))))
      && (a < n ==> (LastRoot(columns, a) <==>
            (LastRoot(columns[..n], a) && !c.isGap && !c.isAnchor && ContractOf(c) == ContractOf(columns[n - 1]))))
      && (a == n ==> (Rooted(columns, a) <==> c.isAnchor && !c.isGap))
  {
    hide ContractOf;
    var n := |columns| - 1;
    assert forall i :: 0 <= i < n ==> columns[..n][i] == columns[i];
  }

  /** A book is trusted exactly when an anchor stands behind it with no gap and no new contract since. */
  lemma {:induction false} TrustedMeansRooted(columns: seq<Column>)
    ensures AdvanceAll(START, columns).state.trusted <==> exists a: nat :: Rooted(columns, a)
  {
    if columns != [] {
      hide ApplyCells, ContractOf, Rooted;
      var n: nat := |columns| - 1;
      var front := columns[..n];
      TrustedMeansRooted(front);
      RootSnoc(columns, n);
      if n > 0 {
        ContractAtEnd(START, front);
      }
      if a: nat :| Rooted(front, a) {
        RootSnoc(columns, a);
        RootInside(front, a);
      }
      if a: nat :| Rooted(columns, a) {
        RootSnoc(columns, a);
        RootInside(columns, a);
      }
    }
  }

  lemma RootInside(columns: seq<Column>, a: nat)
    requires Rooted(columns, a)
    ensures a < |columns|
  {
  }

  lemma CellsJoin(levels: Levels, a: seq<Cell>, b: seq<Cell>)
    ensures ApplyCells(levels, a + b) == ApplyCells(ApplyCells(levels, a), b)
  {
    if b == [] {
      assert a + b == a;
    } else {
      assert (a + b)[..|a + b| - 1] == a + b[..|b| - 1];
      CellsJoin(levels, a, b[..|b| - 1]);
    }
  }

  lemma {:induction false} LevelsAreCells(columns: seq<Column>, a: nat)
    requires LastRoot(columns, a)
    ensures AdvanceAll(START, columns).state == BookState(true, ApplyCells([], CellsFrom(columns, a)))
  {
    hide ApplyCells, ContractOf, LastRoot;
    LastIsRoot(columns, a);
    var n: nat := |columns| - 1;
    var front, c := columns[..n], columns[n];
    RootSnoc(columns, a);
    if a < n {
      LevelsAreCells(front, a);
      LastIsRoot(front, a);
      ContractAtEnd(START, front);
      CellsJoin([], CellsFrom(front, a), c.cells);
    } else {
      assert CellsFrom(columns, a) == [] + c.cells;
      assert [] + c.cells == c.cells;
    }
  }

  lemma LastIsRoot(columns: seq<Column>, a: nat)
    requires LastRoot(columns, a)
    ensures a < |columns| && Rooted(columns, a) && columns[a].isAnchor && !columns[a].isGap
  {
  }

  /**
   The replayed book. After any columns each level of a trusted book is what the last cell to touch
   it since the last anchor left there, and a level untouched since the anchor is not in the book;
   an untrusted book is empty.
   */
  lemma BookIsLastTouchSinceAnchor(columns: seq<Column>, key: LevelKey)
    ensures var s := AdvanceAll(START, columns).state;
      && (s.trusted <==> exists a: nat :: LastRoot(columns, a))
      && (forall a: nat :: LastRoot(columns, a) ==> Get(s.levels, key) == Decided(None, CellsFrom(columns, a), key))
      && (!s.trusted ==> s.levels == [])
  {
    hide ApplyCells, Rooted, AdvanceAll;
    TrustedMeansRooted(columns);
    UntrustedIsEmpty(columns);
    if a: nat :| Rooted(columns, a) {
      LastRootExists(columns, a);
    }
    forall a: nat | LastRoot(columns, a)
      ensures Get(AdvanceAll(START, columns).state.levels, key) == Decided(None, CellsFrom(columns, a), key)
    {
      LevelsAreCells(columns, a);
      LastCellDecides([], CellsFrom(columns, a), key);
    }
  }

  lemma {:induction false} LastRootExists(columns: seq<Column>, a: nat)
    requires Rooted(columns, a)
    ensures exists b: nat :: LastRoot(columns, b)
    decreases |columns| - a
  {
    if i :| a < i < |columns| && columns[i].isAnchor {
      LastRootExists(columns, i);
    } else {
      assert LastRoot(columns, a);
    }
  }

  // ----- The order of the book

  /** Which cell put the level where it stands in the book: the first since it was last absent; -1 if it is not there. */
  function Birth(cells: seq<Cell>, key: LevelKey): (at: int)
    ensures -1 <= at < |cells|
  {
    if cells == [] then -1
    else
      var n := |cells| - 1;
      var before := Birth(cells[..n], key);
      if !Touches(cells[n], key) then before
      else if LevelLeft(cells[n]) == None then -1
      else if before >= 0 then before else n
  }

  lemma BirthSnoc(cells: seq<Cell>, key: LevelKey)
    requires cells != []
    ensures var n := |cells| - 1; var c, before := cells[n], Birth(cells[..n], key);
      Birth(cells, key) == if !Touches(c, key) then before
                           else if LevelLeft(c) == None then -1 else if before >= 0 then before else n
  {
  }

  /** Levels stand in the order in which they were put there, and exactly those put there stand. */
  ghost predicate ByBirth(levels: Levels, cells: seq<Cell>) {
    && (forall i :: 0 <= i < |levels| ==> Birth(cells, levels[i].0) >= 0)
    && (forall i, j :: 0 <= i < j < |levels| ==> Birth(cells, levels[i].0) < Birth(cells, levels[j].0))
  }

  /** A book in order stays so when its births stay the same. */
  lemma SameBirths(levels: Levels, was: seq<Cell>, cells: seq<Cell>)
    requires ByBirth(levels, was)
    requires forall i :: 0 <= i < |levels| ==> Birth(cells, levels[i].0) == Birth(was, levels[i].0)
    ensures ByBirth(levels, cells)
  {
    hide Birth;
  }

  lemma RemovedInOrder(levels: Levels, was: seq<Cell>, key: LevelKey)
    requires ByBirth(levels, was) && Unique(levels)
    ensures ByBirth(Delete(levels, key), was)
    ensures forall i :: 0 <= i < |Delete(levels, key)| ==> Delete(levels, key)[i].0 != key
  {
    hide Birth, Delete;
    var left := Delete(levels, key);
    DeleteInOrder(levels, key, k => Birth(was, k));
    DeletedAreThere(levels, key);
    DeleteMeans(levels, key);
    forall i | 0 <= i < |left| ensures Birth(was, left[i].0) >= 0 {
      var j :| 0 <= j < |levels| && levels[j] == left[i];
    }
  }

  lemma ReplacedInOrder(levels: Levels, was: seq<Cell>, key: LevelKey, level: Level)
    requires ByBirth(levels, was) && Unique(levels) && Get(levels, key).Some?
    ensures ByBirth(Set(levels, key, level), was)
  {
    hide Birth, Get, Set, Unique;
    SetInPlace(levels, key, level);
    assert forall i :: 0 <= i < |levels| ==> Set(levels, key, level)[i].0 == levels[i].0;
  }

  lemma AddedInOrder(levels: Levels, was: seq<Cell>, cells: seq<Cell>, key: LevelKey, level: Level)
    requires ByBirth(levels, was) && Get(levels, key) == None && Birth(cells, key) == |was|
    requires forall k: LevelKey :: k != key ==> Birth(cells, k) == Birth(was, k)
    ensures ByBirth(Set(levels, key, level), cells)
  {
    hide Birth, Get, Set;
    GetFinds(levels, key);
    SetFreshAppends(levels, key, level);
  }

  lemma CellKeepsOrder(levels: Levels, cells: seq<Cell>)
    requires cells != [] && Unique(levels) && ByBirth(levels, cells[..|cells| - 1])
    requires forall key :: Birth(cells[..|cells| - 1], key) >= 0 <==> Get(levels, key).Some?
    ensures ByBirth(ApplyCell(levels, cells[|cells| - 1]), cells)
  {
    hide Birth, LevelLeft, Touches, Get, Set, Delete, ByBirth, Unique, KeyOf;
    var n := |cells| - 1;
    var c := cells[n];
    var key, before := KeyOf(c), cells[..n];
    forall k: LevelKey ensures Birth(cells, k) == if !Touches(c, k) then Birth(before, k)
      else if LevelLeft(c) == None then -1 else if Birth(before, k) >= 0 then Birth(before, k) else n
    {
      BirthSnoc(cells, k);
    }
    TouchMeans(c);
    if !Touches(c, key) {
      SameBirths(levels, before, cells);
    } else if LevelLeft(c) == None {
      RemovedInOrder(levels, before, key);
      SameBirths(Delete(levels, key), before, cells);
    } else if Get(levels, key).Some? {
      ReplacedInOrder(levels, before, key, LevelLeft(c).value);
      SameBirths(Set(levels, key, LevelLeft(c).value), before, cells);
    } else {
      AddedInOrder(levels, before, cells, key, LevelLeft(c).value);
    }
  }

  lemma TouchMeans(c: Cell)
    ensures forall key :: Touches(c, key) <==> c.stateRole != "trade" && key == KeyOf(c)
    ensures LevelLeft(c) == None <==> c.bookEndSize == None || c.bookEndSize == Some("0")
    ensures LevelLeft(c).Some? ==> LevelLeft(c).value == Level(c.side, c.priceKey, c.price, c.bookEndSize.GetOr(""))
  {
  }

  lemma {:induction false} BirthMeansThere(cells: seq<Cell>, key: LevelKey)
    ensures Birth(cells, key) >= 0 <==> Decided(None, cells, key).Some?
  {
    if cells != [] {
      BirthMeansThere(cells[..|cells| - 1], key);
    }
  }

  lemma {:induction false} CellsInOrder(cells: seq<Cell>)
    ensures Unique(ApplyCells([], cells)) && ByBirth(ApplyCells([], cells), cells)
  {
    hide Unique, ByBirth, ApplyCell, Birth, Decided;
    NoLevels();
    if cells != [] {
      var front := cells[..|cells| - 1];
      CellsInOrder(front);
      forall key: LevelKey ensures Birth(front, key) >= 0 <==> Get(ApplyCells([], front), key).Some? {
        LastCellDecides([], front, key);
        BirthMeansThere(front, key);
      }
      CellKeepsOrder(ApplyCells([], front), cells);
      LastCellDecides([], cells, (Ask, 0));
    }
  }

  lemma NoLevels()
    ensures Unique<LevelKey, Level>([]) && ByBirth([], [])
    ensures forall key: LevelKey :: Get<LevelKey, Level>([], key) == None
  {
  }

  /** The levels of a trusted book stand in the order in which they were put there since the anchor. */
  lemma BookInOrder(columns: seq<Column>, a: nat)
    requires LastRoot(columns, a)
    ensures ByBirth(AdvanceAll(START, columns).state.levels, CellsFrom(columns, a))
  {
    hide ByBirth, LastRoot, AdvanceAll;
    LevelsAreCells(columns, a);
    CellsInOrder(CellsFrom(columns, a));
  }

  // ----- The shown cells

  /** The last cell of a column at the level, a trade-only cell included. */
  function LastWith(cells: seq<Cell>, key: LevelKey): Option<Cell> {
    if cells == [] then None
    else if KeyOf(cells[|cells| - 1]) == key then Some(cells[|cells| - 1])
    else LastWith(cells[..|cells| - 1], key)
  }

  lemma {:induction false} GetAfterSet(m: Entries<LevelKey, Cell>, k: LevelKey, c: Cell, key: LevelKey)
    ensures Get(Set(m, k, c), key) == if key == k then Some(c) else Get(m, key)
  {
    if m != [] && m[0].0 != k {
      GetAfterSet(m[1..], k, c, key);
    }
  }

  lemma {:induction false} LastPairWins(cells: seq<Cell>, key: LevelKey)
    ensures Get(FromPairs(CellPairs(cells)), key) == LastWith(cells, key)
  {
    if cells != [] {
      hide Get, Set;
      var n := |cells| - 1;
      LastPairWins(cells[..n], key);
      assert CellPairs(cells)[..n] == CellPairs(cells[..n]);
      GetAfterSet(FromPairs(CellPairs(cells[..n])), KeyOf(cells[n]), cells[n], key);
    } else {
      NothingPaired(key);
    }
  }

  lemma NothingPaired(key: LevelKey)
    ensures Get(FromPairs(CellPairs([])), key) == None
  {
  }

  /** `shown` is the level with what the column's last cell there says happened to it, or zeros. */
  ghost predicate Shows(shown: TileCell, level: Level, last: Option<Cell>) {
    && shown.price == level.price && shown.side == level.side && shown.size == level.size
    && match last
       case None => shown.netIncrease == shown.netDecrease == shown.taker == "0"
       case Some(c) =>
         shown.netIncrease == c.netIncrease && shown.netDecrease == c.netDecreaseUnknown && shown.taker == c.takerTotal
  }

  /**
   The shown row. A trusted row lists every level of the book after the column, once and in the
   book's order, each with the changes of the column's last cell at that level; a row that is not
   trusted is a gap without cells.
   */
  lemma RowShowsTheBook(cur: Cursor, c: Column)
    ensures var s, row := Advance(cur, c).state, RowOf(cur, c);
      && (row.gap <==> !s.trusted) && (!s.trusted ==> row.cells == [])
      && (s.trusted ==> |row.cells| == |s.levels| && forall i :: 0 <= i < |row.cells| ==>
            Shows(row.cells[i], s.levels[i].1, LastWith(c.cells, s.levels[i].0)))
  {
    hide ApplyCells, Get, FromPairs, CellPairs, ContractOf;
    var levels := Advance(cur, c).state.levels;
    forall i | 0 <= i < |levels|
      ensures Get(FromPairs(CellPairs(c.cells)), levels[i].0) == LastWith(c.cells, levels[i].0)
    {
      LastPairWins(c.cells, levels[i].0);
    }
  }

  // ----- Every field of a row

  /** Two contract texts agree exactly when version and shown row size do, for versions without a NUL. */
  lemma ContractTextsAgree(m: string, r: Option<string>, n: string, q: Option<string>)
    requires '\0' !in m && '\0' !in n
    ensures ContractText(m, r) == ContractText(n, q) <==> m == n && r.GetOr("<null>") == q.GetOr("<null>")
  {
    var a, b := ContractText(m, r), ContractText(n, q);
    assert a[|m|] == '\0' && b[|n|] == '\0';
    assert |m| < |n| ==> b[|m|] == n[|m|];
    assert |n| < |m| ==> a[|n|] == m[|n|];
    assert |m| == |n| && a == b ==> a[..|m|] == m && b[..|n|] == n && a[|m| + 1..] == b[|n| + 1..];
  }

  /** A row size that reads like a missing one, or a NUL inside a version, makes different contracts look alike. */
  lemma ContractTextsCollide()
    ensures ContractText("v", None) == ContractText("v", Some("<null>"))
    ensures ContractText("v", Some("1\0" + "2")) == ContractText("v\0" + "1", Some("2"))
  {
    assert ContractText("v", Some("1\0" + "2")) == "v\0" + "1\0" + "2";
    assert ContractText("v\0" + "1", Some("2")) == "v\0" + "1\0" + "2";
  }

  /** The contract differs from that of the column before. */
  ghost predicate EntersNew(s: seq<Column>, n: nat)
    requires n < |s|
  {
    n > 0 && ContractText(s[n - 1].methodVersion, s[n - 1].rowSize) != ContractText(s[n].methodVersion, s[n].rowSize)
  }

  /** A row's own fields, flags and gap, from the columns alone. */
  ghost predicate HasFields(row: TileColumn, s: seq<Column>, n: nat)
    requires n < |s|
  {
    && row.t == s[n].bucketStart && row.e == s[n].bucketEpoch && row.frames == s[n].frameCount
    && row.methodVersion == Some(s[n].methodVersion) && row.rowSize == s[n].rowSize
    && row.contractBreak == Some(EntersNew(s, n))
    && (row.carried <==> s[n].isCarried && !EntersNew(s, n))
    && (row.reset <==> s[n].isReset || (EntersNew(s, n) && s[n].isAnchor && !s[n].isGap))
    && (row.gap <==> !HasRoot(s[..n + 1]))
  }

  /**
   Every row of a replayed stream is its column's own in time, frames and contract; it is carried when the
   column is and the contract does not change there, a reset when the column is or a new contract starts
   at an anchor, and a gap exactly when no anchor stands behind it.
   */
  lemma RowsHaveFields(s: seq<Column>, n: nat)
    requires IsStream(s) && n < |s|
    ensures |Replay(s)| == |s| && HasFields(Replay(s)[n], s, n)
  {
    hide Replay, ApplyCells, ContractText, TileCells, FromPairs, CellPairs, Rooted;
    WholeIsReplay(s);
    assert s[0..n] == s[..n];
    var cur := AdvanceAll(START, s[..n]);
    if n > 0 {
      ContractAtEnd(START, s[..n]);
    }
    assert s[..n + 1][..n] == s[..n];
    TrustedMeansRooted(s[..n + 1]);
    assert AdvanceAll(START, s[..n + 1]) == Advance(cur, s[n]);
  }

  /** Row `n` of a replayed stream lists the book as it stands after column `n`, with that column's changes. */
  lemma StreamShowsTheBook(s: seq<Column>, n: nat)
    requires IsStream(s) && n < |s|
    ensures var book := AdvanceAll(START, s[..n + 1]).state;
      && |Replay(s)| == |s| && (Replay(s)[n].gap <==> !book.trusted)
      && |Replay(s)[n].cells| == |book.levels|
      && forall i :: 0 <= i < |book.levels| ==>
           Shows(Replay(s)[n].cells[i], book.levels[i].1, LastWith(s[n].cells, book.levels[i].0))
  {
    hide Replay, RowOf, Advance, Shows, LastWith;
    WholeIsReplay(s);
    assert s[0..n] == s[..n] && s[..n + 1][..n] == s[..n];
    RowShowsTheBook(AdvanceAll(START, s[..n]), s[n]);
    UntrustedIsEmpty(s[..n + 1]);
    assert AdvanceAll(START, s[..n + 1]) == Advance(AdvanceAll(START, s[..n]), s[n]);
  }

  // ----- Any source

  /** The row of the last column with the id that is not context. */
  function LastRow(source: seq<Column>, id: string): Option<TileColumn> {
    if source == [] then None
    else
      var front, c := source[..|source| - 1], source[|source| - 1];
      if !c.contextOnly && c.columnId == id then Some(RowOf(AdvanceAll(START, front), c)) else LastRow(front, id)
  }

  lemma {:induction false} MadeHoldsLastRows(source: seq<Column>, id: string)
    ensures Unique(Made(source)) && Get(Made(source), id) == LastRow(source, id)
  {
    if source != [] {
      hide RowOf, AdvanceAll, Unique, Get, Set;
      var front, c := source[..|source| - 1], source[|source| - 1];
      MadeHoldsLastRows(front, id);
      SetMeans(Made(front), c.columnId, RowOf(AdvanceAll(START, front), c));
    } else {
      NothingMade(id);
    }
  }

  lemma NothingMade(id: string)
    ensures Made([]) == [] && Unique<string, TileColumn>([]) && Get<string, TileColumn>([], id) == None
  {
  }

  lemma {:induction false} VisibleGrows(front: seq<Column>, c: Column)
    ensures Visible(front + [c]) == Visible(front) + if c.contextOnly then [] else [c]
  {
    if front == [] {
      assert front + [c] == [c] && [c][1..] == [];
    } else {
      assert (front + [c])[1..] == front[1..] + [c];
      VisibleGrows(front[1..], c);
    }
  }

  lemma {:induction false} MadeAreVisible(source: seq<Column>)
    ensures forall i :: 0 <= i < |Made(source)| ==> IsVisibleId(source, Made(source)[i].0)
  {
    if source != [] {
      hide RowOf, AdvanceAll, Unique, Set, Visible;
      var front, c := source[..|source| - 1], source[|source| - 1];
      assert source == front + [c];
      MadeAreVisible(front);
      VisibleGrows(front, c);
      MadeHoldsLastRows(front, "");
      SetMeans(Made(front), c.columnId, RowOf(AdvanceAll(START, front), c));
      forall i | 0 <= i < |Made(source)| ensures IsVisibleId(source, Made(source)[i].0) {
        if Made(source)[i] in Made(front) {
          var j :| 0 <= j < |Made(front)| && Made(front)[j] == Made(source)[i];
          var d :| d in Visible(front) && d.columnId == Made(front)[j].0;
          assert d in Visible(source);
        } else {
          assert c in Visible(source);
        }
      }
    }
  }

  /**
   Replay of any source at all, repeated ids and context columns included: one row for each id, that of
   its last column, and the rows in ascending order of time.
   */
  lemma ReplayOfAnySource(source: seq<Column>, id: string)
    ensures Get(Made(source), id) == LastRow(source, id) && Unique(Made(source))
    ensures multiset(Replay(source)) == multiset(Values(Made(source)))
    ensures forall i, j :: 0 <= i < j < |Replay(source)| ==> Replay(source)[i].e <= Replay(source)[j].e
  {
    hide Made, RowOf, AdvanceAll, KeepVisible, StableSort, Values, IsVisibleId;
    MadeHoldsLastRows(source, id);
    MadeAreVisible(source);
    KeepsAllVisible(Made(source), source);
    StableSortSorted(Values(Made(source)), Epoch);
    forall i, j | 0 <= i < j < |Replay(source)| ensures Replay(source)[i].e <= Replay(source)[j].e {
      assert Epoch(Replay(source)[i]) <= Epoch(Replay(source)[j]);
    }
  }

  // ----- The report

  function CountMarked(columns: seq<TileColumn>): nat {
    if columns == [] then 0
    else CountMarked(columns[..|columns| - 1]) + if columns[|columns| - 1].contractBreak == Some(true) then 1 else 0
  }

  ghost predicate NoRepeats(s: seq<string>) {
    forall i, j :: 0 <= i < j < |s| ==> s[i] != s[j]
  }

  ghost predicate VersionSeen(columns: seq<TileColumn>, v: string) {
    exists i :: 0 <= i < |columns| && columns[i].methodVersion == Some(v)
  }

  ghost predicate RowSizeSeen(columns: seq<TileColumn>, v: string) {
    exists i :: 0 <= i < |columns| && columns[i].rowSize == Some(v)
  }

  /** The last known contract before column `k` differs from the column's own. */
  ghost predicate EntersContract(ordered: seq<TileColumn>, k: nat)
    requires k < |ordered|
  {
    Crosses(ContractAfter(ordered[..k]), ordered[k])
  }

  /** Newly marked: no longer carried, reset unless a gap (which keeps its flag), otherwise unchanged. */
  ghost predicate IsNewlyMarked(made: TileColumn, c: TileColumn) {
    && made.contractBreak == Some(true) && !made.carried && made.reset == (c.reset || !c.gap)
    && made.(contractBreak := c.contractBreak, carried := c.carried, reset := c.reset) == c
  }

  /** What reconciliation makes of a column, by whether it enters another contract. */
  ghost predicate IsMarkedRight(made: TileColumn, c: TileColumn, enters: bool) {
    && (made.contractBreak == Some(true) <==> c.contractBreak == Some(true) || enters)
    && if c.contractBreak != Some(true) && enters then IsNewlyMarked(made, c) else made == c
  }

  lemma MendMarks(c: TileColumn, crossed: bool)
    ensures IsMarkedRight(Mend(c, crossed), c, crossed)
    ensures Mend(c, crossed).contractBreak == Some(true) <==> c.contractBreak == Some(true) || crossed
  {
  }

  lemma AddKeeps(s: seq<string>, x: string)
    requires NoRepeats(s)
    ensures NoRepeats(Add(s, x)) && forall v :: v in Add(s, x) <==> v in s || v == x
  {
  }

  lemma SeenSnoc(columns: seq<TileColumn>, v: string)
    requires columns != []
    ensures var front, c := columns[..|columns| - 1], columns[|columns| - 1];
      && (VersionSeen(columns, v) <==> VersionSeen(front, v) || c.methodVersion == Some(v))
      && (RowSizeSeen(columns, v) <==> RowSizeSeen(front, v) || c.rowSize == Some(v))
  {
    var n := |columns| - 1;
    assert forall i :: 0 <= i < n ==> columns[..n][i] == columns[i];
  }

  /**
   The marks of a reconciliation. A column is marked exactly when it was marked before or enters a
   contract other than the last known one, and is left as it is unless it is newly marked, which drops
   its carried flag and makes it a reset unless it is a gap; the number of contract breaks is the number
   of marked columns.
   */
  lemma {:induction false} ReportCountsMarks(ordered: seq<TileColumn>)
    ensures var r := Assemble(ordered);
      && |r.columns| == |ordered| && r.contractBreaks == CountMarked(r.columns)
      && forall k :: 0 <= k < |ordered| ==> IsMarkedRight(r.columns[k], ordered[k], EntersContract(ordered, k))
  {
    hide Assemble, ContractAfter, Crosses, Mend, IsMarkedRight, Add;
    if ordered == [] {
      NothingReported();
    } else {
      var front, c := ordered[..|ordered| - 1], ordered[|ordered| - 1];
      ReportCountsMarks(front);
      assert ordered == front + [c] && ordered[..|front|] == front;
      AssembleSnoc(front, c);
      MendMarks(c, Crosses(ContractAfter(front), c));
      var made := Assemble(ordered).columns;
      assert made[..|front|] == Assemble(front).columns;
      forall k | 0 <= k < |front| ensures EntersContract(front, k) == EntersContract(ordered, k) {
        assert front[..k] == ordered[..k];
      }
    }
  }

  /** The report lists every method version and every row size seen, once each. */
  lemma {:induction false} ReportListsContracts(ordered: seq<TileColumn>)
    ensures var r := Assemble(ordered);
      && NoRepeats(r.methodVersions) && NoRepeats(r.rowSizes)
      && (forall v :: v in r.methodVersions <==> VersionSeen(ordered, v))
      && (forall v :: v in r.rowSizes <==> RowSizeSeen(ordered, v))
  {
    hide Assemble, ContractAfter, VersionSeen, RowSizeSeen, Add, NoRepeats, Crosses, Mend;
    if ordered == [] {
      NothingReported();
    } else {
      var front, c := ordered[..|ordered| - 1], ordered[|ordered| - 1];
      ReportListsContracts(front);
      assert ordered == front + [c];
      AssembleSnoc(front, c);
      var before := Assemble(front);
      if c.methodVersion.Some? {
        AddKeeps(before.methodVersions, c.methodVersion.value);
      }
      if c.rowSize.Some? {
        AddKeeps(before.rowSizes, c.rowSize.value);
      }
      forall v ensures VersionSeen(ordered, v) <==> VersionSeen(front, v) || c.methodVersion == Some(v)
        ensures RowSizeSeen(ordered, v) <==> RowSizeSeen(front, v) || c.rowSize == Some(v)
      {
        SeenSnoc(ordered, v);
      }
    }
  }

  lemma NothingReported()
    ensures Assemble([]) == Assembly([], [], [], 0) && NoRepeats([])
    ensures forall v :: !VersionSeen([], v) && !RowSizeSeen([], v)
  {
  }
}
