/**
 Chunked replay: a column stream cut into windows, each replayed on its own behind a
 context-only lead-in, reconciles to the replay of the whole stream; a badly cut chunk
 can only lose columns to gaps.
 */
module OrderflowChunks {
  import opened Options
  import opened OrderedMap
  import opened Sorting
  import opened OrderflowReplay

  /** A logical stream: nothing is context, ids are distinct and epochs ascend. */
  ghost predicate IsStream(s: seq<Column>) {
    && (forall i :: 0 <= i < |s| ==> !s[i].contextOnly)
    && (forall i, j :: 0 <= i < j < |s| ==> s[i].columnId != s[j].columnId && s[i].bucketEpoch < s[j].bucketEpoch)
  }

  function AsContext(columns: seq<Column>): seq<Column> {
    seq(|columns|, i requires 0 <= i < |columns| => columns[i].(contextOnly := true))
  }

  /** The source of one chunk: the columns `lead..from` as context, then the window `from..to`. */
  function Chunk(s: seq<Column>, lead: nat, from: nat, to: nat): seq<Column>
    requires lead <= from <= to <= |s|
  {
    AsContext(s[lead..from]) + s[from..to]
  }

  /** Row `n` of the stream as a replay that starts at column `lead` shows it. */
  function RowFrom(s: seq<Column>, lead: nat, n: nat): TileColumn
    requires lead <= n < |s|
  {
    RowOf(AdvanceAll(START, s[lead..n]), s[n])
  }

  function RowsFrom(s: seq<Column>, lead: nat, from: nat, to: nat): (r: seq<TileColumn>)
    requires lead <= from <= to <= |s|
    ensures |r| == to - from
    ensures forall i :: 0 <= i < |r| ==> r[i] == RowFrom(s, lead, from + i)
  {
    seq(to - from, i requires 0 <= i < to - from => RowFrom(s, lead, from + i))
  }

  // ----- What a replay of one chunk returns

  ghost predicate SameButContext(a: seq<Column>, b: seq<Column>) {
    |a| == |b| && forall i :: 0 <= i < |a| ==> a[i].(contextOnly := false) == b[i].(contextOnly := false)
  }

  /** Context columns take part in reconstruction like any others. */
  lemma {:induction false} ContextStillAdvances(cur: Cursor, a: seq<Column>, b: seq<Column>)
    requires SameButContext(a, b)
    ensures AdvanceAll(cur, a) == AdvanceAll(cur, b)
  {
    if a != [] {
      var n := |a| - 1;
      ContextStillAdvances(cur, a[..n], b[..n]);
      ContextIsNotState(AdvanceAll(cur, a[..n]), a[n], b[n]);
    }
  }

  lemma ContextIsNotState(cur: Cursor, a: Column, b: Column)
    requires a.(contextOnly := false) == b.(contextOnly := false)
    ensures Advance(cur, a) == Advance(cur, b) && RowOf(cur, a) == RowOf(cur, b)
  {
    assert a.cells == b.cells && a.methodVersion == b.methodVersion && a.rowSize == b.rowSize;
  }

  lemma ChunkPrefix(s: seq<Column>, lead: nat, from: nat, to: nat, k: nat)
    requires lead <= from <= to <= |s| && k <= to - lead
    ensures |Chunk(s, lead, from, to)| == to - lead
    ensures SameButContext(Chunk(s, lead, from, to)[..k], s[lead..lead + k])
  {
    var chunk: seq<Column> := Chunk(s, lead, from, to);
    var context := AsContext(s[lead..from]);
    forall i | 0 <= i < k
      ensures chunk[i].(contextOnly := false) == s[lead + i].(contextOnly := false)
    {
      assert i < |context| ==> context[i] == s[lead + i].(contextOnly := true);
    }
  }

  /** The rows `made` collects from the first `k` columns of a chunk. */
  lemma {:induction false} MadeRows(s: seq<Column>, lead: nat, from: nat, to: nat, k: nat)
    requires IsStream(s) && lead <= from <= to <= |s| && k <= to - lead
    ensures var made := Made(Chunk(s, lead, from, to)[..k]);
      && |made| == (if lead + k <= from then 0 else lead + k - from)
      && forall i :: 0 <= i < |made| ==> made[i] == (s[from + i].columnId, RowFrom(s, lead, from + i))
  {
    hide RowFrom, Set, Made, Chunk;
    if k == 0 {
      MadeNothing(Chunk(s, lead, from, to));
    } else {
      MadeRows(s, lead, from, to, k - 1);
      MadeOneMore(s, lead, from, to, k - 1);
      if lead + k > from {
        ChunkPrefix(s, lead, from, to, k - 1);
        var n, made := lead + k - 1, Made(Chunk(s, lead, from, to)[..k - 1]);
        assert forall i :: 0 <= i < |made| ==> made[i].0 == s[from + i].columnId;
        SetFreshAppends(made, s[n].columnId, RowFrom(s, lead, n));
      }
    }
  }

  lemma MadeNothing(chunk: seq<Column>)
    ensures Made(chunk[..0]) == []
  {
  }

  lemma MadeOneMore(s: seq<Column>, lead: nat, from: nat, to: nat, k: nat)
    requires IsStream(s) && lead <= from <= to <= |s| && k < to - lead
    ensures var made, n := Made(Chunk(s, lead, from, to)[..k]), lead + k;
      Made(Chunk(s, lead, from, to)[..k + 1])
        == if n < from then made else Set(made, s[n].columnId, RowFrom(s, lead, n))
  {
    hide RowOf, AdvanceAll, Set;
    var chunk, n := Chunk(s, lead, from, to), lead + k;
    ChunkPrefix(s, lead, from, to, k);
    assert chunk[..k + 1][..k] == chunk[..k];
    assert chunk[k] == if n < from then s[n].(contextOnly := true) else s[n];
    ContextStillAdvances(START, chunk[..k], s[lead..n]);
  }

  lemma {:induction false} VisibleMember(columns: seq<Column>, i: nat)
    requires i < |columns| && !columns[i].contextOnly
    ensures columns[i] in Visible(columns)
  {
    if i > 0 {
      VisibleMember(columns[1..], i - 1);
    }
  }

  lemma {:induction false} KeepsAllVisible(made: Entries<string, TileColumn>, source: seq<Column>)
    requires forall i :: 0 <= i < |made| ==> IsVisibleId(source, made[i].0)
    ensures KeepVisible(made, source) == made
  {
    if made != [] {
      KeepsAllVisible(made[1..], source);
    }
  }

  /** Replaying a chunk yields the rows of its window, in order. */
  lemma ReplayOfChunk(s: seq<Column>, lead: nat, from: nat, to: nat)
    requires IsStream(s) && lead <= from <= to <= |s|
    ensures Replay(Chunk(s, lead, from, to)) == RowsFrom(s, lead, from, to)
  {
    hide Made, KeepVisible, StableSort, Values, RowOf, AdvanceAll, IsVisibleId;
    var chunk := Chunk(s, lead, from, to);
    var made, rows := Made(chunk), RowsFrom(s, lead, from, to);
    assert |made| == |rows| && forall i :: 0 <= i < |made| ==> made[i] == (s[from + i].columnId, rows[i]) by {
      ChunkPrefix(s, lead, from, to, to - lead);
      MadeRows(s, lead, from, to, to - lead);
      assert chunk[..to - lead] == chunk;
    }
    assert Values(made) == rows;
    MadeIsVisible(s, lead, from, to, made);
    KeepsAllVisible(made, chunk);
    RowsFromAscend(s, lead, from, to);
    SortedIsFixed(rows, Epoch);
  }

  lemma MadeIsVisible(s: seq<Column>, lead: nat, from: nat, to: nat, made: Entries<string, TileColumn>)
    requires IsStream(s) && lead <= from <= to <= |s| && |made| == to - from
    requires forall i :: 0 <= i < |made| ==> made[i].0 == s[from + i].columnId
    ensures forall i :: 0 <= i < |made| ==> IsVisibleId(Chunk(s, lead, from, to), made[i].0)
  {
    var chunk := Chunk(s, lead, from, to);
    forall i | 0 <= i < |made| ensures IsVisibleId(chunk, made[i].0) {
      assert chunk[from - lead + i] == s[from + i];
      VisibleMember(chunk, from - lead + i);
    }
  }

  lemma RowsFromAscend(s: seq<Column>, lead: nat, from: nat, to: nat)
    requires IsStream(s) && lead <= from <= to <= |s|
    ensures SortedBy(RowsFrom(s, lead, from, to), Epoch)
  {
    hide AdvanceAll;
    assert forall i :: from <= i < to ==> RowFrom(s, lead, i).e == s[i].bucketEpoch;
  }

  // ----- Where history is forgotten

  /** A lead-in is sound when it starts the stream or starts at a column that erases history. */
  predicate SoundLead(s: seq<Column>, lead: nat)
    requires lead <= |s|
  {
    lead == 0 || lead == |s| || s[lead].isAnchor || s[lead].isGap
  }

  lemma AnchorsForget(cur: Cursor, c: Column)
    requires c.isAnchor || c.isGap
    ensures Advance(cur, c) == Advance(START, c)
  {
  }

  lemma {:induction false} AdvanceSplits(cur: Cursor, a: seq<Column>, b: seq<Column>)
    ensures AdvanceAll(cur, a + b) == AdvanceAll(AdvanceAll(cur, a), b)
  {
    if b == [] {
      assert a + b == a;
    } else {
      assert (a + b)[..|a + b| - 1] == a + b[..|b| - 1];
      AdvanceSplits(cur, a, b[..|b| - 1]);
    }
  }

  /** Past the first column of a sound lead-in the chunk's cursor is the stream's own. */
  lemma SoundLeadCatchesUp(s: seq<Column>, lead: nat, n: nat)
    requires lead < n <= |s| && SoundLead(s, lead)
    ensures AdvanceAll(START, s[lead..n]) == AdvanceAll(START, s[..n])
  {
    var head := s[lead];
    assert s[lead..n] == [head] + s[lead + 1..n] && s[..n] == s[..lead] + ([head] + s[lead + 1..n]);
    var cur := AdvanceAll(START, s[..lead]);
    AdvanceSplits(START, s[..lead], [head] + s[lead + 1..n]);
    AdvanceSplits(cur, [head], s[lead + 1..n]);
    AdvanceSplits(START, [head], s[lead + 1..n]);
    assert [head][..0] == [];
    assert AdvanceAll(cur, [head]) == Advance(cur, head) && AdvanceAll(START, [head]) == Advance(START, head);
    if lead == 0 {
      assert s[..lead] == [];
    } else {
      AnchorsForget(cur, head);
    }
  }

  lemma {:induction false} ContractAtEnd(cur: Cursor, columns: seq<Column>)
    requires columns != []
    ensures AdvanceAll(cur, columns).contract == Some(ContractOf(columns[|columns| - 1]))
  {
  }

  predicate ContractChangesAt(s: seq<Column>, n: nat)
    requires n < |s|
  {
    n > 0 && ContractOf(s[n - 1]) != ContractOf(s[n])
  }

  /** Reconciliation restores what a soundly led chunk could not know about its first column. */
  lemma MendingRestores(s: seq<Column>, lead: nat, n: nat)
    requires lead <= n < |s| && SoundLead(s, lead)
    ensures Mend(RowFrom(s, lead, n), ContractChangesAt(s, n)) == RowFrom(s, 0, n)
    ensures RowFrom(s, 0, n).contractBreak == Some(ContractChangesAt(s, n))
  {
    var full := AdvanceAll(START, s[0..n]);
    assert s[0..n] == s[..n];
    if n > 0 {
      ContractAtEnd(START, s[..n]);
    }
    if lead < n {
      SoundLeadCatchesUp(s, lead, n);
    } else {
      assert s[lead..n] == [];
      if lead > 0 {
        AnchorsForget(full, s[n]);
      }
    }
  }

  // ----- Chunked replay equals whole replay

  datatype Cut = Cut(lead: nat, from: nat, to: nat)

  /** The windows of the plan tile the stream from `at` on, each behind some lead-in. */
  ghost predicate Tiles(s: seq<Column>, plan: seq<Cut>, at: nat)
    decreases plan
  {
    if plan == [] then at == |s|
    else
      var cut := plan[0];
      && cut.lead <= cut.from == at && cut.from <= cut.to <= |s|
      && Tiles(s, plan[1..], cut.to)
  }

  ghost predicate SoundPlan(s: seq<Column>, plan: seq<Cut>) {
    forall i :: 0 <= i < |plan| ==> plan[i].lead <= |s| && SoundLead(s, plan[i].lead)
  }

  /** All rows of all chunks, each chunk replayed separately. */
  ghost function ReplayPlan(s: seq<Column>, plan: seq<Cut>, at: nat): seq<TileColumn>
    requires Tiles(s, plan, at)
    decreases plan
  {
    if plan == [] then []
    else Replay(Chunk(s, plan[0].lead, plan[0].from, plan[0].to)) + ReplayPlan(s, plan[1..], plan[0].to)
  }

  lemma {:induction false} TilesBounds(s: seq<Column>, plan: seq<Cut>, at: nat)
    requires Tiles(s, plan, at)
    ensures at <= |s|
    decreases plan
  {
    if plan != [] {
      TilesBounds(s, plan[1..], plan[0].to);
    }
  }

  /** `row` is column `n` replayed from some lead-in, a sound one if `sound`. */
  ghost predicate IsRow(s: seq<Column>, row: TileColumn, n: nat, sound: bool)
    requires n < |s|
  {
    exists lead: nat :: lead <= n && (sound ==> SoundLead(s, lead)) && row == RowFrom(s, lead, n)
  }

  ghost predicate AreRows(s: seq<Column>, rows: seq<TileColumn>, at: nat, sound: bool) {
    at + |rows| == |s| && forall i :: 0 <= i < |rows| ==> IsRow(s, rows[i], at + i, sound)
  }

  lemma {:induction false} PlanRows(s: seq<Column>, plan: seq<Cut>, at: nat, sound: bool)
    requires IsStream(s) && Tiles(s, plan, at) && (sound ==> SoundPlan(s, plan))
    ensures AreRows(s, ReplayPlan(s, plan, at), at, sound)
    decreases plan
  {
    if plan != [] {
      hide Replay, RowFrom, IsRow, SoundLead;
      var cut := plan[0];
      TilesBounds(s, plan[1..], cut.to);
      assert forall i :: 0 <= i < |plan[1..]| ==> plan[1..][i] == plan[i + 1];
      PlanRows(s, plan[1..], cut.to, sound);
      ReplayOfChunk(s, cut.lead, cut.from, cut.to);
      RowsJoin(s, cut, ReplayPlan(s, plan[1..], cut.to), sound);
    }
  }

  lemma RowsJoin(s: seq<Column>, cut: Cut, rest: seq<TileColumn>, sound: bool)
    requires cut.lead <= cut.from <= cut.to <= |s| && (sound ==> SoundLead(s, cut.lead))
    requires AreRows(s, rest, cut.to, sound)
    ensures AreRows(s, RowsFrom(s, cut.lead, cut.from, cut.to) + rest, cut.from, sound)
  {
    hide RowFrom, SoundLead;
    var first := RowsFrom(s, cut.lead, cut.from, cut.to);
    forall i | 0 <= i < |first + rest| ensures IsRow(s, (first + rest)[i], cut.from + i, sound) {
      if i < |first| {
        assert first[i] == RowFrom(s, cut.lead, cut.from + i);
      } else {
        assert IsRow(s, rest[i - |first|], cut.to + (i - |first|), sound);
      }
    }
  }

  /** `row` knows which column it is and under which contract. */
  ghost predicate Aligned(s: seq<Column>, row: TileColumn, n: nat)
    requires n < |s|
  {
    row.e == s[n].bucketEpoch && ReplayedContract(row) == Some(ContractOf(s[n]))
  }

  ghost predicate AllAligned(s: seq<Column>, rows: seq<TileColumn>) {
    |rows| == |s| && forall i :: 0 <= i < |rows| ==> Aligned(s, rows[i], i)
  }

  /** `row` is column `n` of the stream up to what reconciliation restores. */
  ghost predicate MendsTo(s: seq<Column>, row: TileColumn, n: nat)
    requires n < |s|
  {
    Mend(row, ContractChangesAt(s, n)) == RowFrom(s, 0, n)
  }

  ghost predicate AllMend(s: seq<Column>, rows: seq<TileColumn>) {
    AllAligned(s, rows) && forall i :: 0 <= i < |rows| ==> MendsTo(s, rows[i], i)
  }

  lemma RowsAligned(s: seq<Column>, rows: seq<TileColumn>, sound: bool)
    requires AreRows(s, rows, 0, sound)
    ensures AllAligned(s, rows)
  {
    hide AdvanceAll, Advance, ContractText;
    forall i | 0 <= i < |rows| ensures Aligned(s, rows[i], i) {
      assert IsRow(s, rows[i], 0 + i, sound);
    }
  }

  lemma SoundRowsMend(s: seq<Column>, rows: seq<TileColumn>)
    requires AreRows(s, rows, 0, true)
    ensures AllMend(s, rows)
  {
    hide RowFrom, Mend, SoundLead;
    RowsAligned(s, rows, true);
    forall i | 0 <= i < |rows| ensures MendsTo(s, rows[i], i) {
      assert IsRow(s, rows[i], 0 + i, true);
      var lead: nat :| lead <= i && SoundLead(s, lead) && rows[i] == RowFrom(s, lead, i);
      MendingRestores(s, lead, i);
    }
  }

  lemma MendKeepsIdentity(c: TileColumn, crossed: bool)
    ensures Mend(c, crossed).e == c.e && ReplayedContract(Mend(c, crossed)) == ReplayedContract(c)
    ensures Mend(c, crossed).methodVersion == c.methodVersion && Mend(c, crossed).rowSize == c.rowSize
    ensures Mend(Mend(c, crossed), crossed) == Mend(c, crossed)
    ensures (Mend(c, crossed).contractBreak == Some(true) || crossed) == (c.contractBreak == Some(true) || crossed)
  {
  }

  /** Reconciling aligned rows mends each by whether the stream's contract changes there. */
  lemma {:induction false} AssembleAligned(s: seq<Column>, rows: seq<TileColumn>, k: nat)
    requires AllAligned(s, rows) && k <= |s|
    ensures ContractAfter(rows[..k]) == if k == 0 then None else Some(ContractOf(s[k - 1]))
    ensures var columns := Assemble(rows[..k]).columns;
      |columns| == k && forall i :: 0 <= i < k ==> columns[i] == Mend(rows[i], ContractChangesAt(s, i))
  {
    hide Mend, ContractText, Assemble, ContractAfter;
    if k == 0 {
      AssembleNothing(rows[..0]);
    } else {
      AssembleAligned(s, rows, k - 1);
      assert rows[..k] == rows[..k - 1] + [rows[k - 1]];
      AssembleSnoc(rows[..k - 1], rows[k - 1]);
      assert Aligned(s, rows[k - 1], k - 1);
    }
  }

  /** Two lists of rows that mend to the same rows assemble to the same report. */
  lemma {:induction false} AssembliesAgree(s: seq<Column>, a: seq<TileColumn>, b: seq<TileColumn>, k: nat)
    requires AllMend(s, a) && AllMend(s, b) && k <= |s|
    ensures Assemble(a[..k]) == Assemble(b[..k])
  {
    hide RowFrom, ContractText, Assemble, ContractAfter;
    if k == 0 {
      AssembleNothing(a[..0]);
      AssembleNothing(b[..0]);
    } else {
      var n := k - 1;
      AssembliesAgree(s, a, b, n);
      assert a[..k] == a[..n] + [a[n]] && b[..k] == b[..n] + [b[n]];
      AssembleSnoc(a[..n], a[n]);
      AssembleSnoc(b[..n], b[n]);
      AssembleAligned(s, a, n);
      AssembleAligned(s, b, n);
      assert MendsTo(s, a[n], n) && MendsTo(s, b[n], n) && Aligned(s, a[n], n) && Aligned(s, b[n], n);
      MendKeepsIdentity(a[n], ContractChangesAt(s, n));
      MendKeepsIdentity(b[n], ContractChangesAt(s, n));
    }
  }

  lemma WholeIsReplay(s: seq<Column>)
    requires IsStream(s)
    ensures Replay(s) == RowsFrom(s, 0, 0, |s|)
  {
    assert AsContext(s[0..0]) + s[0..|s|] == s;
    ReplayOfChunk(s, 0, 0, |s|);
  }

  lemma RowsAscend(s: seq<Column>, rows: seq<TileColumn>)
    requires IsStream(s) && AllAligned(s, rows)
    ensures SortedBy(rows, Epoch) && DistinctKeys(rows, Epoch)
  {
    forall i, j | 0 <= i < j < |rows| ensures Epoch(rows[i]) < Epoch(rows[j]) {
      assert Aligned(s, rows[i], i) && Aligned(s, rows[j], j);
    }
  }

  lemma WholeNeedsNoMending(s: seq<Column>)
    ensures AllMend(s, RowsFrom(s, 0, 0, |s|))
  {
    hide RowFrom;
    var rows := RowsFrom(s, 0, 0, |s|);
    forall i | 0 <= i < |rows| ensures IsRow(s, rows[i], 0 + i, true) {
      assert rows[i] == RowFrom(s, 0, i);
    }
    SoundRowsMend(s, rows);
  }

  /** Whatever order aligned rows arrive in, reconciliation mends them in place. */
  lemma ReconcileAligned(s: seq<Column>, rows: seq<TileColumn>, arrived: seq<TileColumn>)
    requires IsStream(s) && AllAligned(s, rows) && multiset(arrived) == multiset(rows)
    ensures Reconcile(arrived) == Assemble(rows) && |Reconcile(arrived).columns| == |s|
    ensures forall i :: 0 <= i < |s| ==> Reconcile(arrived).columns[i] == Mend(rows[i], ContractChangesAt(s, i))
  {
    hide Assemble, Mend, StableSort;
    RowsAscend(s, rows);
    SortedIsFixed(rows, Epoch);
    StableSortForgetsOrder(rows, arrived, Epoch);
    AssembleAligned(s, rows, |s|);
    assert rows[..|s|] == rows;
  }

  /**
   Chunked replay equals whole replay. However a stream is cut into windows with sound
   lead-ins, and in whatever order the replayed chunks arrive, reconciling them gives
   every column of the whole stream replayed once, and the same report as reconciling that.
   */
  lemma ChunkedEqualsWhole(s: seq<Column>, plan: seq<Cut>, arrived: seq<TileColumn>)
    requires IsStream(s) && Tiles(s, plan, 0) && SoundPlan(s, plan)
    ensures multiset(arrived) == multiset(ReplayPlan(s, plan, 0)) ==>
      Reconcile(arrived).columns == Replay(s) && Reconcile(arrived) == Reconcile(Replay(s))
  {
    hide Replay, RowFrom, ReplayPlan, Assemble, StableSort, Tiles, Mend;
    var rows, whole := ReplayPlan(s, plan, 0), RowsFrom(s, 0, 0, |s|);
    PlanRows(s, plan, 0, true);
    SoundRowsMend(s, rows);
    WholeNeedsNoMending(s);
    WholeIsReplay(s);
    ReconcileAligned(s, whole, whole);
    AssembliesAgree(s, rows, whole, |s|);
    assert rows[..|s|] == rows && whole[..|s|] == whole;
    if multiset(arrived) == multiset(rows) {
      ReconcileAligned(s, rows, arrived);
      forall i | 0 <= i < |s| ensures Reconcile(arrived).columns[i] == whole[i] {
        assert MendsTo(s, rows[i], i);
      }
    }
  }

  // ----- Reconciliation on any input

  lemma AssembleNothing(none: seq<TileColumn>)
    requires none == []
    ensures Assemble(none) == Assembly([], [], [], 0) && ContractAfter(none) == None
  {
  }

  lemma CrossesByContract(previous: Option<string>, a: TileColumn, b: TileColumn)
    requires ReplayedContract(a) == ReplayedContract(b)
    ensures Crosses(previous, a) == Crosses(previous, b)
  {
  }

  lemma AssembleSnoc(front: seq<TileColumn>, c: TileColumn)
    ensures var before, crossed := Assemble(front), Crosses(ContractAfter(front), c);
      Assemble(front + [c]) == Assembly(
        before.columns + [Mend(c, crossed)],
        if c.methodVersion.Some? then Add(before.methodVersions, c.methodVersion.value) else before.methodVersions,
        if c.rowSize.Some? then Add(before.rowSizes, c.rowSize.value) else before.rowSizes,
        before.contractBreaks + if c.contractBreak == Some(true) || crossed then 1 else 0)
    ensures ContractAfter(front + [c])
         == if ReplayedContract(c).Some? then ReplayedContract(c) else ContractAfter(front)
  {
    assert (front + [c])[..|front|] == front;
  }

  lemma {:induction false} AssembledKeeps(ordered: seq<TileColumn>)
    ensures var r := Assemble(ordered);
      && |r.columns| == |ordered|
      && ContractAfter(r.columns) == ContractAfter(ordered)
      && Assemble(r.columns) == r
      && forall i :: 0 <= i < |ordered| ==> r.columns[i].e == ordered[i].e
  {
    hide Mend, Assemble, ContractAfter, ReplayedContract, Crosses, Add;
    if ordered == [] {
      AssembleNothing(ordered);
    } else {
      var front, c := ordered[..|ordered| - 1], ordered[|ordered| - 1];
      AssembledKeeps(front);
      assert ordered == front + [c];
      var crossed := Crosses(ContractAfter(front), c);
      MendKeepsIdentity(c, crossed);
      CrossesByContract(ContractAfter(front), c, Mend(c, crossed));
      AssembleSnoc(front, c);
      AssembleSnoc(Assemble(front).columns, Mend(c, crossed));
    }
  }

  /** Reconciling what is already reconciled changes nothing. */
  lemma ReconcileIsIdempotent(source: seq<TileColumn>)
    ensures Reconcile(Reconcile(source).columns) == Reconcile(source)
  {
    var ordered := StableSort(source, Epoch);
    StableSortSorted(source, Epoch);
    AssembledKeeps(ordered);
    SortedIsFixed(Assemble(ordered).columns, Epoch);
  }

  /** The order in which chunks land is irrelevant when no two columns share an epoch. */
  lemma ReconcileForgetsArrival(a: seq<TileColumn>, b: seq<TileColumn>)
    requires multiset(a) == multiset(b) && DistinctKeys(a, Epoch)
    ensures Reconcile(a) == Reconcile(b)
  {
    StableSortForgetsOrder(a, b, Epoch);
  }

  // ----- Safe degradation

  /** An untrusted book is empty, whatever came before. */
  lemma {:induction false} UntrustedIsEmpty(columns: seq<Column>)
    ensures !AdvanceAll(START, columns).state.trusted ==> AdvanceAll(START, columns).state.levels == []
  {
    if columns != [] {
      UntrustedIsEmpty(columns[..|columns| - 1]);
    }
  }

  ghost predicate KnowsLess(partial: BookState, full: BookState) {
    partial == full || partial == UNTRUSTED
  }

  lemma KnowsLessAdvances(partial: Cursor, full: Cursor, c: Column)
    requires KnowsLess(partial.state, full.state)
    requires !full.state.trusted ==> full.state.levels == []
    requires partial.contract == None || partial.contract == full.contract
    requires partial.contract == None ==> partial.state == UNTRUSTED
    ensures KnowsLess(Advance(partial, c).state, Advance(full, c).state)
  {
  }

  lemma {:induction false} PartialKnowsLess(s: seq<Column>, lead: nat, n: nat)
    requires lead <= n <= |s|
    ensures KnowsLess(AdvanceAll(START, s[lead..n]).state, AdvanceAll(START, s[..n]).state)
    ensures lead < n ==> AdvanceAll(START, s[lead..n]).contract == AdvanceAll(START, s[..n]).contract
  {
    if lead == n {
      assert s[lead..n] == [];
    } else {
      var k := n - 1;
      PartialKnowsLess(s, lead, k);
      UntrustedIsEmpty(s[..k]);
      assert s[lead..n] == s[lead..k] + [s[k]] && s[..n] == s[..k] + [s[k]];
      assert s[lead..n][..n - lead - 1] == s[lead..k] && s[..n][..k] == s[..k];
      if lead == k {
        assert s[lead..k] == [];
      }
      KnowsLessAdvances(AdvanceAll(START, s[lead..k]), AdvanceAll(START, s[..k]), s[k]);
    }
  }

  lemma NothingAdvanced(none: seq<Column>)
    requires none == []
    ensures AdvanceAll(START, none) == START
  {
  }

  /**
   Safe degradation. A chunk cut anywhere at all shows, for each column, either a gap with no
   cells or exactly the cells of the full replay; and past its first column a shown column is
   the full replay's row in every field.
   */
  lemma BadCutOnlyLosesColumns(s: seq<Column>, lead: nat, from: nat, to: nat, n: nat)
    requires IsStream(s) && lead <= from <= n < to <= |s|
    ensures |Replay(Chunk(s, lead, from, to))| == to - from && |Replay(s)| == |s|
    ensures var row, full := Replay(Chunk(s, lead, from, to))[n - from], Replay(s)[n];
      && row.e == full.e
      && ((row.gap && row.cells == []) || (row.cells == full.cells && row.gap == full.gap))
      && (lead < n && !row.gap ==> row == full)
  {
    hide Replay, AdvanceAll, Apply;
    ReplayOfChunk(s, lead, from, to);
    WholeIsReplay(s);
    assert s[0..n] == s[..n];
    var partial, whole := AdvanceAll(START, s[lead..n]), AdvanceAll(START, s[..n]);
    PartialKnowsLess(s, lead, n);
    UntrustedIsEmpty(s[..n]);
    if lead == n {
      assert s[lead..n] == [];
      NothingAdvanced(s[lead..n]);
    } else {
      ContractAtEnd(START, s[..n]);
    }
    KnowsLessAdvances(partial, whole, s[n]);
  }

  /** Of a chunk cut anywhere, a mended row is the whole replay's row or a gap without cells. */
  lemma MendedRowIsSafe(s: seq<Column>, lead: nat, n: nat)
    requires lead <= n < |s|
    ensures var row := Mend(RowFrom(s, lead, n), ContractChangesAt(s, n));
      row == RowFrom(s, 0, n) || (row.gap && row.cells == [])
  {
    hide AdvanceAll, Apply, ContractText;
    assert s[0..n] == s[..n];
    var partial, whole := AdvanceAll(START, s[lead..n]), AdvanceAll(START, s[..n]);
    if SoundLead(s, lead) {
      MendingRestores(s, lead, n);
    } else {
      MendingRestores(s, 0, n);
      PartialKnowsLess(s, lead, n);
      UntrustedIsEmpty(s[..n]);
      if lead == n {
        assert s[lead..n] == [];
        NothingAdvanced(s[lead..n]);
        UnanchoredIsUntrusted(s[n]);
      } else {
        ContractAtEnd(START, s[..n]);
        KnowsLessAdvances(partial, whole, s[n]);
      }
    }
  }

  lemma UnanchoredIsUntrusted(c: Column)
    ensures !c.isAnchor ==> !Advance(START, c).state.trusted
  {
  }

  /**
   Safe degradation of the whole assembly. For windows behind any lead-ins at all, in any order of
   arrival, every reconciled column is the whole replay's row in every field, or a gap without cells
   at the same time.
   */
  lemma AnyPlanOnlyLosesColumns(s: seq<Column>, plan: seq<Cut>, arrived: seq<TileColumn>, n: nat)
    requires IsStream(s) && Tiles(s, plan, 0) && n < |s|
    ensures |Replay(s)| == |s|
    ensures multiset(arrived) == multiset(ReplayPlan(s, plan, 0)) ==>
      |Reconcile(arrived).columns| == |s| &&
      var row, full := Reconcile(arrived).columns[n], Replay(s)[n];
      row == full || (row.gap && row.cells == [] && row.e == full.e)
  {
    hide Replay, RowFrom, ReplayPlan, Assemble, StableSort, Tiles, Mend;
    var rows := ReplayPlan(s, plan, 0);
    WholeIsReplay(s);
    PlanRows(s, plan, 0, false);
    RowsAligned(s, rows, false);
    if multiset(arrived) == multiset(rows) {
      ReconcileAligned(s, rows, arrived);
      assert IsRow(s, rows[n], 0 + n, false) && Aligned(s, rows[n], n);
      var lead: nat :| lead <= n && rows[n] == RowFrom(s, lead, n);
      MendedRowIsSafe(s, lead, n);
      MendKeepsIdentity(rows[n], ContractChangesAt(s, n));
      WholeRowsAligned(s, n);
    }
  }

  lemma WholeRowsAligned(s: seq<Column>, n: nat)
    requires n < |s|
    ensures RowFrom(s, 0, n).e == s[n].bucketEpoch
  {
    hide AdvanceAll, Advance;
  }
}
