# Verified models of the market-data core

guvolu records order books and trades, rebuilds them, judges price bands and draws the result. This
project models the parts of it where a loop or a state machine must equal something simpler, and proves
that it does, for all inputs and all runs.

* **L2 protocol replay** (`BitbankReplay`, `BitbankSegments`, `BitbankTheory`). Whole and diff frames are
  interpreted as they arrive. The book is shown to be the last accepted whole with the later accepted diffs
  on top, whatever the interleaving; attribution and timing follow.
* **Order-flow columns** (`OrderflowReplay`, `OrderflowTheory`, `OrderflowChunks`). Sparse columns are
  replayed per chunk and reconciled. The replayed book is what the last touching cell since the last anchor
  left; chunked replay equals whole replay; a badly cut chunk only loses columns to gaps.
* **Band judgement** (`Strength`, `RegionSpec`, `RegionJudge`, `RegionTheory`, `DayGrid`, `BandQuery`,
  `SweepJudge`, `WindowJudge`, `VerdictTheory`). The library walks cells and works on decimals; the sweep
  script searches composite keys over prefix sums and ranks by cross-multiplication. Both are proved against
  one specification, so they agree; each verdict and strength is also stated in plain totals and counts.
* **Column grid** (`ColumnGrid`, `ColumnTheory`). Frames and prints become one-second columns, with a
  conservation law and a gap, carry and reset automaton.
* **Decimal text** (`Digits`, `DecimalText`, `DecimalParsing`, `DecimalTheory`, `DecimalShown`, `DecimalForm`).
  Rounding, grouping, fixed-point conversion and truncated division on digit strings of any length, and the
  exact characters of every text shown.
* **Intervals, profiles, pacing, cache** (`Ranges`, `SessionProfile`, `Pacing`, `ChunkSteps`,
  `ChunkTheory`, `ChunkRecency`, `ChunkCache`, `ChunkWindow`).

`Options`, `Numbers`, `Sorting` and `OrderedMap` hold what several modules share: optional values, samples,
Python's sorted keys and JavaScript's stable sort, and JavaScript's insertion-ordered map.

Loops and objects that change state are methods and classes. Each is proved equal to a specification
function (or to what the text of its contract says), and the lemmas are about that function.

## Where the code does less than it seems to promise

These are proved, each with its exact condition and, where short, a concrete input.

* A rule can show strength 0.50 without being met: exactly when every criterion is met or missed by at most
  one per cent of its bound, and not all are met (`Strength.ShownHalfMeansNearlyMet`,
  `RegionTheory.NotMetButShowsHalf`).
* The lower-bound score is monotone exactly when its threshold is not strictly between 0 and 1
  (`Strength.ScoreRisesUnlessThresholdIsAShare`, `Strength.ScoreDropsPastOne`).
* The sweep's span criterion can never fail (`WindowJudge.SpanCriterionNeverFails`).
* The prefix-sum band query is exact exactly when the row range is empty or inside [0, KEY_BASE)
  (`BandQuery.ExactExactlyInsideKeyRange`).
* A print in a second without frames is counted in no column (`ColumnTheory.EatenIsPrinted`).
* `priceBinText` holds the price exactly when the price is not negative or is a multiple of the width
  (`DecimalTheory.BinHoldsPrice`, `DecimalTheory.NegativePriceGoesUp`).

## Model

| member | source | states |
|---|---|---|
| BitbankReplay.BitbankReplayActions | src/guvolu/data/bitbank_book_replay.py:54-123 | The generator loop, yields collected: for every stream its actions and the exception that ends it are those of the step semantics `Run`, which the lemmas below characterise. |
| BitbankReplay.RejectedForGood | src/guvolu/data/bitbank_book_replay.py:83-88 | A frame without a sequence, or of an unknown kind, ends the run for good: frames after it change neither actions nor state. |
| BitbankReplay.RejectedWhen | src/guvolu/data/bitbank_book_replay.py:83-88 | A missing sequence is rejected first, then a kind other than `delta` and `snapshot`; every other frame is taken. |
| BitbankReplay.RebasedAll | src/guvolu/data/bitbank_book_replay.py:119-123 | Every buffered frame named by the sorted keys is yielded once, in key order, at the time of the whole. |
| BitbankSegments.SegmentIsMaximalSuffix | src/guvolu/data/bitbank_book_replay.py:74-81 | The frames that count are the longest suffix of the stream that stays in one session. |
| BitbankSegments.AcceptedMeansRecord | src/guvolu/data/bitbank_book_replay.py:89-95 | A frame is accepted exactly when its sequence exceeds that of every earlier frame of its kind in the session. |
| BitbankSegments.PendingGrows | src/guvolu/data/bitbank_book_replay.py:97-112 | A diff becomes pending exactly when it exceeds every diff and every whole before it. |
| BitbankSegments.PendingRebases | src/guvolu/data/bitbank_book_replay.py:114-119 | An accepted whole leaves pending exactly the diffs with a larger sequence. |
| BitbankSegments.PendingMeans | src/guvolu/data/bitbank_book_replay.py:97-119 | The diffs that wait on the last whole are, in ascending sequence, exactly those beyond every earlier diff and every whole of the session. |
| BitbankTheory.LatestGrows | src/guvolu/data/bitbank_book_replay.py:89-95 | `previous_by_kind` rejects a frame exactly when the accepted frames of its kind would not grow. |
| BitbankTheory.StateIsDenoted | src/guvolu/data/bitbank_book_replay.py:69-123 | Loop invariant: after every valid stream all four loop variables are a function of the current session's frames; `buffered` holds exactly the pending diffs by sequence. |
| BitbankTheory.RebasedInOrder | src/guvolu/data/bitbank_book_replay.py:119-123 | `sorted(buffered.items())` lists the pending diffs in the order they were accepted. |
| BitbankTheory.BookIsLastWholePlusLaterDiffs | src/guvolu/data/bitbank_book_replay.py:62-123 | Prefix characterisation: folding the actions of any valid stream gives the last accepted whole of the current session with every later accepted diff on top in ascending sequence, and the empty book before the first whole. |
| BitbankTheory.InterleavingDoesNotMatter | src/guvolu/data/bitbank_book_replay.py:83-123 | Confluence: two interleavings of the same diffs and the same wholes of one session, after any common past, end in the same book and the same four variables. |
| BitbankTheory.AttributedExactlyOnce | src/guvolu/data/bitbank_book_replay.py:89-123 | Over a whole run the attributed frames are, in order and once each, exactly the diffs that arrive after a whole of their session and beyond everything it has shown; rebased replays are never attributed. |
| BitbankTheory.RunIsScript | src/guvolu/data/bitbank_book_replay.py:69-123 | The whole action list, from the frames alone: per frame its own action with all five fields (marked exactly where its session differs from the frame before it; resetting exactly for a whole beyond every whole of its session; applied and attributed exactly for a diff that advances the book), and behind an accepted whole the replay of every pending diff. |
| BitbankTheory.LastChangeDecides | src/guvolu/data/orderflow_tile_materialize.py:428-441 | The last change of a price decides its level in the folded book: a size stands, a deletion or a zero size takes it away. |
| BitbankTheory.UnchangedStays | src/guvolu/data/orderflow_tile_materialize.py:428-441 | A level no change of the list is about stays as it was. |
| BitbankTheory.NoLookAhead | src/guvolu/data/bitbank_book_replay.py:89-123 | If frames arrive in time order, action times never decrease, none precedes its own frame's arrival and none is later than the last frame. |
| OrderflowReplay.ApplyOrderflowColumnV2 | web/src/ofl-v2.ts:26-57 | The per-column step: gap, anchor, untrusted and cell-by-cell branches end in the state `Apply` names. |
| OrderflowTheory.LastCellDecides | web/src/ofl-v2.ts:40-55 | After a column each level is what the last non-trade cell at it left there: its size, or nothing for an absent or zero size; a level no such cell touches is unchanged. |
| OrderflowTheory.BookIsLastTouchSinceAnchor | web/src/ofl-v2.ts:26-57 | After any columns the book is trusted exactly when an anchor stands behind it with no gap and no contract change since, and then holds at each level what the last touching cell since the last anchor left; an untrusted book is empty. |
| OrderflowTheory.BookInOrder | web/src/ofl-v2.ts:32-55 | The levels stand in the order in which their prices last entered the book since the anchor, each once. |
| OrderflowTheory.RowsHaveFields | web/src/ofl-replay.ts:117-157 | Every field of the row of every column, from the columns alone: epoch, time, frames, method version and row size are the column's own; carried exactly if the column is and no contract changes there; reset exactly if the column is, or it is a non-gap anchor of a changed contract; gap exactly without an anchor since the last gap or contract change; the contract mark exactly where the contract changes. |
| OrderflowTheory.StreamShowsTheBook | web/src/ofl-replay.ts:130-151 | Row n of a replayed stream lists the book as it stands after column n, in its order, with that column's changes. |
| OrderflowTheory.ContractTextsAgree | web/src/ofl-replay.ts:22-26 | Without a NUL character in the version, two contract keys are equal exactly when version and row size are. |
| OrderflowTheory.ContractTextsCollide | web/src/ofl-replay.ts:22-26 | The concrete failure: a missing row size and the text `<null>` give one key. |
| OrderflowTheory.ReplayOfAnySource | web/src/ofl-replay.ts:117-170 | For any source, repeated ids included: one row per visible id, the last column's, in ascending epochs. |
| OrderflowTheory.RowShowsTheBook | web/src/ofl-replay.ts:130-163 | A row is a gap without cells exactly when the book is untrusted; otherwise it lists every level once, in book order, with the changes of the column's last cell there or zeros. |
| OrderflowTheory.ReportCountsMarks | web/src/ofl-replay.ts:201-221 | A column is marked exactly when it was marked or enters a contract other than the last known one; a newly marked one drops its carried flag and becomes a reset unless it is a gap, every other is left as it is; the count of contract breaks is the number of marked columns. |
| OrderflowTheory.ReportListsContracts | web/src/ofl-replay.ts:195-200 | Every method version and every row size seen is listed, once each. |
| OrderflowReplay.ReplayOrderflowColumnsV2 | web/src/ofl-replay.ts:111-171 | The replay loop, the visibility filter and the sort return `Replay(source)` for every source; RowsHaveFields, RowShowsTheBook and ReplayOfAnySource say what its rows are. |
| OrderflowReplay.ReconcileOrderflowColumnsV2 | web/src/ofl-replay.ts:184-229 | The reconciliation loop returns `Reconcile(source)` for every source. |
| OrderflowChunks.ReplayOfChunk | web/src/ofl-replay.ts:111-171 | Replaying a chunk behind a context-only lead-in yields one row per window column, in order. |
| OrderflowChunks.AnchorsForget | web/src/ofl-v2.ts:30-38 | A gap or an anchor makes everything before it irrelevant. |
| OrderflowChunks.SoundLeadCatchesUp | web/src/ofl-replay.ts:114-129 | Past the first column of a lead-in that starts the stream, or starts at an anchor or gap, the chunk's state is the stream's own. |
| OrderflowChunks.MendingRestores | web/src/ofl-replay.ts:201-214 | Reconciliation restores exactly the flags a soundly led chunk could not know about its first column. |
| OrderflowChunks.ChunkedEqualsWhole | web/src/ofl-replay.ts:111-229 | However a stream is cut into windows with sound lead-ins, and in whatever order the replayed chunks arrive, reconciling them gives every column of one replay of the whole stream, and the same report. |
| OrderflowChunks.ReconcileIsIdempotent | web/src/ofl-replay.ts:184-229 | Reconciling what is already reconciled changes nothing, for any input. |
| OrderflowChunks.ReconcileForgetsArrival | web/src/ofl-replay.ts:187-187 | The order in which columns arrive is irrelevant when no two share an epoch. |
| OrderflowChunks.UntrustedIsEmpty | web/src/ofl-v2.ts:30-39 | An untrusted book is empty after every run. |
| OrderflowChunks.BadCutOnlyLosesColumns | web/src/ofl-replay.ts:114-147 | A chunk cut anywhere at all shows each column either as a gap with no cells or with exactly the cells of the full replay; past its first column a shown row equals the full replay's row in every field. |
| OrderflowChunks.AnyPlanOnlyLosesColumns | web/src/ofl-replay.ts:111-229 | For windows behind any lead-ins at all, in any order of arrival, every reconciled column is the whole replay's row in every field or a gap without cells at the same time. |
| Strength.HalfMarksTheThreshold | src/guvolu/data/book_features.py:202-265 | Every criterion score lies in [0, 1] and is at least one half exactly when the criterion is met. |
| Strength.ScoreRisesUnlessThresholdIsAShare | src/guvolu/data/book_features.py:202-212 | The lower-bound score is monotone in the observation if and only if the threshold is not strictly between 0 and 1. |
| Strength.ScoreDropsPastOne | src/guvolu/data/book_features.py:202-212 | The concrete failure: against one half, the value 1 scores higher than 1.25. |
| Strength.UpperBoundScoreFalls | src/guvolu/data/book_features.py:215-226 | The upper-bound score never rises with the observation. |
| Strength.QuantizeIsMonotone | src/guvolu/data/book_features.py:197-199 | Two-place quantisation, ties to even, is monotone. |
| Strength.QuantizeReaches | src/guvolu/data/book_features.py:197-199 | The quantised value reaches h hundredths from half a hundredth below on, that half itself counting only for an even h. |
| Strength.LowerScoreLaw | src/guvolu/data/book_features.py:202-212 | The lower-bound score on every input: 0 without a positive bound or value, half the ratio below the bound, a straight line from 1/2 at the bound to 1 at the full mark, and 1 beyond. |
| Strength.UpperScoreLaw | src/guvolu/data/book_features.py:215-226 | The upper-bound score on every input: a straight line from 1 at zero to 1/2 at the bound, half the ratio of bound to value beyond, 1/2 or 0 without a positive bound. |
| Strength.StrengthReaches | src/guvolu/data/book_features.py:229-276 | The shown strength reaches h hundredths exactly when every criterion's score does; an inactive rule shows `0` and is not met. |
| Strength.QuantizingCommutesWithWeakest | src/guvolu/data/book_features.py:229-276 | Quantising every score and taking the weakest equals taking the weakest and quantising it. |
| Strength.VerdictFollowsWeakest | src/guvolu/data/book_features.py:229-276 | For every non-empty active list the verdict is met exactly when the unrounded weakest score is at least one half; the shown strength lies between 0.00 and 1.00 and is at least 0.50 whenever met. |
| Strength.ShownHalfMeansNearlyMet | src/guvolu/data/book_features.py:202-276 | The converse fails exactly when every criterion is met or missed by at most one per cent of its bound and not all are met: then 0.50 is shown unmet, and nothing higher ever is. |
| RegionTheory.NotMetButShowsHalf | src/guvolu/data/book_features.py:359-386 | The concrete failure: an absorption with thirty samples, rank 0.95, no drift and 99.5 added against executed 200 is not met and shows 0.50. |
| Strength.EmptyListIsMetButFlat | src/guvolu/data/book_features.py:268-276 | An active list without criteria would be met with strength `0`; every judgement lists at least two. |
| RegionTheory.RankFollowsShare | src/guvolu/data/book_features.py:192-199 | A percentile is within half a hundredth of the share of samples not above the value, and monotone in the value. |
| RegionTheory.RankReachesShare | src/guvolu/data/book_features.py:192-199 | A rank reaches h hundredths exactly from h - 1/2 per cent of the samples on, that share itself counting only for an even h. |
| RegionTheory.DriftIsNear | src/guvolu/data/book_features.py:362-366 | The drift is within half a hundredth of the exact basis-point distance from the first to the last mid price. |
| VerdictTheory.NothingToMeasure | src/guvolu/data/book_features.py:362-366 | With fewer than two mid prices, or a first one that is not positive, the drift is zero. |
| RegionJudge.BandSampleOf | src/guvolu/data/book_features.py:178-189 | One column's in-band totals, or nothing for a gap or carried column. |
| RegionJudge.SpoofingSuspicionOf | src/guvolu/data/book_features.py:459-489 | The nested scan returns `SpoofingSuspicion`. |
| RegionJudge.SweptRows | src/guvolu/data/book_features.py:500-508 | The first column in which each price row of each side was eaten empty. |
| RegionJudge.ScanSide | src/guvolu/data/book_features.py:510-530 | The run scan of one side over its sorted rows returns `BestOver`, which SweepRunIsBest characterises. |
| RegionJudge.JudgeSweep | src/guvolu/data/book_features.py:492-567 | The reported run is `SweepRun` and the verdict the one drawn from it and the baseline. |
| RegionJudge.AnalyzeRegion | src/guvolu/data/book_features.py:284-347 | The four judgements and the spoofing flag of a window equal `Analysis`, the specification both judges are held to. |
| VerdictTheory.UsableOfBoth | src/guvolu/data/book_features.py:296-300 | The usable columns of two stretches are those of the first and then of the second. |
| VerdictTheory.OneUsable | src/guvolu/data/book_features.py:296-300 | A column is usable unless it is a gap or carried. |
| VerdictTheory.MidsOfBoth | src/guvolu/data/book_features.py:315-318 | Mid prices are kept in order. |
| VerdictTheory.OneMid | src/guvolu/data/book_features.py:279-281 | A column without a mid price gives none; another its own, in tenths. |
| VerdictTheory.OneCell | src/guvolu/data/book_features.py:146-175 | A cell counts with its own quantity exactly when its row is in the band. |
| VerdictTheory.BandTotalOfBoth | src/guvolu/data/book_features.py:178-189 | Band totals add over cells. |
| VerdictTheory.OneSample | src/guvolu/data/book_features.py:178-189 | A column's sample holds its in-band totals of what was eaten and cancelled and of what stands. |
| VerdictTheory.RegionTotalOfBoth | src/guvolu/data/book_features.py:309-314 | Window totals add over columns. |
| VerdictTheory.AbsorptionMeans | src/guvolu/data/book_features.py:284-402 | Absorption is met exactly when something was eaten, there are thirty samples, the mean eaten quantity is not below 89.5% of them, at least half of it was added back and the mid price moved at most 5.005 basis points (or there is no move to measure). |
| VerdictTheory.PullMeans | src/guvolu/data/book_features.py:284-456 | Pull is met exactly when something was cancelled, there are thirty samples and two mid prices of which the last is strictly nearer the middle of the band, the mean cancel is not below 89.5% of the samples and four times the eaten quantity does not exceed the cancelled. |
| VerdictTheory.SpoofingMeans | src/guvolu/data/book_features.py:441-489 | The spoofing flag of a window is raised exactly when its usable columns show a suspicious cancel against the samples of the day. |
| VerdictTheory.SweepMeans | src/guvolu/data/book_features.py:492-567 | The sweep is met exactly when the best run has three rows and there are thirty samples. |
| VerdictTheory.VacuumMeans | src/guvolu/data/book_features.py:570-612 | A vacuum is met exactly when there is a usable column, there are thirty samples and at most 10.5% of them are no deeper than the shallowest usable column. |
| VerdictTheory.AbsorptionStrength | src/guvolu/data/book_features.py:353-386 | The shown strength of an absorption is that of its weakest of four named bounds, `0` when nothing was eaten. |
| VerdictTheory.PullStrength | src/guvolu/data/book_features.py:417-440 | The shown strength of a pull is that of its weakest of four named bounds, `0` when nothing was cancelled. |
| VerdictTheory.SweepStrength | src/guvolu/data/book_features.py:531-551 | The shown strength of a sweep is that of its weakest of three named bounds, `0` when no row was swept. |
| VerdictTheory.VacuumStrength | src/guvolu/data/book_features.py:570-596 | The shown strength of a vacuum is that of the weaker of two named bounds, `0` without a usable column. |
| RegionTheory.HitsAreFirst | src/guvolu/data/book_features.py:500-508 | A row is hit exactly when some column sweeps it, and at the first column that does. |
| RegionTheory.SpanIsMeasured | src/guvolu/data/book_features.py:518-525 | The span is measured from the hits: no two rows of the stretch lie further apart, and two lie just that far. |
| RegionTheory.SweepRunIsBest | src/guvolu/data/book_features.py:509-530 | The reported run is one-sided, price-consecutive from where its maximal block opens, no two of its hits lie three columns apart or more, and two lie exactly its span apart; no block of either side has a longer such opening stretch; ties go to the lower prices and to the ask. |
| RegionTheory.NoRunMeansNothingSwept | src/guvolu/data/book_features.py:509-530 | No run is reported exactly when no row of either side was swept. |
| RegionTheory.BestIsFirstLargest | src/guvolu/data/book_features.py:466-474 | The scan finds the largest in-band cancel, of several the first column's and its first cell. |
| RegionTheory.LifetimeIsUnbroken | src/guvolu/data/book_features.py:480-488 | The lifetime is the length of the unbroken stand just before the end. |
| RegionTheory.SuspicionIsShortStand | src/guvolu/data/book_features.py:459-489 | Suspicion is raised exactly when the first of the largest cancels is not below more than 94.5% of the samples and its row had stood for one to sixty columns just before it, and no longer. |
| DayGrid.BuildGrid | scripts/sweep_book_features.py:74-141 | The day arrays represent the columns: every slot holds its cell, composite keys and all four prefix sums included. |
| BandQuery.SearchSorted | scripts/sweep_book_features.py:148-149 | In an ascending array the binary search returns the leftmost insertion point. |
| BandQuery.CompOrdered | scripts/sweep_book_features.py:119-128 | The composite keys ascend over the whole day. |
| BandQuery.QueryIsBandTotal | scripts/sweep_book_features.py:143-155 | Two searches and a prefix difference equal the walk over the column's cells, for every column and all four quantities. |
| BandQuery.BandArrays | scripts/sweep_book_features.py:143-155 | One array per quantity, each entry the band total of its column. |
| BandQuery.ExactExactlyInsideKeyRange | scripts/sweep_book_features.py:143-155 | For all row ranges, the query is exact on every day if and only if the range is empty or lies in [0, KEY_BASE). |
| BandQuery.LeaksFrom | scripts/sweep_book_features.py:143-155 | Outside that range there is a day on which another column's cell is counted in. |
| BandQuery.CountsOff | scripts/sweep_book_features.py:143-155 | With the bounds the wrong way round there is a day on which a cell is counted off. |
| SweepJudge.CountsAgree | scripts/sweep_book_features.py:158-167 | Counting by cross-multiplication counts the samples not above the rational mean. |
| SweepJudge.RanksAgree | scripts/sweep_book_features.py:158-167 | The integer percentile equals the library's percentile of the rational mean. |
| SweepJudge.TopCancel | scripts/sweep_book_features.py:438-450 | The masked `argmax` keeps the running best exactly when nothing larger is in the band. |
| SweepJudge.Stands | scripts/sweep_book_features.py:457-466 | One binary search decides whether the row stands in the column. |
| SweepJudge.Spoofing | scripts/sweep_book_features.py:430-467 | The array form returns the same suspicion as the library's scan on the scanned columns. |
| SweepJudge.SweepRunOf | scripts/sweep_book_features.py:470-507 | The array form returns the same run length, span and side. |
| WindowJudge.MedianIsMiddle | scripts/sweep_book_features.py:248-248 | The centre of the band is the upper median: more than half of the mids are not above it, at most half lie below it. |
| VerdictTheory.BandIsCentred | scripts/sweep_book_features.py:248-250 | The band is centred on the median and reaches its basis points to each side. |
| VerdictTheory.WindowIsJudged | scripts/sweep_book_features.py:236-253 | A window is declined exactly when none of its usable columns has a mid price; otherwise it is judged in the band around the upper median of its mid prices, against the usable columns of the day. |
| WindowJudge.ConjunctionIsVerdict | scripts/sweep_book_features.py:293-311 | The script's hand-written conjunction with the weakest unrounded score is the library's verdict over quantised rows. |
| WindowJudge.JudgeAbsorption | scripts/sweep_book_features.py:284-327 | Absorption from whole-number sums equals the library's absorption verdict. |
| WindowJudge.JudgePull | scripts/sweep_book_features.py:328-371 | Pull from whole-number sums equals the library's pull verdict. |
| WindowJudge.JudgeSweep | scripts/sweep_book_features.py:372-398 | The sweep verdict without the span criterion equals the library's with it. |
| WindowJudge.JudgeVacuum | scripts/sweep_book_features.py:399-419 | Vacuum from the least whole-number depth equals the library's vacuum verdict. |
| WindowJudge.LeastIsLowestDepth | scripts/sweep_book_features.py:399-401 | The least total in units is the lowest depth in decimals. |
| WindowJudge.SpanCriterionNeverFails | src/guvolu/data/book_features.py:527-551 | The span criterion can never fail: the sweep is met exactly when the run has three levels and the baseline thirty samples. |
| WindowJudge.JudgeWindow | scripts/sweep_book_features.py:225-420 | The two judges agree: in closed mode the array judge returns the library's four verdicts, strengths, swept run and spoofing flag for the same window, band and day, and declines a window exactly when no usable column carries a mid price. |
| WindowJudge.UsualBandsFit | scripts/sweep_book_features.py:248-253 | With up to 10000 basis points and mid prices below half the key range every window meets the band condition of JudgeWindow. |
| ColumnGrid.BuildColumns | scripts/verify_alert_features.py:204-312 | The day loop returns the columns of `Build` for every frames, prints, start and horizon. |
| ColumnGrid.CellsOfSecond | scripts/verify_alert_features.py:244-260 | The cells of a second with frames, in row order, quiet rows left out. |
| ColumnGrid.NetCell | scripts/verify_alert_features.py:247-260 | The cell accounts for its row: closing = opening + additions - cancellations - executed, never both added and cancelled, its side naming exactly the sides that stood. |
| ColumnGrid.BalanceDecides | scripts/verify_alert_features.py:247-260 | Only one cell accounts for a row. |
| ColumnTheory.CellBalances | scripts/verify_alert_features.py:247-260 | Every cell of a second with frames accounts for its row: closing = opening + net add - net cancel - executed, both flows non-negative and never both positive; the side names exactly the sides that stood at the close, or at the opening where nothing is left. |
| ColumnTheory.BinnedSums | scripts/verify_alert_features.py:163-181 | Binning a frame keeps the sides apart and sums each by row. |
| ColumnTheory.FramesOfBoth | scripts/verify_alert_features.py:208-215 | The frames of a second are kept in order. |
| ColumnTheory.OneFrame | scripts/verify_alert_features.py:209-213 | A frame belongs to the second its time in milliseconds lies in. |
| ColumnTheory.OnePrint | scripts/verify_alert_features.py:216-223 | A print counts with its size in the second of its time and the one-unit row of its price. |
| ColumnTheory.FrameColumnAccounts | scripts/verify_alert_features.py:231-260 | Every row of every frame column: a row in which anything stood or was printed has one cell, which accounts for the change from the opening frame (the last one before, or its own first after a reset) to the last frame of the second; other rows have none. |
| ColumnTheory.EatenIsPrinted | scripts/verify_alert_features.py:216-243 | Every print of a second with frames is executed in its row, once; a print of a second without frames is counted in no column. |
| ColumnTheory.MidIsHalfway | scripts/verify_alert_features.py:195-201 | A frame column shows the price halfway between the best quotes of its last frame, exactly if both sides quote. |
| ColumnTheory.GapsLastUntilReset | scripts/verify_alert_features.py:228-311 | Every column is a frame, a carried column or a gap; a frame column is reset exactly when it opens the day or follows a gap; no carried column follows a gap or opens the day. |
| ColumnTheory.CarriedExactlyWithinLimit | scripts/verify_alert_features.py:277-298 | A second without frames is carried exactly when it ends within 30 s of the last frame before it, and repeats the mid price of the column before it. |
| ColumnTheory.CarriedHasLevels | scripts/verify_alert_features.py:282-283 | A carried column always has stored levels: the empty default is unreachable. |
| ColumnTheory.CarriedColumnShows | scripts/verify_alert_features.py:276-298 | Every carried column lists exactly the rows the last frame before it prices, each with the quantity and the sides that stand there and no flow at all, under that frame's mid price. |
| ColumnTheory.GapsAreEmpty | scripts/verify_alert_features.py:262-311 | Column k is that of second day start + k; a gap has no cells, no frames and no mid price. |
| ColumnTheory.QuantityIsConserved | scripts/verify_alert_features.py:240-311 | Over any stretch of columns with no gap, every row ends with its starting quantity plus all net additions minus all cancellations minus everything executed. |
| ColumnTheory.ResetStartsFromFirstFrame | scripts/verify_alert_features.py:234-239 | A reset column balances against the first frame of its own second. |
| ColumnTheory.BuiltRowsAscend | scripts/verify_alert_features.py:244-286 | The cells of every built column have strictly ascending rows. |
| DecimalParsing.ParsesExactlyWritings | web/src/format.ts:256-285 | A text parses to given parts exactly when it writes them: white space, an optional sign, digits, an optional point with digits, white space, at least one digit in all; a missing integer part reads zero. |
| DecimalParsing.SpacesAre | web/src/format.ts:267-270 | White space is what JavaScript trims, by code point. |
| DecimalText.GroupInt | web/src/format.ts:320-328 | The grouping loop returns `Grouped`, which GroupingIsInvertible and GroupedIsOnly characterise. |
| DecimalText.Carry | web/src/format.ts:296-309 | The carry loop on the digit array adds one in the last place. |
| DecimalText.Round | web/src/format.ts:288-317 | The rounding method equals `RoundTo`. |
| DecimalTheory.RoundingIsHalfUp | web/src/format.ts:288-317 | For digits of any length the result has exactly `places` fractional digits and magnitude floor(|x| * 10^places + 1/2), with the sign kept; the integer part grows exactly when all kept digits are nines and the next is five or more. |
| DecimalTheory.GroupingIsInvertible | web/src/format.ts:320-328 | Removing the separators inverts grouping; a separator stands before every third digit from the right, nowhere else and never in front. |
| DecimalTheory.GroupedIsOnly | web/src/format.ts:320-328 | No other text has the separators in those places and the same digits. |
| DecimalTheory.SplitUndoesJoin | web/src/format.ts:267-285 | Parsing what was printed ungrouped gives the parts back. |
| DecimalTheory.ToFixedTruncates | web/src/format.ts:439-450 | The fixed-point integer is the value cut towards zero, with its sign. |
| DecimalTheory.FixedRoundTrip | web/src/format.ts:439-464 | Printing any integer at any place count, trimmed or not, and reading it back gives the integer. |
| DecimalForm.PrintedIsTheOnlyText | web/src/format.ts:331-335 | For every integer, place count and style exactly one text writes it, character by character, and it is the printed one: sign, digits without a zero in front, separators, point, and the fraction with or without its trailing zeros. |
| DecimalTheory.AbbreviationIsClose | web/src/format.ts:402-415 | The tenths shown for an abbreviated total are within one twentieth of its unit. |
| DecimalShown.GroupedReadsBack | web/src/format.ts:331-335 | A grouped text without its separators is the ungrouped text. |
| DecimalShown.TierByMagnitude | web/src/format.ts:403-405 | Totals from a million up are shown in M, from a thousand up in k, smaller ones in full, whatever leading zeros the text has. |
| DecimalText.TotalText | web/src/format.ts:394-418 | The tier loop returns `TotalTextOf`. |
| DecimalShown.TotalReadsBack | web/src/format.ts:394-418 | Reading the shown total back gives the value rounded half up at the step's places, or within one twentieth of the shown unit; the sign is kept. |
| DecimalForm.TotalTextShows | web/src/format.ts:394-418 | The exact text: a dash if unreadable; in full, grouped and without trailing zeros at the step's places; abbreviated, grouped with exactly one decimal and the mark. |
| DecimalTheory.BpIsTruncatedRatio | web/src/format.ts:525-547 | For operands of any scale the printed quotient is num * 10^6 / den cut towards zero, and missing exactly when the denominator is zero. |
| DecimalTheory.BpTextReadsBack | web/src/format.ts:525-547 | The shown text reads back as that quotient at two places. |
| DecimalForm.BpTextShows | web/src/format.ts:525-547 | The exact text: a dash if an operand is unreadable or the divisor zero, otherwise the ratio cut towards zero with exactly two decimals and no separators. |
| DecimalForm.BpDiffTextShows | web/src/format.ts:550-567 | The exact text of a difference over its base, likewise. |
| DecimalShown.BpDiffTextIsBpText | web/src/format.ts:550-567 | `bpDiffText` is `bpText` of the exactly printed difference, whatever the two scales. |
| DecimalTheory.BinHoldsPrice | web/src/format.ts:620-637 | The shown bin is a multiple of the width and holds the price if and only if the price is not negative or is itself a multiple. |
| DecimalTheory.BinIsUnique | web/src/format.ts:635-635 | Only one multiple of the width holds the price. |
| DecimalTheory.NegativePriceGoesUp | web/src/format.ts:635-635 | The concrete failure: -1.5 in bins of 1 is shown at -1. |
| DecimalTheory.PriceBinTextReadsBack | web/src/format.ts:620-637 | The shown bin text reads back as the aligned price. |
| DecimalForm.PriceBinTextShows | web/src/format.ts:620-637 | Nothing exactly when an operand is unreadable or the width not positive; otherwise the exact text of the multiple next to the price towards zero. |
| DecimalShown.UnitCountCounts | web/src/format.ts:467-481 | A count is shown exactly when both texts parse, the unit is positive and the value a whole number of units, both at full precision; times the unit it is the value. |
| DecimalForm.UnitCountTextShows | web/src/format.ts:467-481 | The exact text: a plain integer, or a dash when there is no count to show. |
| DecimalShown.PlacesOfText | web/src/format.ts:210-214 | On text that parses, the place count is the length of the fraction. |
| DecimalForm.PlacesMean | web/src/format.ts:210-214 | On any text the place count is the number of characters after its first point, zero without one. |
| DecimalText.SumSizeTexts | web/src/format.ts:584-597 | The shown text is that of the sum of all texts that parse, each cut to the step. |
| DecimalTheory.SumReadsBack | web/src/format.ts:584-597 | The shown sum reads back as the sum of the sizes, each cut to the step. |
| DecimalForm.SumTextShows | web/src/format.ts:584-597 | The exact text of the sum, without separators and trailing zeros. |
| DecimalForm.OneSize | web/src/format.ts:589-595 | A text that cannot be read adds nothing, any other its value cut to the step. |
| Ranges.UncoveredRanges | web/src/ofl-ranges.ts:4-31 | The cursor loop returns `Uncovered`. |
| Ranges.UncoveredIsTheComplement | web/src/ofl-ranges.ts:4-31 | For coverage in any order and overlap the result is sorted, disjoint and non-empty, and every instant of the window is in exactly one of result and coverage. |
| Ranges.MissingRanges | web/src/ofl-render.ts:707-728 | The one-pass loop returns `Missing`. |
| Ranges.LoopEqualsSubtraction | web/src/ofl-render.ts:707-728 | On columns sorted by epoch the one-pass loop returns the same list as the general subtraction. |
| Ranges.ColumnAtEpoch | web/src/ofl-render.ts:731-748 | The binary search finds the last column that starts at or before the instant if it reaches it, and nothing exactly when no column covers the instant. |
| Ranges.FoundUnlessMissing | web/src/ofl-render.ts:707-748 | A column covers an instant of the window exactly when the instant is not in a missing range. |
| SessionProfile.RankRatio | web/src/chart.tsx:278-290 | The binary search returns the share of samples not above the value. |
| SessionProfile.BuildProfile | web/src/chart.tsx:293-332 | Point of control, area high and area low are those of `ProfileOf`, which ValueAreaIsGreedy characterises. |
| SessionProfile.GrowArea | web/src/chart.tsx:309-326 | The two-ended loop terminates and returns `Grow`. |
| SessionProfile.ValueAreaIsGreedy | web/src/chart.tsx:293-332 | The area is where the one sequence of blocks ends that starts at the leftmost largest level and takes, while short of 70% of the volume, exactly the larger neighbour, the upper one on a tie or the only one left; that sequence exists and is unique. With non-negative sizes it ends holding at least 70%. |
| SessionProfile.GrowthIsUnique | web/src/chart.tsx:309-326 | Two such sequences from the same block are equal. |
| SessionProfile.SplitSessions | web/src/chart.tsx:465-532 | The sessions tile the bars and each profile is that of its own bars; the cumulative delta is blank at a session's first bar and the session's delta so far at every other. |
| SessionProfile.SessionIsOneDay | web/src/chart.tsx:236-238 | A session is a maximal stretch of bars of one trading day, which begins three hours before midnight UTC, and its bars cumulate from its own start. |
| SessionProfile.SessionVolumeIsConserved | web/src/chart.tsx:497-502 | Merging levels by price loses no volume. |
| SessionProfile.PricesKeepTheirVolume | web/src/chart.tsx:497-502 | Each price the bars list has one entry with exactly what they sold and bought at it; no other price has any. |
| SessionProfile.MarkNaked | web/src/chart.tsx:534-545 | Each session gets the first later bar that touches its point of control. |
| SessionProfile.FirstTouchIsFirst | web/src/chart.tsx:538-543 | That bar touches the price and none before it does. |
| Pacing.RateLimiter.Acquire | src/guvolu/api/transport.py:51-58 | One call is one entry of the many-thread machine: its new slot is the time the caller sleeps until. |
| Pacing.RateLimiter.Make | src/guvolu/api/transport.py:44-49 | Construction fails exactly for a rate that is not positive. |
| Pacing.LimiterHoldsRate | src/guvolu/api/transport.py:41-58 | Whatever calls a limiter object has served, its slots are spaced and a window of length T holds at most ceil(T / interval). |
| Pacing.GrantsAreSpaced | src/guvolu/api/transport.py:41-58 | In every run, under every interleaving of threads, grants i and j are at least (j - i) intervals apart, so a half-open window of length T holds at most ceil(T / interval). |
| Pacing.GrantsAreEarliest | src/guvolu/api/transport.py:51-58 | No other schedule serving the same arrivals in order, never early and an interval apart, serves any of them sooner. |
| Pacing.EveryoneIsServed | src/guvolu/api/transport.py:51-58 | What can happen in any state and what it does: a thread that is not waiting takes the earliest slot, time passes, a waiting thread goes out exactly when the clock has reached its slot. |
| Pacing.CeilingMeans | src/guvolu/api/transport.py:41-58 | ceil(T / interval) intervals cover T and one fewer do not. |
| Pacing.ReleasesNeverExceedRate | src/guvolu/api/transport.py:51-58 | However late sleeps end, R released calls take at least R - 1 intervals from the first slot. |
| Pacing.CommandPacer.WaitTurn | src/guvolu/api/ws_common.py:108-116 | One call is a stretch of the many-client machine: the turn comes the computed wait after the lock, plus however late the sleep ends. |
| Pacing.CommandPacer.Make | src/guvolu/api/ws_common.py:96-106 | Construction fails exactly for an interval that is not positive. |
| Pacing.WaitIsLeast | src/guvolu/api/ws_common.py:111-115 | A wait keeps the turns an interval apart if and only if it is at least the wait the pacer computes. |
| Pacing.CommandWaitIsLeast | src/guvolu/api/ws_common.py:62-66 | The command rule asks for exactly the least wait that keeps commands 1.1 seconds apart. |
| Pacing.PacerHoldsInterval | src/guvolu/api/ws_common.py:90-116 | Whatever clients a pacer object has served, its turns are spaced and a window of length T holds at most ceil(T / interval). |
| Pacing.TurnsAreSpaced | src/guvolu/api/ws_common.py:90-116 | Over every run of clients sharing one pacer, turns are as many intervals apart as their positions, and a window of length T holds at most ceil(T / interval). |
| Pacing.PacerSteps | src/guvolu/api/ws_common.py:108-116 | What can happen to the pacer in any state and what it does: a free lock is taken and the turn set, time passes, and the turn is taken exactly when the clock has reached it. |
| ChunkSteps.TouchKeepsChunks | web/src/ofl-data.ts:90-97 | Touching moves the chunk last and changes nothing else. |
| ChunkRecency.EvictionFollowsUse | web/src/ofl-data.ts:90-111 | After any run, if eviction keeps a chunk that nothing protects it keeps every chunk used later. |
| ChunkRecency.CacheIsByRecency | web/src/ofl-data.ts:90-97 | Over every run the map lists its chunks in the order of their last use: the last touch while held, or the landing that inserted them. |
| ChunkTheory.OldestGoFirst | web/src/ofl-data.ts:99-111 | What stands in the map behind a kept unprotected chunk is kept. |
| ChunkTheory.EvictionReachesCap | web/src/ofl-data.ts:99-111 | Eviction ends at or under 96 chunks unless only needed keys and keys in flight remain, never drops more than it must, and changes nothing but the cache. |
| ChunkCache.DropOldest | web/src/ofl-data.ts:103-110 | The eviction loop drops unprotected chunks from the front until the surplus is gone, keeping the order of the rest. |
| ChunkTheory.RunsStaySound | web/src/ofl-data.ts:221-305 | Over all runs of touch, evict, pump and land: at most four requests in flight, one per key, distinct cached keys, and the chunk a request found is exactly the one still cached. |
| ChunkTheory.NotModifiedRefreshesCached | web/src/ofl-data.ts:249-254 | In every reachable state a 304 changes nothing but the fetch time of the one chunk still cached, in its place. |
| ChunkTheory.LandingMeans | web/src/ofl-data.ts:249-304 | What every landing leaves behind: a delivery is cached as it came under a new version and its failures are gone; a 304 keeps the cached chunk and renews its time, or counts a failure with nothing cached; a failure keeps the cache and adds one to that key; other keys are untouched and the slot is free. |
| ChunkTheory.PumpFillsSlots | web/src/ofl-data.ts:488-509 | The pump starts only keys of the window that are missing or expired, free and not waiting for a retry, the earlier ones first; it leaves none of those waiting while a slot is free when a path can be made, and starts nothing when it cannot. |
| ChunkTheory.PumpOnlyStarts | web/src/ofl-data.ts:227-247 | The pump changes no chunk, no failure count and no version, and every request remembers what is cached. |
| ChunkCache.OrderflowCache.TouchChunk | web/src/ofl-data.ts:90-97 | Returns the held chunk, moves it last and changes nothing else; the cache invariant is kept. |
| ChunkCache.OrderflowCache.EvictOver | web/src/ofl-data.ts:99-111 | Nothing at or under the cap; otherwise the oldest chunks neither needed nor in flight go; the invariant is kept. |
| ChunkCache.OrderflowCache.StartFetch | web/src/ofl-data.ts:227-247 | A key in flight or without a usable path starts nothing; otherwise the key is put in flight, its chunk touched and remembered for the landing. |
| ChunkCache.OrderflowCache.FinishFetch | web/src/ofl-data.ts:249-304 | A delivery stores a new version, a 304 refreshes the remembered chunk, anything else counts a failure; the slot is freed in every case and the invariant kept. |
| ChunkCache.OrderflowCache.PumpWindow | web/src/ofl-data.ts:488-509 | The pump loop over the window's keys ends in the state `AfterPump` names, with the invariant kept. |
| ChunkWindow.ChunkStarts | web/src/ofl-data.ts:308-320 | The chunk starts, aligned and consecutive, up to the window's end. |
| ChunkWindow.ChunksTile | web/src/ofl-data.ts:308-320 | Every second of the window lies in exactly one chunk. |

## Left out

- WindowJudge.JudgeWindow: requires what the day's tile files guarantee (rows ascending in [0, KEY_BASE), mid
  prices not negative), a window inside the day, and that the rows of the window's own band are empty or inside
  the key range; on any other rows the array form is inexact for some day, as
  `BandQuery.ExactExactlyInsideKeyRange` shows.
- BandQuery.QueryIsBandTotal: int64 overflow of the composite key and the prefix sums is not modelled.
- Strength.VerdictFollowsWeakest: Python decimals are exact reals; their 28-digit context is not modelled.
- Pacing.GrantsAreSpaced: float rounding of clock readings is not modelled; times are exact reals.
- Pacing.CommandPacer.WaitTurn: how late a sleep ends is an input; a sleep is never cut short.
- SessionProfile.ValueAreaIsGreedy: JavaScript numbers are exact reals.
- Ranges.ColumnAtEpoch: columns must be sorted by epoch, as the reconciliation delivers them.
- SessionProfile.RankRatio: samples must be sorted, as the source's comment demands.
- ChunkTheory.PumpFillsSlots: expiry and retry clocks are inputs (which keys are expired, which must still wait).
- DayGrid.BuildGrid: reading tile files from disk, scaling texts to whole units and the error for a wrong column
  count are left out.
- OrderflowReplay.ReplayOrderflowColumnsV2: the mid price and the bands of a row (`bandValues`, floating-point
  display values) are not modelled, and the taker total of a cell is an input text.
- `wire_session_sql`: string assembly.
- The consumers of the bitbank actions: modelled as a map cleared on a session change, replaced on reset and
  merged on apply, where a zero size or an explicit deletion removes a level.
- Malformed cells, JSON and gzip decoding, timestamp parsing: inputs are already decoded records.
- Labels, metrics and texts of the judgements; the legacy mode of the sweep script; `cluster_episodes`.
- Alert rules and the comparison of columns against stored tiles in `verify_alert_features.py`.
- The v1 tile cache (`evictOver`, `fetchChunk`): the same steps without conditional refetching.
- `notionalText`, `priceDiffText` and the other text helpers built from the same parts; the display switches.
- `reconnect_delay_seconds`: a capped power of two.
- React components, painting, colour ramps and polling timers.
