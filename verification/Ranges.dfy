/**
 Coverage of a time window: the general interval subtraction (`uncoveredRanges`), the
 one-pass loop over sorted columns (`missingRanges`) and the lookup of the column at an
 instant (`columnAtEpoch`). Times are exact reals.
 */
module Ranges {
  import opened Numbers
  import opened Options
  import opened Sorting

  datatype Range = Range(low: real, high: real)

  predicate Holds(r: Range, x: real) { r.low <= x < r.high }

  ghost predicate Within(ranges: seq<Range>, x: real) {
    exists i :: 0 <= i < |ranges| && Holds(ranges[i], x)
  }

  function Low(r: Range): real { r.low }

  function Clip(r: Range, from: real, till: real): Range { Range(Max(from, r.low), Min(till, r.high)) }

  /** The coverage clipped to the window, without what falls outside it. */
  function Clipped(coverage: seq<Range>, from: real, till: real): seq<Range> {
    if coverage == [] then []
    else
      var first := Clip(coverage[0], from, till);
      if first.low < first.high then [first] + Clipped(coverage[1..], from, till)
      else Clipped(coverage[1..], from, till)
  }

  /** The pass over ordered ranges: what lies between the cursor and the next range is uncovered. */
  function Sweep(cursor: real, ordered: seq<Range>, till: real): seq<Range>
    decreases |ordered|
  {
    if ordered == [] then if cursor < till then [Range(cursor, till)] else []
    else
      var gap := if ordered[0].low > cursor then [Range(cursor, ordered[0].low)] else [];
      var next := Max(cursor, ordered[0].high);
      if next >= till then gap else gap + Sweep(next, ordered[1..], till)
  }

  function Uncovered(from: real, till: real, coverage: seq<Range>): seq<Range> {
    if from >= till then [] else Sweep(from, StableSort(Clipped(coverage, from, till), Low), till)
  }

  method UncoveredRanges(from: real, till: real, coverage: seq<Range>) returns (out: seq<Range>)
    ensures out == Uncovered(from, till, coverage)
  {
    hide Clipped, StableSort, Sweep, Uncovered;
    SweepStarts(from, till, coverage);
    if from >= till {
      return [];
    }
    var ordered := StableSort(Clipped(coverage, from, till), Low);
    out := [];
    var cursor := from;
    var k := 0;
    while k < |ordered|
      invariant 0 <= k <= |ordered| && cursor < till
      invariant out + Sweep(cursor, ordered[k..], till) == Uncovered(from, till, coverage)
    {
      SweepStep(out, cursor, ordered, k, till);
      if ordered[k].low > cursor {
        out := out + [Range(cursor, ordered[k].low)];
      }
      cursor := Max(cursor, ordered[k].high);
      if cursor >= till {
        break;
      }
      k := k + 1;
    }
    if cursor < till {
      SweepEnds(cursor, ordered[k..], till);
      out := out + [Range(cursor, till)];
    }
  }

  lemma SweepStarts(from: real, till: real, coverage: seq<Range>)
    ensures from >= till ==> Uncovered(from, till, coverage) == []
    ensures var ordered := StableSort(Clipped(coverage, from, till), Low);
      from < till ==> Uncovered(from, till, coverage) == [] + Sweep(from, ordered[0..], till)
  {
    var ordered := StableSort(Clipped(coverage, from, till), Low);
    assert ordered[0..] == ordered;
    assert [] + Sweep(from, ordered, till) == Sweep(from, ordered, till);
  }

  /** One turn of the pass: what is pushed and what is still to come. */
  lemma SweepStep(out: seq<Range>, cursor: real, ordered: seq<Range>, k: nat, till: real)
    requires k < |ordered|
    ensures var pushed := if ordered[k].low > cursor then out + [Range(cursor, ordered[k].low)] else out;
      var next := Max(cursor, ordered[k].high);
      out + Sweep(cursor, ordered[k..], till)
        == if next >= till then pushed else pushed + Sweep(next, ordered[k + 1..], till)
  {
    assert ordered[k..][0] == ordered[k] && ordered[k..][1..] == ordered[k + 1..];
  }

  lemma SweepEnds(cursor: real, none: seq<Range>, till: real)
    requires none == []
    ensures Sweep(cursor, none, till) == if cursor < till then [Range(cursor, till)] else []
  {
  }

  // ----- What the uncovered ranges are

  /** Non-empty ranges inside the window, in order and apart. */
  ghost predicate Separated(ranges: seq<Range>, from: real, till: real) {
    && (forall i :: 0 <= i < |ranges| ==> from <= ranges[i].low < ranges[i].high <= till)
    && (forall i, j :: 0 <= i < j < |ranges| ==> ranges[i].high < ranges[j].low)
  }

  ghost predicate Proper(ranges: seq<Range>, from: real, till: real) {
    forall i :: 0 <= i < |ranges| ==> from <= ranges[i].low < ranges[i].high <= till
  }

  lemma WithinCons(first: seq<Range>, rest: seq<Range>, x: real)
    ensures Within(first + rest, x) <==> Within(first, x) || Within(rest, x)
  {
    if Within(first, x) {
      var i :| 0 <= i < |first| && Holds(first[i], x);
      assert Holds((first + rest)[i], x);
    }
    if Within(rest, x) {
      var i :| 0 <= i < |rest| && Holds(rest[i], x);
      assert Holds((first + rest)[|first| + i], x);
    }
  }

  lemma {:induction false} SweepMeaning(cursor: real, ordered: seq<Range>, till: real, x: real)
    requires cursor < till && SortedBy(ordered, Low)
    requires forall i :: 0 <= i < |ordered| ==> ordered[i].low < ordered[i].high <= till
    ensures Within(Sweep(cursor, ordered, till), x) <==> cursor <= x < till && !Within(ordered, x)
    decreases |ordered|
  {
    if ordered == [] {
      assert Holds(Range(cursor, till), x) <==> cursor <= x < till;
      assert Sweep(cursor, ordered, till)[0] == Range(cursor, till);
    } else {
      var first, rest := ordered[0], ordered[1..];
      var gap := if first.low > cursor then [Range(cursor, first.low)] else [];
      var next := Max(cursor, first.high);
      assert ordered == [first] + rest;
      WithinCons([first], rest, x);
      OneRange(first, x);
      OneRange(Range(cursor, first.low), x);
      assert !Within([], x);
      assert x < first.low ==> !Within(rest, x) by { BeforeAll(ordered, x); }
      if next < till {
        SweepMeaning(next, rest, till, x);
        WithinCons(gap, Sweep(next, rest, till), x);
      }
    }
  }

  lemma OneRange(r: Range, x: real)
    ensures Within([r], x) <==> Holds(r, x)
  {
    assert [r][0] == r;
  }

  lemma BeforeAll(ordered: seq<Range>, x: real)
    requires ordered != [] && SortedBy(ordered, Low)
    ensures x < ordered[0].low ==> !Within(ordered[1..], x)
  {
    forall i | 0 <= i < |ordered[1..]| ensures ordered[1..][i].low >= ordered[0].low {
      assert Low(ordered[0]) <= Low(ordered[i + 1]);
    }
  }

  lemma {:induction false} SweepIsSeparated(cursor: real, ordered: seq<Range>, till: real)
    requires cursor < till && SortedBy(ordered, Low)
    requires forall i :: 0 <= i < |ordered| ==> ordered[i].low < ordered[i].high <= till
    ensures Separated(Sweep(cursor, ordered, till), cursor, till)
    decreases |ordered|
  {
    if ordered != [] {
      hide Separated;
      var first, rest := ordered[0], ordered[1..];
      var next := Max(cursor, first.high);
      NothingIsSeparated(cursor, till);
      if next < till {
        SweepIsSeparated(next, rest, till);
        SeparatedCons(cursor, first.low, next, Sweep(next, rest, till), till);
      } else {
        SeparatedCons(cursor, first.low, till, [], till);
      }
    }
  }

  lemma NothingIsSeparated(from: real, till: real)
    ensures Separated([], from, till)
  {
  }

  /** What lies between the cursor and the next range, followed by ranges further on. */
  lemma SeparatedCons(cursor: real, low: real, next: real, rest: seq<Range>, till: real)
    requires low < next && cursor <= next <= till && (rest == [] || Separated(rest, next, till))
    ensures Separated(if low > cursor then [Range(cursor, low)] + rest else rest, cursor, till)
    ensures [] + rest == rest
  {
    if low > cursor {
      var r := [Range(cursor, low)] + rest;
      assert forall i :: 0 < i < |r| ==> r[i] == rest[i - 1];
    }
  }

  lemma {:induction false} ClippedIsProper(coverage: seq<Range>, from: real, till: real)
    ensures Proper(Clipped(coverage, from, till), from, till)
  {
    if coverage != [] {
      ClippedIsProper(coverage[1..], from, till);
    }
  }

  lemma {:induction false} ClippingKeepsPoints(coverage: seq<Range>, from: real, till: real, x: real)
    requires from <= x < till
    ensures Within(Clipped(coverage, from, till), x) <==> Within(coverage, x)
  {
    if coverage != [] {
      var first, rest := coverage[0], coverage[1..];
      ClippingKeepsPoints(rest, from, till, x);
      assert coverage == [first] + rest;
      WithinCons([first], rest, x);
      OneRange(first, x);
      WithinCons([Clip(first, from, till)], Clipped(rest, from, till), x);
      OneRange(Clip(first, from, till), x);
    }
  }

  lemma PermutedPoints(a: seq<Range>, b: seq<Range>, x: real)
    requires multiset(a) == multiset(b)
    ensures Within(a, x) ==> Within(b, x)
  {
    if Within(a, x) {
      var i :| 0 <= i < |a| && Holds(a[i], x);
      assert a[i] in multiset(b);
      var j :| 0 <= j < |b| && b[j] == a[i];
      assert Holds(b[j], x);
    }
  }

  lemma OrderedProper(coverage: seq<Range>, from: real, till: real)
    ensures var ordered := StableSort(Clipped(coverage, from, till), Low);
      SortedBy(ordered, Low) && Proper(ordered, from, till)
  {
    var clipped := Clipped(coverage, from, till);
    var ordered := StableSort(clipped, Low);
    ClippedIsProper(coverage, from, till);
    StableSortSorted(clipped, Low);
    forall i | 0 <= i < |ordered| ensures from <= ordered[i].low < ordered[i].high <= till {
      assert ordered[i] in multiset(clipped);
    }
  }

  /**
   Interval subtraction. For coverage in any order and with any overlap, the result is a list of
   non-empty, ordered, disjoint ranges of the window, and an instant of the window is in it
   exactly when no covered range holds it.
   */
  lemma UncoveredIsTheComplement(from: real, till: real, coverage: seq<Range>, x: real)
    ensures Separated(Uncovered(from, till, coverage), from, till)
    ensures Within(Uncovered(from, till, coverage), x) <==> from <= x < till && !Within(coverage, x)
  {
    if from < till {
      hide Clipped, Sweep, StableSort, Within;
      var clipped := Clipped(coverage, from, till);
      var ordered := StableSort(clipped, Low);
      OrderedProper(coverage, from, till);
      SweepIsSeparated(from, ordered, till);
      SweepMeaning(from, ordered, till, x);
      PermutedPoints(clipped, ordered, x);
      PermutedPoints(ordered, clipped, x);
      if from <= x < till {
        ClippingKeepsPoints(coverage, from, till, x);
      }
    } else {
      NowhereWithin(x);
    }
  }

  lemma NowhereWithin(x: real)
    ensures !Within([], x)
  {
  }

  // ----- The loop over sorted columns

  /** What the columns, each `bucket` long, leave uncovered from the cursor on. */
  function Missing(epochs: seq<real>, cursor: real, till: real, bucket: real): seq<Range> {
    if epochs == [] || epochs[0] >= till then if cursor < till then [Range(cursor, till)] else []
    else
      var gap := if epochs[0] > cursor then [Range(cursor, epochs[0])] else [];
      gap + Missing(epochs[1..], Max(cursor, epochs[0] + bucket), till, bucket)
  }

  lemma MissingStep(out: seq<Range>, epochs: seq<real>, k: nat, cursor: real, till: real, bucket: real)
    requires k < |epochs|
    ensures var pushed := if epochs[k] > cursor then out + [Range(cursor, epochs[k])] else out;
      out + Missing(epochs[k..], cursor, till, bucket)
        == if epochs[k] >= till then out + Missing([], cursor, till, bucket)
           else pushed + Missing(epochs[k + 1..], Max(cursor, epochs[k] + bucket), till, bucket)
  {
    assert epochs[k..][0] == epochs[k] && epochs[k..][1..] == epochs[k + 1..];
  }

  lemma MissingEnds(cursor: real, till: real, bucket: real)
    ensures Missing([], cursor, till, bucket) == if cursor < till then [Range(cursor, till)] else []
  {
  }

  method MissingRanges(epochs: seq<real>, from: real, till: real, bucket: real) returns (out: seq<Range>)
    ensures out == Missing(epochs, from, till, bucket)
  {
    hide Missing;
    out := [];
    var cursor := from;
    var k := 0;
    assert epochs[0..] == epochs;
    while k < |epochs|
      invariant 0 <= k <= |epochs|
      invariant out + Missing(epochs[k..], cursor, till, bucket) == Missing(epochs, from, till, bucket)
    {
      MissingStep(out, epochs, k, cursor, till, bucket);
      if epochs[k] >= till {
        break;
      }
      if epochs[k] > cursor {
        out := out + [Range(cursor, epochs[k])];
      }
      cursor := Max(cursor, epochs[k] + bucket);
      k := k + 1;
    }
    assert out + Missing([], cursor, till, bucket) == Missing(epochs, from, till, bucket) by {
      assert k == |epochs| ==> epochs[k..] == [];
    }
    MissingEnds(cursor, till, bucket);
    if cursor < till {
      out := out + [Range(cursor, till)];
    }
  }

  ghost predicate EpochsSorted(epochs: seq<real>) {
    forall i, j :: 0 <= i < j < |epochs| ==> epochs[i] <= epochs[j]
  }

  /** The spans the columns cover. */
  function Spans(epochs: seq<real>, bucket: real): seq<Range> {
    if epochs == [] then [] else [Range(epochs[0], epochs[0] + bucket)] + Spans(epochs[1..], bucket)
  }

  lemma {:induction false} NothingMissingPastEnd(epochs: seq<real>, cursor: real, till: real, bucket: real)
    requires cursor >= till
    ensures Missing(epochs, cursor, till, bucket) == []
  {
    if epochs != [] && epochs[0] < till {
      NothingMissingPastEnd(epochs[1..], Max(cursor, epochs[0] + bucket), till, bucket);
    }
  }

  lemma {:induction false} NothingClippedPastEnd(epochs: seq<real>, from: real, till: real, bucket: real)
    requires EpochsSorted(epochs) && (epochs != [] ==> epochs[0] >= till)
    ensures Clipped(Spans(epochs, bucket), from, till) == []
  {
    if epochs != [] {
      assert epochs[1..] != [] ==> epochs[0] <= epochs[1];
      NothingClippedPastEnd(epochs[1..], from, till, bucket);
      assert Spans(epochs, bucket)[1..] == Spans(epochs[1..], bucket);
    }
  }

  lemma {:induction false} LoopIsSweep(epochs: seq<real>, cursor: real, from: real, till: real, bucket: real)
    requires EpochsSorted(epochs) && bucket > 0.0 && from <= cursor < till
    ensures Missing(epochs, cursor, till, bucket) == Sweep(cursor, Clipped(Spans(epochs, bucket), from, till), till)
  {
    hide Missing, Sweep, Clipped, Spans;
    if epochs == [] || epochs[0] >= till {
      NothingClippedPastEnd(epochs, from, till, bucket);
      LoopEnds(epochs, cursor, till, bucket);
      SweepEnds(cursor, [], till);
    } else {
      var rest, next := epochs[1..], Max(cursor, epochs[0] + bucket);
      LoopTurns(epochs, cursor, till, bucket);
      SweepTurns(epochs, cursor, from, till, bucket);
      if next >= till {
        NothingMissingPastEnd(rest, next, till, bucket);
      } else {
        LoopIsSweep(rest, next, from, till, bucket);
      }
    }
  }

  lemma LoopEnds(epochs: seq<real>, cursor: real, till: real, bucket: real)
    requires cursor < till && (epochs == [] || epochs[0] >= till)
    ensures Missing(epochs, cursor, till, bucket) == [Range(cursor, till)]
  {
  }

  lemma LoopTurns(epochs: seq<real>, cursor: real, till: real, bucket: real)
    requires epochs != [] && epochs[0] < till
    ensures Missing(epochs, cursor, till, bucket)
         == (if epochs[0] > cursor then [Range(cursor, epochs[0])] else [])
            + Missing(epochs[1..], Max(cursor, epochs[0] + bucket), till, bucket)
  {
  }

  /** The general pass over the clipped spans takes the same turn, also when the first span is clipped away. */
  lemma SweepTurns(epochs: seq<real>, cursor: real, from: real, till: real, bucket: real)
    requires epochs != [] && epochs[0] < till && bucket > 0.0 && from <= cursor < till
    ensures var next := Max(cursor, epochs[0] + bucket);
      Sweep(cursor, Clipped(Spans(epochs, bucket), from, till), till)
        == (if epochs[0] > cursor then [Range(cursor, epochs[0])] else [])
           + if next >= till then [] else Sweep(next, Clipped(Spans(epochs[1..], bucket), from, till), till)
  {
    var rest, first := epochs[1..], Range(epochs[0], epochs[0] + bucket);
    assert Spans(epochs, bucket) == [first] + Spans(rest, bucket);
    ClippedCons(first, Spans(rest, bucket), from, till);
    hide Sweep, Clipped, Spans;
    var span, clipped := Clip(first, from, till), Clipped(Spans(rest, bucket), from, till);
    if span.low < span.high {
      SweepTakes(cursor, span, clipped, till);
    } else {
      assert epochs[0] <= cursor && Max(cursor, epochs[0] + bucket) == cursor;
      assert [] + Sweep(cursor, clipped, till) == Sweep(cursor, clipped, till);
    }
  }

  lemma ClippedCons(first: Range, rest: seq<Range>, from: real, till: real)
    ensures var span := Clip(first, from, till);
      Clipped([first] + rest, from, till)
        == (if span.low < span.high then [span] else []) + Clipped(rest, from, till)
  {
    assert ([first] + rest)[1..] == rest;
    assert [] + Clipped(rest, from, till) == Clipped(rest, from, till);
  }

  lemma SweepTakes(cursor: real, first: Range, rest: seq<Range>, till: real)
    ensures var gap := if first.low > cursor then [Range(cursor, first.low)] else [];
      Sweep(cursor, [first] + rest, till)
        == gap + if Max(cursor, first.high) >= till then [] else Sweep(Max(cursor, first.high), rest, till)
  {
    assert ([first] + rest)[1..] == rest;
  }

  lemma {:induction false} ClippedSpansSorted(epochs: seq<real>, from: real, till: real, bucket: real)
    requires EpochsSorted(epochs)
    ensures SortedBy(Clipped(Spans(epochs, bucket), from, till), Low)
    ensures forall i :: 0 <= i < |Clipped(Spans(epochs, bucket), from, till)| ==>
      epochs != [] && Clipped(Spans(epochs, bucket), from, till)[i].low >= Max(from, epochs[0])
  {
    if epochs != [] {
      var rest := epochs[1..];
      ClippedSpansSorted(rest, from, till, bucket);
      assert Spans(epochs, bucket)[1..] == Spans(rest, bucket);
      assert rest != [] ==> epochs[0] <= rest[0];
    }
  }

  /** On sorted columns the one-pass loop and the general subtraction return the same list. */
  lemma LoopEqualsSubtraction(epochs: seq<real>, from: real, till: real, bucket: real)
    requires EpochsSorted(epochs) && bucket > 0.0
    ensures Missing(epochs, from, till, bucket) == Uncovered(from, till, Spans(epochs, bucket))
  {
    if from >= till {
      NothingMissingPastEnd(epochs, from, till, bucket);
    } else {
      ClippedSpansSorted(epochs, from, till, bucket);
      SortedIsFixed(Clipped(Spans(epochs, bucket), from, till), Low);
      LoopIsSweep(epochs, from, from, till, bucket);
    }
  }

  // ----- The column at an instant

  ghost predicate Covers(epochs: seq<real>, k: nat, x: real, bucket: real) {
    k < |epochs| && epochs[k] <= x < epochs[k] + bucket
  }

  /** The last column that starts at or before the instant, if it reaches it. */
  method ColumnAtEpoch(epochs: seq<real>, x: real, bucket: real) returns (found: Option<nat>)
    requires EpochsSorted(epochs)
    ensures found.Some? ==> Covers(epochs, found.value, x, bucket)
    ensures found.Some? ==> forall k :: found.value < k < |epochs| ==> epochs[k] > x
    ensures found.None? ==> forall k :: 0 <= k < |epochs| ==> !Covers(epochs, k, x, bucket)
  {
    var low, high := 0, |epochs|;
    while low < high
      invariant 0 <= low <= high <= |epochs|
      invariant forall k :: 0 <= k < low ==> epochs[k] <= x
      invariant forall k :: high <= k < |epochs| ==> epochs[k] > x
    {
      var middle := (low + high) / 2;
      if epochs[middle] <= x {
        low := middle + 1;
      } else {
        high := middle;
      }
    }
    if low == 0 {
      return None;
    }
    assert forall k :: 0 <= k < low ==> epochs[k] <= epochs[low - 1];
    if x < epochs[low - 1] + bucket {
      return Some(low - 1);
    }
    return None;
  }

  lemma {:induction false} SpansHold(epochs: seq<real>, x: real, bucket: real)
    ensures Within(Spans(epochs, bucket), x) <==> exists k: nat :: Covers(epochs, k, x, bucket)
  {
    if epochs != [] {
      var first, rest := Range(epochs[0], epochs[0] + bucket), epochs[1..];
      SpansHold(rest, x, bucket);
      WithinCons([first], Spans(rest, bucket), x);
      OneRange(first, x);
      if Covers(epochs, 0, x, bucket) {
        assert Holds(first, x);
      }
      if k: nat :| Covers(rest, k, x, bucket) {
        assert Covers(epochs, k + 1, x, bucket);
      }
      if k: nat :| Covers(epochs, k, x, bucket) {
        assert k > 0 ==> Covers(rest, k - 1, x, bucket);
      }
    }
  }

  /** A column is found at an instant of the window exactly when the instant is not missing. */
  lemma FoundUnlessMissing(epochs: seq<real>, from: real, till: real, x: real, bucket: real)
    requires EpochsSorted(epochs) && bucket > 0.0 && from <= x < till
    ensures (exists k: nat :: Covers(epochs, k, x, bucket)) <==> !Within(Missing(epochs, from, till, bucket), x)
  {
    LoopEqualsSubtraction(epochs, from, till, bucket);
    UncoveredIsTheComplement(from, till, Spans(epochs, bucket), x);
    SpansHold(epochs, x, bucket);
  }
}
