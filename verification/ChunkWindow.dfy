/** The chunks of a window (`chunkStarts` in `ofl-data.ts`). */
module ChunkWindow {

  const CHUNK_COLUMNS := 512

  function Start(from: int, span: int): int
    requires span > 0
  {
    from / span * span
  }

  /** Chunk starts from the one that holds the window's first second. */
  method ChunkStarts(from: int, till: int, bucketSeconds: int) returns (starts: seq<int>)
    requires bucketSeconds > 0
    ensures var span := bucketSeconds * CHUNK_COLUMNS;
      && (forall k :: 0 <= k < |starts| ==> starts[k] == Start(from, span) + k * span < till)
      && Start(from, span) + |starts| * span >= till
  {
    var span := bucketSeconds * CHUNK_COLUMNS;
    starts := [];
    var at := from / span * span;
    while at < till
      invariant at == Start(from, span) + |starts| * span
      invariant forall k :: 0 <= k < |starts| ==> starts[k] == Start(from, span) + k * span < till
      decreases till - at
    {
      starts := starts + [at];
      at := at + span;
    }
  }

  predicate Holds(starts: seq<int>, k: int, span: int, second: int) {
    0 <= k < |starts| && starts[k] <= second < starts[k] + span
  }

  /** The chunks tile the window: each of its seconds lies in exactly one of them. */
  lemma ChunksTile(from: int, till: int, span: int, starts: seq<int>, second: int)
    requires span > 0 && from <= second < till
    requires forall k :: 0 <= k < |starts| ==> starts[k] == Start(from, span) + k * span
    requires Start(from, span) + |starts| * span >= till
    ensures Start(from, span) <= from && Start(from, span) % span == 0
    ensures exists k :: Holds(starts, k, span, second)
    ensures forall i, j :: Holds(starts, i, span, second) && Holds(starts, j, span, second) ==> i == j
  {
    var first := Start(from, span);
    Aligned(from, span);
    hide Start;
    var k := (second - first) / span;
    Quotient(second - first, span);
    InWindow(k, |starts|, span, second - first);
    assert Holds(starts, k, span, second);
    forall i, j | Holds(starts, i, span, second) && Holds(starts, j, span, second) ensures i == j {
      OneQuotient(i, j, span, second - first);
    }
  }

  lemma Aligned(from: int, span: int)
    requires span > 0
    ensures Start(from, span) <= from < Start(from, span) + span && Start(from, span) % span == 0
  {
    Quotient(from, span);
    Quotient(from / span * span, span);
    OneQuotient(from / span * span / span, from / span, span, from / span * span);
  }

  lemma Quotient(x: int, span: int)
    requires span > 0
    ensures x == x / span * span + x % span && 0 <= x % span < span
    ensures x >= 0 ==> x / span >= 0
  {
  }

  lemma StepBelow(i: int, k: int, span: int)
    requires span > 0 && i < k
    ensures i * span + span <= k * span
  {
    var gap := k - i - 1;
    assert gap * span >= 0;
    assert k * span == i * span + span + gap * span;
  }

  lemma OneQuotient(i: int, k: int, span: int, x: int)
    requires span > 0 && i * span <= x < i * span + span && k * span <= x < k * span + span
    ensures i == k
  {
    if i < k {
      StepBelow(i, k, span);
    } else if k < i {
      StepBelow(k, i, span);
    }
  }

  lemma InWindow(k: int, n: int, span: int, x: int)
    requires span > 0 && k * span <= x < n * span
    ensures k < n
  {
    if n < k {
      StepBelow(n, k, span);
    }
  }
}
