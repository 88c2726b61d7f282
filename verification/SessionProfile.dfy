/**
 Session profiles of a footprint chart: the point of control and value area of merged price
 levels, the split of bars into trading sessions, the cumulative delta within a session, and
 the rank of a value in sorted samples. Numbers are exact reals.
 */
module SessionProfile {
  import opened Numbers
  import opened Options
  import opened Sorting
  import opened OrderedMap

  const VALUE_AREA_RATIO := 0.7
  const SESSION_SHIFT_SECONDS := 10800
  const DAY_SECONDS := 86400

  // ----- Rank in sorted samples

  ghost predicate Rising(s: seq<real>) {
    forall i, j :: 0 <= i < j < |s| ==> s[i] <= s[j]
  }

  lemma {:induction false} CountOfSplit(s: seq<real>, value: real, k: nat)
    requires k <= |s|
    requires forall i :: 0 <= i < k ==> s[i] <= value
    requires forall i :: k <= i < |s| ==> s[i] > value
    ensures CountAtMost(s, value) == k
  {
    if s != [] {
      CountOfSplit(s[..|s| - 1], value, if k < |s| then k else k - 1);
    }
  }

  /** The share of samples not above the value, by binary search. */
  method RankRatio(sorted: seq<real>, value: real) returns (ratio: real)
    requires Rising(sorted)
    ensures ratio == if sorted == [] then 0.0 else CountAtMost(sorted, value) as real / |sorted| as real
  {
    var low, high := 0, |sorted|;
    while low < high
      invariant 0 <= low <= high <= |sorted|
      invariant forall i :: 0 <= i < low ==> sorted[i] <= value
      invariant forall i :: high <= i < |sorted| ==> sorted[i] > value
    {
      var middle := (low + high) / 2;
      if sorted[middle] <= value {
        low := middle + 1;
      } else {
        high := middle;
      }
    }
    CountOfSplit(sorted, value, low);
    ratio := if sorted == [] then 0.0 else low as real / |sorted| as real;
  }

  // ----- Value area

  /** Volume by price, in the order the prices were first traded. */
  type Totals = Entries<real, real>

  function Price(level: (real, real)): real { level.0 }

  function Volume(levels: seq<(real, real)>): real {
    if levels == [] then 0.0 else Volume(levels[..|levels| - 1]) + levels[|levels| - 1].1
  }

  /** The leftmost of the largest levels among the first `n`. */
  function PocAt(levels: seq<(real, real)>, n: nat): (at: nat)
    requires 0 < n <= |levels|
    ensures at < n
  {
    if n == 1 then 0
    else
      var before := PocAt(levels, n - 1);
      if levels[n - 1].1 > levels[before].1 then n - 1 else before
  }

  /** Volume of the levels `low..high`, both included. */
  function Block(levels: seq<(real, real)>, low: nat, high: nat): real
    requires low <= high < |levels|
  {
    Volume(levels[low..high + 1])
  }

  /** The greedy growth: towards the larger neighbour, upwards on a tie, until the target is met. */
  function Grow(levels: seq<(real, real)>, target: real, low: nat, high: nat): (r: (nat, nat))
    requires low <= high < |levels|
    ensures r.0 <= low && high <= r.1 < |levels|
    decreases |levels| - (high - low)
  {
    if Block(levels, low, high) >= target then (low, high)
    else if low == 0 && high + 1 == |levels| then (low, high)
    else if low == 0 || (high + 1 < |levels| && levels[high + 1].1 >= levels[low - 1].1)
    then Grow(levels, target, low, high + 1)
    else Grow(levels, target, low - 1, high)
  }

  datatype Profile = NoProfile | Profile(poc: real, vah: real, val: real)

  function ProfileOf(totals: Totals): Profile {
    var levels := StableSort(totals, Price);
    if levels == [] then NoProfile
    else
      var poc := PocAt(levels, |levels|);
      var area := Grow(levels, Volume(levels) * VALUE_AREA_RATIO, poc, poc);
      Profile(levels[poc].0, levels[area.1].0, levels[area.0].0)
  }

  lemma BlockGrowsUp(levels: seq<(real, real)>, low: nat, high: nat)
    requires low <= high && high + 1 < |levels|
    ensures Block(levels, low, high + 1) == Block(levels, low, high) + levels[high + 1].1
  {
    assert levels[low..high + 2][..high + 1 - low] == levels[low..high + 1];
  }

  lemma {:induction false} VolumeCons(first: (real, real), rest: seq<(real, real)>)
    ensures Volume([first] + rest) == first.1 + Volume(rest)
  {
    if rest == [] {
      assert [first] + rest == [first];
      assert [first][..0] == [];
    } else {
      assert ([first] + rest)[..|rest|] == [first] + rest[..|rest| - 1];
      VolumeCons(first, rest[..|rest| - 1]);
    }
  }

  lemma BlockGrowsDown(levels: seq<(real, real)>, low: nat, high: nat)
    requires 0 < low <= high < |levels|
    ensures Block(levels, low - 1, high) == Block(levels, low, high) + levels[low - 1].1
  {
    assert levels[low - 1..high + 1] == [levels[low - 1]] + levels[low..high + 1];
    VolumeCons(levels[low - 1], levels[low..high + 1]);
  }

  lemma BlockOfOne(levels: seq<(real, real)>, at: nat)
    requires at < |levels|
    ensures Block(levels, at, at) == levels[at].1
  {
    assert levels[at..at + 1] == [levels[at]];
    VolumeCons(levels[at], []);
    assert [levels[at]] + [] == [levels[at]];
  }

  method BuildProfile(totals: Totals) returns (profile: Profile)
    ensures profile == ProfileOf(totals)
  {
    hide StableSort;
    var levels := StableSort(totals, Price);
    if levels == [] {
      return NoProfile;
    }
    var pocAt, total := 0, 0.0;
    for at := 0 to |levels|
      invariant total == Volume(levels[..at])
      invariant at > 0 ==> pocAt == PocAt(levels, at)
      invariant at == 0 ==> pocAt == 0
    {
      assert levels[..at + 1][..at] == levels[..at];
      total := total + levels[at].1;
      if levels[at].1 > levels[pocAt].1 {
        pocAt := at;
      }
    }
    assert levels[..|levels|] == levels;
    var target := total * VALUE_AREA_RATIO;
    var covered, lowAt, highAt := levels[pocAt].1, pocAt, pocAt;
    BlockOfOne(levels, pocAt);
    lowAt, highAt := GrowArea(levels, target, pocAt, covered);
    profile := Profile(levels[pocAt].0, levels[highAt].0, levels[lowAt].0);
  }

  /** The two-ended loop. */
  method GrowArea(levels: seq<(real, real)>, target: real, pocAt: nat, start: real) returns (lowAt: nat, highAt: nat)
    requires pocAt < |levels| && start == Block(levels, pocAt, pocAt)
    ensures (lowAt, highAt) == Grow(levels, target, pocAt, pocAt)
  {
    hide Block;
    var covered := start;
    lowAt, highAt := pocAt, pocAt;
    while covered < target
      invariant lowAt <= highAt < |levels| && covered == Block(levels, lowAt, highAt)
      invariant Grow(levels, target, lowAt, highAt) == Grow(levels, target, pocAt, pocAt)
      decreases |levels| - (highAt - lowAt)
    {
      var below := if lowAt > 0 then Some(levels[lowAt - 1].1) else None;
      var above := if highAt + 1 < |levels| then Some(levels[highAt + 1].1) else None;
      if below == None && above == None {
        break;
      }
      if below == None || (above.Some? && above.value >= below.value) {
        BlockGrowsUp(levels, lowAt, highAt);
        highAt := highAt + 1;
        covered := covered + levels[highAt].1;
      } else {
        BlockGrowsDown(levels, lowAt, highAt);
        lowAt := lowAt - 1;
        covered := covered + levels[lowAt].1;
      }
    }
  }

  ghost predicate NonNegative(levels: seq<(real, real)>) {
    forall i :: 0 <= i < |levels| ==> levels[i].1 >= 0.0
  }

  /** One level more above: the one that is left, or at least as large as the one below. */
  ghost predicate TakesUpper(levels: seq<(real, real)>, b: (nat, nat), c: (nat, nat)) {
    && b.0 <= b.1 && b.1 + 1 < |levels| && c == (b.0, b.1 + 1)
    && (b.0 == 0 || levels[b.0 - 1].1 <= levels[b.1 + 1].1)
  }

  /** One level more below: the one that is left, or larger than the one above. */
  ghost predicate TakesLower(levels: seq<(real, real)>, b: (nat, nat), c: (nat, nat)) {
    && 0 < b.0 <= b.1 < |levels| && c == (b.0 - 1, b.1)
    && (b.1 + 1 == |levels| || levels[b.1 + 1].1 < levels[b.0 - 1].1)
  }

  ghost predicate Short(levels: seq<(real, real)>, target: real, b: (nat, nat)) {
    b.0 <= b.1 < |levels| && Block(levels, b.0, b.1) < target
  }

  /** Nothing more is taken: the target is met or every level is in. */
  ghost predicate Finished(levels: seq<(real, real)>, target: real, b: (nat, nat)) {
    b.0 <= b.1 < |levels| && (Block(levels, b.0, b.1) >= target || b == (0, |levels| - 1))
  }

  /**
   The blocks from `first` on: each short of the target and followed by the block with its larger
   neighbour, the upper one on a tie, until one is finished.
   */
  ghost predicate IsGrowth(levels: seq<(real, real)>, target: real, first: (nat, nat), blocks: seq<(nat, nat)>) {
    && blocks != [] && blocks[0] == first && Finished(levels, target, blocks[|blocks| - 1])
    && (forall i :: 0 <= i < |blocks| - 1 ==> Short(levels, target, blocks[i]))
    && (forall i :: 0 <= i < |blocks| - 1 ==>
          TakesUpper(levels, blocks[i], blocks[i + 1]) || TakesLower(levels, blocks[i], blocks[i + 1]))
  }

  lemma GrowthCons(levels: seq<(real, real)>, target: real, first: (nat, nat), rest: seq<(nat, nat)>)
    requires rest != [] && IsGrowth(levels, target, rest[0], rest) && Short(levels, target, first)
    requires TakesUpper(levels, first, rest[0]) || TakesLower(levels, first, rest[0])
    ensures IsGrowth(levels, target, first, [first] + rest)
  {
    hide Short, Finished, TakesUpper, TakesLower;
    var blocks := [first] + rest;
    assert forall i :: 0 < i < |blocks| ==> blocks[i] == rest[i - 1];
  }

  /** The loop's area is the end of such a growth. */
  lemma {:induction false} GrowIsGrowth(levels: seq<(real, real)>, target: real, low: nat, high: nat)
    returns (blocks: seq<(nat, nat)>)
    requires low <= high < |levels|
    ensures IsGrowth(levels, target, (low, high), blocks)
    ensures blocks[|blocks| - 1] == Grow(levels, target, low, high)
    decreases |levels| - (high - low)
  {
    hide Block;
    if Block(levels, low, high) >= target || (low == 0 && high + 1 == |levels|) {
      blocks := [(low, high)];
    } else {
      var rest: seq<(nat, nat)>;
      if low == 0 || (high + 1 < |levels| && levels[high + 1].1 >= levels[low - 1].1) {
        rest := GrowIsGrowth(levels, target, low, high + 1);
      } else {
        rest := GrowIsGrowth(levels, target, low - 1, high);
      }
      GrowthCons(levels, target, (low, high), rest);
      blocks := [(low, high)] + rest;
    }
  }

  lemma GrowthTail(levels: seq<(real, real)>, target: real, first: (nat, nat), blocks: seq<(nat, nat)>)
    requires IsGrowth(levels, target, first, blocks)
    ensures |blocks| == 1 <==> Finished(levels, target, first)
    ensures |blocks| > 1 ==> IsGrowth(levels, target, blocks[1], blocks[1..])
    ensures |blocks| > 1 ==> TakesUpper(levels, first, blocks[1]) || TakesLower(levels, first, blocks[1])
  {
    hide Block;
    if |blocks| > 1 {
      assert Short(levels, target, blocks[0]);
      assert TakesUpper(levels, blocks[0], blocks[0 + 1]) || TakesLower(levels, blocks[0], blocks[0 + 1]);
      var rest := blocks[1..];
      forall i | 0 <= i < |rest| - 1
        ensures Short(levels, target, rest[i])
        ensures TakesUpper(levels, rest[i], rest[i + 1]) || TakesLower(levels, rest[i], rest[i + 1])
      {
        assert rest[i] == blocks[i + 1] && rest[i + 1] == blocks[(i + 1) + 1];
        assert Short(levels, target, blocks[i + 1]);
      }
    }
  }

  /** A growth is determined by where it starts. */
  lemma {:induction false} GrowthIsUnique(
    levels: seq<(real, real)>, target: real, first: (nat, nat), a: seq<(nat, nat)>, b: seq<(nat, nat)>)
    requires IsGrowth(levels, target, first, a) && IsGrowth(levels, target, first, b)
    ensures a == b
    decreases |a|
  {
    GrowthTail(levels, target, first, a);
    GrowthTail(levels, target, first, b);
    if |a| > 1 {
      assert a[1] == b[1];
      hide IsGrowth;
      GrowthIsUnique(levels, target, a[1], a[1..], b[1..]);
    }
    assert a == [a[0]] + a[1..] && b == [b[0]] + b[1..];
  }

  lemma WholeBlock(levels: seq<(real, real)>)
    ensures levels != [] ==> Block(levels, 0, |levels| - 1) == Volume(levels)
  {
    assert levels[0..|levels|] == levels;
  }

  lemma {:induction false} PocIsLeftmostLargest(levels: seq<(real, real)>, n: nat)
    requires 0 < n <= |levels|
    ensures forall i :: 0 <= i < n ==> levels[i].1 <= levels[PocAt(levels, n)].1
    ensures forall i :: 0 <= i < PocAt(levels, n) ==> levels[i].1 < levels[PocAt(levels, n)].1
  {
    if n > 1 {
      PocIsLeftmostLargest(levels, n - 1);
    }
  }

  lemma {:induction false} VolumeNonNegative(levels: seq<(real, real)>)
    requires NonNegative(levels)
    ensures Volume(levels) >= 0.0
  {
    if levels != [] {
      VolumeNonNegative(levels[..|levels| - 1]);
    }
  }

  /** `blocks` is the only growth from the point of control, and the area is its last block. */
  ghost predicate IsOnlyGrowth(
    levels: seq<(real, real)>, target: real, poc: nat, area: (nat, nat), blocks: seq<(nat, nat)>)
  {
    && IsGrowth(levels, target, (poc, poc), blocks) && blocks[|blocks| - 1] == area
    && forall other :: IsGrowth(levels, target, (poc, poc), other) ==> other == blocks
  }

  /**
   Value area. The area of any totals is where the one sequence of blocks ends that starts at the
   leftmost largest level and takes, while the block is short of 70% of the volume, exactly the larger
   neighbour, the upper one on a tie or the only one left. With sizes that are not negative it ends
   holding at least 70%.
   */
  lemma ValueAreaIsGreedy(totals: Totals)
    requires totals != []
    ensures var levels := StableSort(totals, Price); var target := Volume(levels) * VALUE_AREA_RATIO;
      var poc := PocAt(levels, |levels|); var (low, high) := Grow(levels, target, poc, poc);
      && 10.0 * target == 7.0 * Volume(levels)
      && (forall i, j :: 0 <= i < j < |levels| ==> levels[i].0 <= levels[j].0) && multiset(levels) == multiset(totals)
      && (forall i :: 0 <= i < |levels| ==> levels[i].1 <= levels[poc].1)
      && (forall i :: 0 <= i < poc ==> levels[i].1 < levels[poc].1)
      && (exists blocks :: IsOnlyGrowth(levels, target, poc, (low, high), blocks))
      && (NonNegative(totals) ==> Block(levels, low, high) >= target)
      && ProfileOf(totals) == Profile(levels[poc].0, levels[high].0, levels[low].0)
  {
    hide StableSort, Block, Grow, PocAt, Volume, IsGrowth;
    var levels := StableSort(totals, Price);
    var target, poc := Volume(levels) * VALUE_AREA_RATIO, PocAt(levels, |levels|);
    StableSortSorted(totals, Price);
    forall i, j | 0 <= i < j < |levels| ensures levels[i].0 <= levels[j].0 {
      assert Price(levels[i]) <= Price(levels[j]);
    }
    PocIsLeftmostLargest(levels, |levels|);
    var blocks := GrowIsGrowth(levels, target, poc, poc);
    forall other | IsGrowth(levels, target, (poc, poc), other) ensures other == blocks {
      GrowthIsUnique(levels, target, (poc, poc), other, blocks);
    }
    assert IsOnlyGrowth(levels, target, poc, Grow(levels, target, poc, poc), blocks);
    if NonNegative(totals) {
      forall i | 0 <= i < |levels| ensures levels[i].1 >= 0.0 {
        assert levels[i] in multiset(totals);
      }
      VolumeNonNegative(levels);
      GrowthEnds(levels, target, poc, blocks);
    }
  }

  lemma GrowthEnds(levels: seq<(real, real)>, target: real, poc: nat, blocks: seq<(nat, nat)>)
    requires IsGrowth(levels, target, (poc, poc), blocks) && target <= Volume(levels)
    ensures var end := blocks[|blocks| - 1]; end.0 <= end.1 < |levels| && Block(levels, end.0, end.1) >= target
  {
    hide Block;
    WholeBlock(levels);
  }

  // ----- Sessions

  datatype FootLevel = FootLevel(price: real, sell: real, buy: real)

  datatype Bar = Bar(time: int, low: real, high: real, delta: real, levels: seq<FootLevel>)

  datatype Session = Session(start: nat, end: nat, profile: Profile, nakedEnd: Option<nat>)

  function SessionKeyOf(epoch: int): int { (epoch + SESSION_SHIFT_SECONDS) / DAY_SECONDS }

  predicate OpensSession(bars: seq<Bar>, at: nat)
    requires at < |bars|
  {
    at == 0 || SessionKeyOf(bars[at - 1].time) != SessionKeyOf(bars[at].time)
  }

  /** The first bar of the session that holds bar `at`. */
  function SessionStart(bars: seq<Bar>, at: nat): (start: nat)
    requires at < |bars|
    ensures start <= at
  {
    if OpensSession(bars, at) then at else SessionStart(bars, at - 1)
  }

  /** Delta of the bars `from..till`. */
  function DeltaOver(bars: seq<Bar>, from: nat, till: nat): real
    requires from <= till <= |bars|
    decreases till - from
  {
    if from == till then 0.0 else DeltaOver(bars, from, till - 1) + bars[till - 1].delta
  }

  function AddLevels(totals: Totals, levels: seq<FootLevel>): Totals {
    if levels == [] then totals
    else
      var before, l := AddLevels(totals, levels[..|levels| - 1]), levels[|levels| - 1];
      Set(before, l.price, Get(before, l.price).GetOr(0.0) + l.sell + l.buy)
  }

  /** Volume by price over the bars `from..till`. */
  function TotalsOver(bars: seq<Bar>, from: nat, till: nat): Totals
    requires from <= till <= |bars|
    decreases till - from
  {
    if from == till then [] else AddLevels(TotalsOver(bars, from, till - 1), bars[till - 1].levels)
  }

  /** Blank at the first bar of a session, the session's delta so far at every other. */
  function CvdAt(bars: seq<Bar>, at: nat): Option<real>
    requires at < |bars|
  {
    if OpensSession(bars, at) then None else Some(DeltaOver(bars, SessionStart(bars, at), at + 1))
  }

  predicate Touches(bar: Bar, poc: real) { bar.low <= poc <= bar.high }

  /** The first bar from `at` on that touches the price. */
  function FirstTouch(bars: seq<Bar>, poc: real, at: nat): Option<nat>
    decreases |bars| - at
  {
    if at >= |bars| then None else if Touches(bars[at], poc) then Some(at) else FirstTouch(bars, poc, at + 1)
  }

  /** What a finished session must be, before its naked point of control is looked for. */
  ghost predicate IsSession(bars: seq<Bar>, s: Session) {
    && s.start <= s.end < |bars| && s.start == SessionStart(bars, s.end)
    && (s.end + 1 < |bars| ==> OpensSession(bars, s.end + 1))
    && s.profile == ProfileOf(TotalsOver(bars, s.start, s.end + 1))
  }

  /** The sessions tile the bars `0..till`. */
  ghost predicate Tile(sessions: seq<Session>, till: nat) {
    && (sessions == [] <==> till == 0)
    && (sessions != [] ==> sessions[0].start == 0 && sessions[|sessions| - 1].end + 1 == till)
    && (forall k :: 0 < k < |sessions| ==> sessions[k].start == sessions[k - 1].end + 1)
  }

  method AddToTotals(totals: Totals, levels: seq<FootLevel>) returns (r: Totals)
    ensures r == AddLevels(totals, levels)
  {
    r := totals;
    for k := 0 to |levels|
      invariant r == AddLevels(totals, levels[..k])
    {
      assert levels[..k + 1][..k] == levels[..k];
      var l := levels[k];
      r := Set(r, l.price, Get(r, l.price).GetOr(0.0) + l.sell + l.buy);
    }
    assert levels[..|levels|] == levels;
  }

  lemma NothingOver(bars: seq<Bar>)
    ensures forall at :: 0 <= at <= |bars| ==> TotalsOver(bars, at, at) == [] && DeltaOver(bars, at, at) == 0.0
    ensures Tile([], 0)
  {
  }

  lemma Closing(bars: seq<Bar>, sessions: seq<Session>, start: nat, end: nat, profile: Profile)
    requires Tile(sessions, start) && start <= end < |bars| && start == SessionStart(bars, end)
    requires profile == ProfileOf(TotalsOver(bars, start, end + 1))
    requires end + 1 < |bars| ==> OpensSession(bars, end + 1)
    ensures Tile(sessions + [Session(start, end, profile, None)], end + 1)
    ensures IsSession(bars, Session(start, end, profile, None))
  {
    hide ProfileOf, TotalsOver, SessionStart;
  }

  /** What one more bar does to its session. */
  lemma BarStep(bars: seq<Bar>, at: nat, start: nat)
    requires start <= at < |bars|
    ensures OpensSession(bars, at) ==> SessionStart(bars, at) == at && CvdAt(bars, at) == None
    ensures !OpensSession(bars, at) ==> SessionStart(bars, at) == SessionStart(bars, at - 1)
    ensures !OpensSession(bars, at) ==> CvdAt(bars, at) == Some(DeltaOver(bars, SessionStart(bars, at), at + 1))
    ensures TotalsOver(bars, start, at + 1) == AddLevels(TotalsOver(bars, start, at), bars[at].levels)
    ensures DeltaOver(bars, start, at + 1) == DeltaOver(bars, start, at) + bars[at].delta
  {
  }

  /** The session split and the cumulative delta. */
  method SplitSessions(bars: seq<Bar>) returns (cvd: seq<Option<real>>, sessions: seq<Session>)
    ensures |cvd| == |bars| && forall i :: 0 <= i < |bars| ==> cvd[i] == CvdAt(bars, i)
    ensures Tile(sessions, |bars|)
    ensures forall k :: 0 <= k < |sessions| ==> IsSession(bars, sessions[k]) && sessions[k].nakedEnd == None
  {
    hide ProfileOf, AddLevels, SessionStart, TotalsOver, DeltaOver, CvdAt, IsSession, Tile, SessionKeyOf;
    NothingOver(bars);
    cvd, sessions := [], [];
    var sessionKey: Option<int> := None;
    var sessionTotals: Totals := [];
    var sessionStart, cum := 0, 0.0;
    for at := 0 to |bars|
      invariant |cvd| == at && forall i :: 0 <= i < at ==> cvd[i] == CvdAt(bars, i)
      invariant sessionStart <= at && Tile(sessions, sessionStart)
      invariant sessionKey == if at == 0 then None else Some(SessionKeyOf(bars[at - 1].time))
      invariant at > 0 ==> sessionStart == SessionStart(bars, at - 1)
      invariant at == 0 ==> sessionStart == 0
      invariant sessionTotals == TotalsOver(bars, sessionStart, at) && cum == DeltaOver(bars, sessionStart, at)
      invariant forall k :: 0 <= k < |sessions| ==> IsSession(bars, sessions[k]) && sessions[k].nakedEnd == None
    {
      BarStep(bars, at, if OpensSession(bars, at) then at else sessionStart);
      var key := SessionKeyOf(bars[at].time);
      if Some(key) != sessionKey {
        if sessionKey.Some? {
          var profile := BuildProfile(sessionTotals);
          Closing(bars, sessions, sessionStart, at - 1, profile);
          sessions := sessions + [Session(sessionStart, at - 1, profile, None)];
        }
        sessionKey := Some(key);
        sessionTotals := [];
        sessionStart := at;
        cum := 0.0;
        cvd := cvd + [None];
      } else {
        cvd := cvd + [Some(cum + bars[at].delta)];
      }
      cum := cum + bars[at].delta;
      sessionTotals := AddToTotals(sessionTotals, bars[at].levels);
    }
    if sessionKey.Some? {
      var profile := BuildProfile(sessionTotals);
      Closing(bars, sessions, sessionStart, |bars| - 1, profile);
      sessions := sessions + [Session(sessionStart, |bars| - 1, profile, None)];
    }
  }

  /** For each session, the first later bar that touches its point of control. */
  method MarkNaked(bars: seq<Bar>, sessions: seq<Session>) returns (marked: seq<Session>)
    ensures |marked| == |sessions|
    ensures forall k :: 0 <= k < |sessions| ==>
      marked[k] == if sessions[k].profile.NoProfile? then sessions[k]
                   else match FirstTouch(bars, sessions[k].profile.poc, sessions[k].end + 1)
                        case None => sessions[k]
                        case Some(at) => sessions[k].(nakedEnd := Some(at))
  {
    marked := [];
    for k := 0 to |sessions|
      invariant |marked| == k
      invariant forall i :: 0 <= i < k ==>
        marked[i] == if sessions[i].profile.NoProfile? then sessions[i]
                     else match FirstTouch(bars, sessions[i].profile.poc, sessions[i].end + 1)
                          case None => sessions[i]
                          case Some(at) => sessions[i].(nakedEnd := Some(at))
    {
      var session := sessions[k];
      var made := session;
      if session.profile.Profile? {
        var at := session.end + 1;
        while at < |bars| && !Touches(bars[at], session.profile.poc)
          invariant FirstTouch(bars, session.profile.poc, at)
                 == FirstTouch(bars, session.profile.poc, session.end + 1)
          decreases |bars| - at
        {
          at := at + 1;
        }
        if at < |bars| {
          made := session.(nakedEnd := Some(at));
        }
      }
      marked := marked + [made];
    }
  }

  /** The naked mark is the first touch: a bar that touches, with none before it. */
  lemma {:induction false} FirstTouchIsFirst(bars: seq<Bar>, poc: real, from: nat)
    ensures var r := FirstTouch(bars, poc, from);
      && (r.Some? ==> from <= r.value < |bars| && bars[r.value].low <= poc <= bars[r.value].high)
      && (forall i :: from <= i < (if r.Some? then r.value else |bars|) ==>
            !(bars[i].low <= poc <= bars[i].high))
    decreases |bars| - from
  {
    if from < |bars| && !Touches(bars[from], poc) {
      FirstTouchIsFirst(bars, poc, from + 1);
    }
  }

  lemma {:induction false} OneSessionOneKey(bars: seq<Bar>, at: nat, i: nat)
    requires at < |bars| && SessionStart(bars, at) <= i <= at
    ensures SessionKeyOf(bars[i].time) == SessionKeyOf(bars[at].time)
    ensures SessionStart(bars, i) == SessionStart(bars, at) && (OpensSession(bars, i) <==> i == SessionStart(bars, at))
  {
    if i < at {
      OneSessionOneKey(bars, at - 1, i);
    } else if !OpensSession(bars, at) {
      assert SessionStart(bars, at) < at;
    }
  }

  /** The bar lies on trading day `day`: the days of 86400 seconds begin three hours before midnight. */
  ghost predicate OnDay(time: int, day: int) { 86400 * day <= time + 10800 < 86400 * day + 86400 }

  lemma KeyIsDay(time: int, day: int)
    ensures SessionKeyOf(time) == day <==> OnDay(time, day)
  {
  }

  /** Bars `start..end`, both included, lie on the day, and the bars next to them do not. */
  ghost predicate IsWholeStretch(bars: seq<Bar>, start: nat, end: nat, day: int)
    requires start <= end < |bars|
  {
    && (forall i :: start <= i <= end ==> OnDay(bars[i].time, day))
    && (start > 0 ==> !OnDay(bars[start - 1].time, day)) && (end + 1 < |bars| ==> !OnDay(bars[end + 1].time, day))
  }

  /**
   A session is a stretch of bars of one trading day, maximal at both ends, and its bars cumulate from
   its own start.
   */
  lemma SessionIsOneDay(bars: seq<Bar>, s: Session)
    requires IsSession(bars, s)
    ensures exists day: int :: IsWholeStretch(bars, s.start, s.end, day)
    ensures forall i :: s.start <= i <= s.end ==>
      CvdAt(bars, i) == if i == s.start then None else Some(DeltaOver(bars, s.start, i + 1))
  {
    hide ProfileOf, TotalsOver, SessionKeyOf, OnDay;
    var day := SessionKeyOf(bars[s.start].time);
    OneSessionOneKey(bars, s.end, s.start);
    forall i | s.start <= i <= s.end
      ensures OnDay(bars[i].time, day)
      ensures CvdAt(bars, i) == if i == s.start then None else Some(DeltaOver(bars, s.start, i + 1))
    {
      OneSessionOneKey(bars, s.end, i);
      KeyIsDay(bars[i].time, day);
    }
    if s.start > 0 {
      KeyIsDay(bars[s.start - 1].time, day);
    }
    if s.end + 1 < |bars| {
      KeyIsDay(bars[s.end + 1].time, day);
    }
    assert IsWholeStretch(bars, s.start, s.end, day);
  }

  // ----- Volume of a session

  function Traded(levels: seq<FootLevel>): real {
    if levels == [] then 0.0
    else Traded(levels[..|levels| - 1]) + levels[|levels| - 1].sell + levels[|levels| - 1].buy
  }

  function TradedOver(bars: seq<Bar>, from: nat, till: nat): real
    requires from <= till <= |bars|
    decreases till - from
  {
    if from == till then 0.0 else TradedOver(bars, from, till - 1) + Traded(bars[till - 1].levels)
  }

  lemma {:induction false} SetChangesVolume(m: Totals, price: real, size: real)
    ensures Volume(Set(m, price, size)) == Volume(m) - Get(m, price).GetOr(0.0) + size
  {
    if m == [] {
      VolumeCons((price, size), []);
      assert [(price, size)] + [] == [(price, size)];
    } else {
      assert m == [m[0]] + m[1..];
      VolumeCons(m[0], m[1..]);
      if m[0].0 == price {
        VolumeCons((price, size), m[1..]);
      } else {
        SetChangesVolume(m[1..], price, size);
        VolumeCons(m[0], Set(m[1..], price, size));
      }
    }
  }

  lemma {:induction false} AddLevelsVolume(totals: Totals, levels: seq<FootLevel>)
    ensures Volume(AddLevels(totals, levels)) == Volume(totals) + Traded(levels)
  {
    hide Volume;
    if levels != [] {
      var front, l := levels[..|levels| - 1], levels[|levels| - 1];
      AddLevelsVolume(totals, front);
      var before := AddLevels(totals, front);
      SetChangesVolume(before, l.price, Get(before, l.price).GetOr(0.0) + l.sell + l.buy);
    }
  }

  /** Merging levels by price loses no volume: the profile holds exactly what its bars traded. */
  lemma {:induction false} SessionVolumeIsConserved(bars: seq<Bar>, from: nat, till: nat)
    requires from <= till <= |bars|
    ensures Volume(TotalsOver(bars, from, till)) == TradedOver(bars, from, till)
    decreases till - from
  {
    if from < till {
      hide Volume, AddLevels;
      SessionVolumeIsConserved(bars, from, till - 1);
      AddLevelsVolume(TotalsOver(bars, from, till - 1), bars[till - 1].levels);
    } else {
      NoVolume();
    }
  }

  lemma NoVolume()
    ensures Volume([]) == 0.0
  {
  }

  // ----- Volume of a price

  /** What the levels traded at a price, sold and bought. */
  function TradedIn(levels: seq<FootLevel>, price: real): real {
    if levels == [] then 0.0
    else
      var l := levels[|levels| - 1];
      TradedIn(levels[..|levels| - 1], price) + if l.price == price then l.sell + l.buy else 0.0
  }

  function TradedAt(bars: seq<Bar>, from: nat, till: nat, price: real): real
    requires from <= till <= |bars|
    decreases till - from
  {
    if from == till then 0.0 else TradedAt(bars, from, till - 1, price) + TradedIn(bars[till - 1].levels, price)
  }

  /** What is traded at a price adds over the levels. */
  lemma {:induction false} TradedOfBoth(a: seq<FootLevel>, b: seq<FootLevel>, price: real)
    ensures TradedIn(a + b, price) == TradedIn(a, price) + TradedIn(b, price)
  {
    if b == [] {
      assert a + b == a;
    } else {
      var n := |b| - 1;
      assert (a + b)[..|a| + n] == a + b[..n];
      TradedOfBoth(a, b[..n], price);
    }
  }

  /** One level trades what it sold and bought, at its own price. */
  lemma OneLevelTrades(l: FootLevel, price: real)
    ensures TradedIn([l], price) == if l.price == price then l.sell + l.buy else 0.0
  {
    assert [l][..0] == [];
  }

  ghost predicate Prices(levels: seq<FootLevel>, price: real) {
    exists i :: 0 <= i < |levels| && levels[i].price == price
  }

  lemma PricesSnoc(levels: seq<FootLevel>, price: real)
    requires levels != []
    ensures var n := |levels| - 1; Prices(levels, price) <==> Prices(levels[..n], price) || levels[n].price == price
  {
    var n := |levels| - 1;
    if Prices(levels[..n], price) {
      var i :| 0 <= i < n && levels[..n][i].price == price;
      assert levels[i].price == price;
    }
    if Prices(levels, price) {
      var i :| 0 <= i < |levels| && levels[i].price == price;
      assert i < n ==> levels[..n][i].price == price;
    }
  }

  lemma {:induction false} AddLevelsAt(totals: Totals, levels: seq<FootLevel>, price: real)
    requires Unique(totals)
    ensures Unique(AddLevels(totals, levels))
    ensures Get(AddLevels(totals, levels), price)
      == if Prices(levels, price) then Some(Get(totals, price).GetOr(0.0) + TradedIn(levels, price))
         else Get(totals, price)
    ensures !Prices(levels, price) ==> TradedIn(levels, price) == 0.0
  {
    hide Prices, Unique, Get, Set;
    if levels != [] {
      var front, l := levels[..|levels| - 1], levels[|levels| - 1];
      AddLevelsAt(totals, front, price);
      AddLevelsAt(totals, front, l.price);
      PricesSnoc(levels, price);
      var before := AddLevels(totals, front);
      SetMeans(before, l.price, Get(before, l.price).GetOr(0.0) + l.sell + l.buy);
    } else {
      NoPrices(price);
    }
  }

  lemma NoPrices(price: real)
    ensures !Prices([], price)
  {
  }

  ghost predicate PricedOver(bars: seq<Bar>, from: nat, till: nat, price: real)
    requires from <= till <= |bars|
  {
    exists i :: from <= i < till && Prices(bars[i].levels, price)
  }

  /**
   Each price the bars list has one entry, which holds exactly what the bars sold and bought at it,
   and no other price has any.
   */
  lemma {:induction false} PricesKeepTheirVolume(bars: seq<Bar>, from: nat, till: nat, price: real)
    requires from <= till <= |bars|
    ensures Unique(TotalsOver(bars, from, till))
    ensures Get(TotalsOver(bars, from, till), price)
      == if PricedOver(bars, from, till, price) then Some(TradedAt(bars, from, till, price)) else None
    ensures !PricedOver(bars, from, till, price) ==> TradedAt(bars, from, till, price) == 0.0
    decreases till - from
  {
    hide AddLevels, Prices, Get;
    if from < till {
      PricesKeepTheirVolume(bars, from, till - 1, price);
      AddLevelsAt(TotalsOver(bars, from, till - 1), bars[till - 1].levels, price);
      assert PricedOver(bars, from, till, price)
        <==> PricedOver(bars, from, till - 1, price) || Prices(bars[till - 1].levels, price);
    } else {
      NothingHeld(price);
    }
  }

  lemma NothingHeld(price: real)
    ensures Get<real, real>([], price) == None && Unique<real, real>([])
  {
  }
}
