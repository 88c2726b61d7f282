/**
 Rate limiting under every interleaving of callers: the slots handed out by `RateLimiter`
 and the turns handed out by `CommandPacer`. Times are exact reals in seconds.
 */
module Pacing {
  import opened Numbers
  import opened Options

  // ----- Spaced times

  function Apart(k: int, interval: real): real { k as real * interval }

  lemma OneMore(k: int, interval: real)
    ensures Apart(k + 1, interval) == Apart(k, interval) + interval
    ensures Apart(0, interval) == 0.0
  {
    assert (k + 1) as real == k as real + 1.0;
  }

  lemma MoreIsApart(a: int, b: int, interval: real)
    requires a <= b && interval > 0.0
    ensures Apart(a, interval) <= Apart(b, interval)
  {
    var gap := b - a;
    assert gap as real * interval >= 0.0;
    assert b as real == a as real + gap as real;
    assert b as real * interval == a as real * interval + gap as real * interval;
  }

  /** Any two times are at least as many intervals apart as their positions. */
  ghost predicate Spaced(times: seq<real>, interval: real) {
    forall i, j :: 0 <= i <= j < |times| ==> times[j] - times[i] >= Apart(j - i, interval)
  }

  function CountIn(times: seq<real>, low: real, high: real): (n: nat)
    ensures n <= |times|
  {
    if times == [] then 0
    else CountIn(times[..|times| - 1], low, high) + if low <= times[|times| - 1] < high then 1 else 0
  }

  lemma {:induction false} CountIsPlaces(times: seq<real>, low: real, high: real)
    ensures CountIn(times, low, high) == |set i | 0 <= i < |times| && low <= times[i] < high|
  {
    if times != [] {
      var n := |times| - 1;
      CountIsPlaces(times[..n], low, high);
      var rest := set i | 0 <= i < |times[..n]| && low <= times[..n][i] < high;
      assert (set i | 0 <= i < |times| && low <= times[i] < high)
        == if low <= times[n] < high then rest + {n} else rest;
    }
  }

  lemma {:induction false} SpacedGrows(times: seq<real>, next: real, interval: real)
    requires Spaced(times, interval) && (times != [] ==> next >= times[|times| - 1] + interval)
    ensures Spaced(times + [next], interval)
  {
    hide Apart;
    var grown, n := times + [next], |times|;
    OneMore(0, interval);
    forall i | 0 <= i < n ensures next - grown[i] >= Apart(n - i, interval) {
      assert times[n - 1] - times[i] >= Apart(n - 1 - i, interval);
      OneMore(n - 1 - i, interval);
    }
  }

  /** The last counted time is as far into the window as the count demands. */
  lemma {:induction false} CountedTimes(times: seq<real>, interval: real, low: real, high: real) returns (last: nat)
    requires Spaced(times, interval) && interval > 0.0 && CountIn(times, low, high) > 0
    ensures last < |times| && low <= times[last] < high
    ensures times[last] - low >= Apart(CountIn(times, low, high) - 1, interval)
  {
    hide Apart;
    var n := |times| - 1;
    var front := times[..n];
    assert Spaced(front, interval);
    if low <= times[n] < high {
      last := n;
      var before: int := CountIn(front, low, high);
      OneMore(before - 1, interval);
      if before > 0 {
        var earlier := CountedTimes(front, interval, low, high);
        assert times[n] - times[earlier] >= Apart(n - earlier, interval);
        OneMore(0, interval);
        MoreIsApart(1, n - earlier, interval);
      }
    } else {
      last := CountedTimes(front, interval, low, high);
    }
  }

  /** The number of intervals that fit into a length, rounded up. */
  function Ceiling(length: real, interval: real): int
    requires interval > 0.0
  {
    -((-(length / interval)).Floor)
  }

  /** Rounding up: `Ceiling` intervals cover the length and one fewer do not. */
  lemma CeilingMeans(length: real, interval: real)
    requires interval > 0.0
    ensures Apart(Ceiling(length, interval) - 1, interval) < length <= Apart(Ceiling(length, interval), interval)
  {
    var ratio, up := length / interval, Ceiling(length, interval);
    assert ratio * interval == length;
    Scaled(ratio, up as real, interval);
    Scaled((up - 1) as real, ratio, interval);
    assert ((up - 1) as real - ratio) * interval < 0.0;
  }

  lemma Scaled(a: real, b: real, k: real)
    requires a <= b && k > 0.0
    ensures a * k <= b * k && (b - a) * k == b * k - a * k
    ensures a < b ==> a * k < b * k
  {
    assert (b - a) * k >= 0.0;
  }

  /** A half-open window of length T holds at most ceil(T / interval) of the times. */
  lemma WindowHoldsFew(times: seq<real>, interval: real, start: real, length: real)
    requires Spaced(times, interval) && interval > 0.0 && length > 0.0
    ensures |set i | 0 <= i < |times| && start <= times[i] < start + length| <= Ceiling(length, interval)
  {
    CountIsPlaces(times, start, start + length);
    var n: int := CountIn(times, start, start + length);
    if n > 0 {
      var last := CountedTimes(times, interval, start, start + length);
    } else {
      OneMore(-1, interval);
      MoreIsApart(n - 1, -1, interval);
    }
    FewerThanRatio(n - 1, interval, length);
  }

  lemma FewerThanRatio(k: int, interval: real, length: real)
    requires interval > 0.0 && Apart(k, interval) < length
    ensures k + 1 <= Ceiling(length, interval)
  {
    var ratio := length / interval;
    assert ratio * interval == length;
    assert (ratio - k as real) * interval > 0.0;
    assert ratio > k as real;
  }

  // ----- Many threads on one limiter

  type Thread = nat

  /**
   The shared limiter among threads. `slots` are the grants in the order the lock gave them;
   a waiting thread sleeps towards its slot, and `released` are the slots whose sleep has ended.
   */
  datatype State = State(
    clock: real, nextAt: real, slots: seq<real>, arrivals: seq<real>, waiting: map<Thread, nat>, released: set<nat>)

  /** A thread enters the critical section, the clock advances, or a sleep ends. */
  datatype Event = Enter(thread: Thread) | Tick(seconds: real) | Wake(thread: Thread)

  function Start(clock: real): State { State(clock, 0.0, [], [], map[], {}) }

  predicate Enabled(s: State, e: Event) {
    match e
    case Enter(t) => t !in s.waiting
    case Tick(seconds) => seconds >= 0.0
    case Wake(t) => t in s.waiting && s.waiting[t] < |s.slots| && s.clock >= s.slots[s.waiting[t]]
  }

  function Next(s: State, e: Event, interval: real): State
    requires Enabled(s, e)
  {
    match e
    case Enter(t) =>
      var slot := Max(s.clock, s.nextAt);
      s.(nextAt := slot + interval, slots := s.slots + [slot], arrivals := s.arrivals + [s.clock],
         waiting := s.waiting[t := |s.slots|])
    case Tick(seconds) => s.(clock := s.clock + seconds)
    case Wake(t) => s.(waiting := s.waiting - {t}, released := s.released + {s.waiting[t]})
  }

  /** The state after a run, if every event was enabled when it happened. */
  function After(clock: real, events: seq<Event>, interval: real): Option<State> {
    if events == [] then Some(Start(clock))
    else
      match After(clock, events[..|events| - 1], interval)
      case None => None
      case Some(before) =>
        var e := events[|events| - 1];
        if Enabled(before, e) then Some(Next(before, e, interval)) else None
  }

  /** Slot `k` is the earliest time allowed: on arrival, or one interval after the slot before it. */
  ghost predicate Earliest(s: State, interval: real, k: nat)
    requires |s.arrivals| == |s.slots| && k < |s.slots|
  {
    s.slots[k] == Max(s.arrivals[k], if k == 0 then 0.0 else s.slots[k - 1] + interval)
  }

  ghost predicate Sound(s: State, interval: real) {
    && |s.arrivals| == |s.slots| && Spaced(s.slots, interval)
    && s.nextAt == (if s.slots == [] then 0.0 else s.slots[|s.slots| - 1] + interval)
    && (forall k :: 0 <= k < |s.slots| ==> Earliest(s, interval, k) && s.arrivals[k] <= s.clock)
    && (forall t :: t in s.waiting ==> s.waiting[t] < |s.slots| && s.waiting[t] !in s.released)
    && (forall t, u :: t in s.waiting && u in s.waiting && t != u ==> s.waiting[t] != s.waiting[u])
    && (forall k :: k in s.released ==> k < |s.slots| && s.slots[k] <= s.clock)
  }

  lemma AfterSnoc(clock: real, events: seq<Event>, e: Event, interval: real)
    requires After(clock, events, interval).Some? && Enabled(After(clock, events, interval).value, e)
    ensures After(clock, events + [e], interval) == Some(Next(After(clock, events, interval).value, e, interval))
  {
    assert (events + [e])[..|events|] == events;
  }

  /**
   What can happen in any state and what it does: a thread that is not waiting enters and takes the earliest slot,
   time passes, and a waiting thread goes out exactly when the clock has reached its slot.
   */
  lemma EveryoneIsServed(clock: real, events: seq<Event>, interval: real, s: State, t: Thread, seconds: real)
    requires After(clock, events, interval) == Some(s) && interval > 0.0
    ensures var entered := After(clock, events + [Enter(t)], interval);
      if t in s.waiting then entered == None
      else
        && entered.Some? && entered.value.slots == s.slots + [if s.clock >= s.nextAt then s.clock else s.nextAt]
        && entered.value.arrivals == s.arrivals + [s.clock] && entered.value.waiting == s.waiting[t := |s.slots|]
        && entered.value.clock == s.clock && entered.value.released == s.released
    ensures var later := After(clock, events + [Tick(seconds)], interval);
      if seconds < 0.0 then later == None else later == Some(s.(clock := s.clock + seconds))
    ensures var woken := After(clock, events + [Wake(t)], interval);
      if t !in s.waiting || s.waiting[t] >= |s.slots| || s.clock < s.slots[s.waiting[t]] then woken == None
      else woken == Some(s.(waiting := s.waiting - {t}, released := s.released + {s.waiting[t]}))
  {
    assert (events + [Enter(t)])[..|events|] == events;
    assert (events + [Tick(seconds)])[..|events|] == events;
    assert (events + [Wake(t)])[..|events|] == events;
  }

  lemma SoundNext(s: State, e: Event, interval: real)
    requires Sound(s, interval) && Enabled(s, e) && interval > 0.0
    ensures Sound(Next(s, e, interval), interval)
  {
    match e
    case Enter(t) =>
      hide Spaced;
      var next := Next(s, e, interval);
      SpacedGrows(s.slots, Max(s.clock, s.nextAt), interval);
      forall k | 0 <= k < |next.slots| ensures Earliest(next, interval, k) {
        if k < |s.slots| {
          assert Earliest(s, interval, k);
        }
      }
    case Tick(_) =>
      var next := Next(s, e, interval);
      forall k | 0 <= k < |next.slots| ensures Earliest(next, interval, k) {
        assert Earliest(s, interval, k);
      }
    case Wake(t) =>
      var next := Next(s, e, interval);
      forall k | 0 <= k < |next.slots| ensures Earliest(next, interval, k) {
        assert Earliest(s, interval, k);
      }
  }

  lemma {:induction false} RunsAreSound(clock: real, events: seq<Event>, interval: real, s: State)
    requires After(clock, events, interval) == Some(s) && interval > 0.0
    ensures Sound(s, interval)
  {
    if events != [] {
      var front, e := events[..|events| - 1], events[|events| - 1];
      var before := After(clock, front, interval).value;
      RunsAreSound(clock, front, interval, before);
      SoundNext(before, e, interval);
    }
  }

  /**
   Rate safety. In every run, under every interleaving, any two grants are as many intervals apart
   as there are grants between them, so no half-open window of length T holds more than
   ceil(T / interval) of them.
   */
  lemma GrantsAreSpaced(clock: real, events: seq<Event>, interval: real, s: State, start: real, length: real)
    requires After(clock, events, interval) == Some(s) && interval > 0.0 && length > 0.0
    ensures forall i, j :: 0 <= i <= j < |s.slots| ==> s.slots[j] - s.slots[i] >= Apart(j - i, interval)
    ensures |set i | 0 <= i < |s.slots| && start <= s.slots[i] < start + length| <= Ceiling(length, interval)
  {
    RunsAreSound(clock, events, interval, s);
    WindowHoldsFew(s.slots, interval, start, length);
  }

  /**
   Each grant is the earliest time allowed: any other schedule that serves the same arrivals in
   the same order, never early and always an interval apart, serves none of them sooner.
   */
  lemma GrantsAreEarliest(clock: real, events: seq<Event>, interval: real, s: State, other: seq<real>, k: nat)
    requires After(clock, events, interval) == Some(s) && interval > 0.0
    requires |other| == |s.slots| == |s.arrivals| && k < |other|
    requires forall i :: 0 <= i < |other| ==> other[i] >= s.arrivals[i] && other[i] >= 0.0
    requires forall i :: 0 < i < |other| ==> other[i] >= other[i - 1] + interval
    ensures s.slots[k] <= other[k]
  {
    RunsAreSound(clock, events, interval, s);
    NoneSooner(s, interval, other, k);
  }

  lemma {:induction false} NoneSooner(s: State, interval: real, other: seq<real>, k: nat)
    requires Sound(s, interval) && |other| == |s.slots| && k < |other|
    requires forall i :: 0 <= i < |other| ==> other[i] >= s.arrivals[i] && other[i] >= 0.0
    requires forall i :: 0 < i < |other| ==> other[i] >= other[i - 1] + interval
    ensures s.slots[k] <= other[k]
  {
    assert Earliest(s, interval, k);
    if k > 0 {
      NoneSooner(s, interval, other, k - 1);
    }
  }

  lemma {:induction false} SmallSet(ks: set<nat>, bound: nat)
    requires forall k :: k in ks ==> k < bound
    ensures |ks| <= bound
  {
    if bound == 0 {
      assert ks == {};
    } else {
      SmallSet(ks - {bound - 1}, bound - 1);
    }
  }

  /**
   However late sleeps end, no more calls have gone out by any moment than the slots up to it:
   R released calls take at least R - 1 intervals from the first slot.
   */
  lemma ReleasesNeverExceedRate(clock: real, events: seq<Event>, interval: real, s: State)
    requires After(clock, events, interval) == Some(s) && interval > 0.0 && s.released != {}
    ensures s.slots != []
    ensures s.clock - s.slots[0] >= Apart(|s.released| - 1, interval)
  {
    hide Apart, After;
    RunsAreSound(clock, events, interval, s);
    var k := HighReleased(s.released, |s.released| - 1);
    assert s.slots[k] - s.slots[0] >= Apart(k - 0, interval);
    MoreIsApart(|s.released| - 1, k, interval);
  }

  lemma HighReleased(ks: set<nat>, low: nat) returns (k: nat)
    requires |ks| == low + 1
    ensures k in ks && k >= low
  {
    if forall i :: i in ks ==> i < low {
      SmallSet(ks, low);
    }
    k :| k in ks && k >= low;
  }

  // ----- The limiter object

  class RateLimiter {
    const interval: real
    var nextAt: real
    /** What has happened to the limiter so far, and the clock reading it started at. */
    ghost var events: seq<Event>
    ghost const started: real

    ghost predicate Valid()
      reads this
    {
      && interval > 0.0 && After(started, events, interval).Some?
      && After(started, events, interval).value.nextAt == nextAt
    }

    ghost function History(): State
      requires Valid()
      reads this
    {
      After(started, events, interval).value
    }

    constructor (ratePerSecond: real, ghost clock: real)
      requires ratePerSecond > 0.0
      ensures Valid() && interval == 1.0 / ratePerSecond && nextAt == 0.0
      ensures events == [] && started == clock
    {
      interval := 1.0 / ratePerSecond;
      nextAt := 0.0;
      events, started := [], clock;
      new;
      PositiveInverse(ratePerSecond);
    }

    /**
     Takes the next slot at clock reading `now` and says how long to sleep until it: one `Enter` of
     the machine above, whose new slot is the time the sleep ends.
     */
    method Acquire(now: real, ghost thread: Thread) returns (wait: real)
      requires Valid() && now >= History().clock && thread !in History().waiting
      modifies this
      ensures Valid() && wait >= 0.0
      ensures events == old(events) + [Tick(now - old(History()).clock)] + [Enter(thread)]
      ensures History().slots == old(History()).slots + [now + wait]
    {
      ghost var before := History();
      wait := nextAt - now;
      nextAt := Max(now, nextAt) + interval;
      if wait <= 0.0 {
        wait := 0.0;
      }
      AfterSnoc(started, events, Tick(now - before.clock), interval);
      AfterSnoc(started, events + [Tick(now - before.clock)], Enter(thread), interval);
      events := events + [Tick(now - before.clock)] + [Enter(thread)];
    }

    /** The caller's sleep ends, at the slot it was given or later. */
    ghost method Return(now: real, thread: Thread)
      requires Valid() && now >= History().clock && Enabled(History().(clock := now), Wake(thread))
      modifies this`events
      ensures Valid() && events == old(events) + [Tick(now - old(History()).clock)] + [Wake(thread)]
    {
      var before := History();
      AfterSnoc(started, events, Tick(now - before.clock), interval);
      AfterSnoc(started, events + [Tick(now - before.clock)], Wake(thread), interval);
      events := events + [Tick(now - before.clock)] + [Wake(thread)];
    }

    /** The source raises for a rate that is not positive. */
    static method Make(ratePerSecond: real, ghost clock: real) returns (limiter: RateLimiter?)
      ensures limiter == null <==> ratePerSecond <= 0.0
      ensures limiter != null ==>
        fresh(limiter) && limiter.Valid() && limiter.interval == 1.0 / ratePerSecond && limiter.events == []
    {
      if ratePerSecond <= 0.0 {
        return null;
      }
      limiter := new RateLimiter(ratePerSecond, clock);
    }
  }

  lemma PositiveInverse(rate: real)
    requires rate > 0.0
    ensures 1.0 / rate > 0.0
  {
    assert (1.0 / rate) * rate == 1.0;
  }

  /** Whatever calls a limiter has served, a window of length T holds at most ceil(T / interval) of its slots. */
  lemma LimiterHoldsRate(limiter: RateLimiter, start: real, length: real)
    requires limiter.Valid() && length > 0.0
    ensures Spaced(limiter.History().slots, limiter.interval)
    ensures var slots := limiter.History().slots;
      |set i | 0 <= i < |slots| && start <= slots[i] < start + length| <= Ceiling(length, limiter.interval)
  {
    GrantsAreSpaced(limiter.started, limiter.events, limiter.interval, limiter.History(), start, length);
  }

  // ----- The wait of a command

  const SUBSCRIBE_INTERVAL_SECONDS := 1.1

  /** How long to wait at `now` so that a turn comes an interval after the last one. */
  function WaitAfter(lastAt: Option<real>, interval: real, now: real): real {
    match lastAt
    case None => 0.0
    case Some(last) => Max(0.0, last + interval - now)
  }

  function CommandWaitSeconds(lastSentAt: Option<real>, now: real): real {
    WaitAfter(lastSentAt, SUBSCRIBE_INTERVAL_SECONDS, now)
  }

  function LastOf(turns: seq<real>): Option<real> {
    if turns == [] then None else Some(turns[|turns| - 1])
  }

  /** A wait keeps spaced turns spaced exactly when it is no shorter than the one computed. */
  lemma WaitIsLeast(turns: seq<real>, interval: real, now: real, wait: real)
    requires Spaced(turns, interval) && wait >= 0.0
    ensures Spaced(turns + [now + wait], interval) <==> wait >= WaitAfter(LastOf(turns), interval, now)
  {
    var next := now + wait;
    var grown := turns + [next];
    if wait >= WaitAfter(LastOf(turns), interval, now) {
      SpacedGrows(turns, next, interval);
    }
    if turns != [] && Spaced(grown, interval) {
      OneMore(0, interval);
      assert grown[|turns|] - grown[|turns| - 1] >= Apart(1, interval);
    }
  }

  /** The command rule asks for exactly the least wait that keeps commands 1.1 seconds apart. */
  lemma CommandWaitIsLeast(sent: seq<real>, now: real, wait: real)
    requires Spaced(sent, 1.1) && wait >= 0.0
    ensures Spaced(sent + [now + wait], 1.1) <==> wait >= CommandWaitSeconds(LastOf(sent), now)
  {
    WaitIsLeast(sent, SUBSCRIBE_INTERVAL_SECONDS, now, wait);
  }

  // ----- Many clients on one pacer

  /** `holder` is the client inside the lock and the time its sleep ends. */
  datatype Pacer = Pacer(clock: real, lastAt: Option<real>, holder: Option<(Thread, real)>, turns: seq<real>)

  /** A client takes the lock, time passes, or the holder's sleep has ended and it takes its turn. */
  datatype PacerEvent = Lock(client: Thread) | Pass(seconds: real) | Turn

  predicate PacerEnabled(p: Pacer, e: PacerEvent) {
    match e
    case Lock(_) => p.holder.None?
    case Pass(seconds) => seconds >= 0.0
    case Turn => p.holder.Some? && p.clock >= p.holder.value.1
  }

  function PacerNext(p: Pacer, e: PacerEvent, interval: real): Pacer
    requires PacerEnabled(p, e)
  {
    match e
    case Lock(client) => p.(holder := Some((client, p.clock + WaitAfter(p.lastAt, interval, p.clock))))
    case Pass(seconds) => p.(clock := p.clock + seconds)
    case Turn => p.(lastAt := Some(p.clock), holder := None, turns := p.turns + [p.clock])
  }

  function PacerRun(clock: real, events: seq<PacerEvent>, interval: real): Option<Pacer> {
    if events == [] then Some(Pacer(clock, None, None, []))
    else
      match PacerRun(clock, events[..|events| - 1], interval)
      case None => None
      case Some(before) =>
        var e := events[|events| - 1];
        if PacerEnabled(before, e) then Some(PacerNext(before, e, interval)) else None
  }

  ghost predicate PacerSound(p: Pacer, interval: real) {
    && Spaced(p.turns, interval)
    && p.lastAt == LastOf(p.turns)
    && (p.holder.Some? && p.turns != [] ==> p.holder.value.1 >= p.turns[|p.turns| - 1] + interval)
  }

  /** What can happen to the pacer in any state and what it does. */
  lemma PacerSteps(clock: real, events: seq<PacerEvent>, interval: real, p: Pacer, client: Thread, seconds: real)
    requires PacerRun(clock, events, interval) == Some(p)
    ensures var locked := PacerRun(clock, events + [Lock(client)], interval);
      if p.holder.Some? then locked == None
      else
        && locked.Some? && locked.value.holder.Some? && locked.value == p.(holder := locked.value.holder)
        && (var until := locked.value.holder.value.1;
            until >= p.clock && (match p.lastAt case None => until == p.clock
                                 case Some(last) => until == p.clock || until == last + interval))
        && (p.lastAt.Some? ==> locked.value.holder.value.1 >= p.lastAt.value + interval)
    ensures var later := PacerRun(clock, events + [Pass(seconds)], interval);
      if seconds < 0.0 then later == None else later == Some(p.(clock := p.clock + seconds))
    ensures var turned := PacerRun(clock, events + [Turn], interval);
      if p.holder == None || p.clock < p.holder.value.1 then turned == None
      else turned == Some(Pacer(p.clock, Some(p.clock), None, p.turns + [p.clock]))
  {
    assert (events + [Lock(client)])[..|events|] == events;
    assert (events + [Pass(seconds)])[..|events|] == events;
    assert (events + [Turn])[..|events|] == events;
  }

  lemma {:induction false} PacerStaysSound(clock: real, events: seq<PacerEvent>, interval: real)
    requires PacerRun(clock, events, interval).Some? && interval > 0.0
    ensures PacerSound(PacerRun(clock, events, interval).value, interval)
  {
    if events != [] {
      hide Spaced;
      var front := events[..|events| - 1];
      PacerStaysSound(clock, front, interval);
      var before := PacerRun(clock, front, interval).value;
      if events[|events| - 1].Turn? {
        SpacedGrows(before.turns, before.clock, interval);
      }
    } else {
      assert Spaced([], interval);
    }
  }

  /**
   Over every run of any clients sharing one pacer, any two turns are as many intervals apart as
   there are turns between them, so no window of length T holds more than ceil(T / interval).
   */
  lemma TurnsAreSpaced(clock: real, events: seq<PacerEvent>, interval: real, start: real, length: real)
    requires PacerRun(clock, events, interval).Some? && interval > 0.0 && length > 0.0
    ensures Spaced(PacerRun(clock, events, interval).value.turns, interval)
    ensures var turns := PacerRun(clock, events, interval).value.turns;
      |set i | 0 <= i < |turns| && start <= turns[i] < start + length| <= Ceiling(length, interval)
  {
    PacerStaysSound(clock, events, interval);
    WindowHoldsFew(PacerRun(clock, events, interval).value.turns, interval, start, length);
  }

  // ----- The pacer object

  lemma PacerRunSnoc(clock: real, events: seq<PacerEvent>, e: PacerEvent, interval: real)
    requires PacerRun(clock, events, interval).Some? && PacerEnabled(PacerRun(clock, events, interval).value, e)
    ensures PacerRun(clock, events + [e], interval)
         == Some(PacerNext(PacerRun(clock, events, interval).value, e, interval))
  {
    assert (events + [e])[..|events|] == events;
  }

  class CommandPacer {
    const interval: real
    var lastAt: Option<real>
    ghost var events: seq<PacerEvent>
    ghost const started: real

    /** Between calls the lock is free. */
    ghost predicate Valid()
      reads this
    {
      && interval > 0.0 && PacerRun(started, events, interval).Some?
      && PacerRun(started, events, interval).value.holder == None
      && PacerRun(started, events, interval).value.lastAt == lastAt
    }

    ghost function History(): Pacer
      requires Valid()
      reads this
    {
      PacerRun(started, events, interval).value
    }

    constructor (intervalSeconds: real, ghost clock: real)
      requires intervalSeconds > 0.0
      ensures Valid() && interval == intervalSeconds && events == [] && started == clock
    {
      interval := intervalSeconds;
      lastAt := None;
      events, started := [], clock;
    }

    /** The source raises for an interval that is not positive. */
    static method Make(intervalSeconds: real, ghost clock: real) returns (pacer: CommandPacer?)
      ensures pacer == null <==> intervalSeconds <= 0.0
      ensures pacer != null ==>
        fresh(pacer) && pacer.Valid() && pacer.interval == intervalSeconds && pacer.events == []
    {
      if intervalSeconds <= 0.0 {
        return null;
      }
      pacer := new CommandPacer(intervalSeconds, clock);
    }

    /**
     One call: the lock is taken at `now`, the sleep ends `late` after it should, and the turn is taken
     at the clock reading then. Its four events are a stretch of the machine above.
     */
    method WaitTurn(now: real, late: real, ghost client: Thread) returns (turn: real)
      requires Valid() && now >= History().clock && late >= 0.0
      modifies this
      ensures Valid() && lastAt == Some(turn) && turn == now + WaitAfter(old(lastAt), interval, now) + late
      ensures events == old(events)
        + [Pass(now - old(History()).clock)] + [Lock(client)] + [Pass(turn - now)] + [Turn]
      ensures History().turns == old(History()).turns + [turn]
    {
      ghost var before := events;
      ghost var arrival := Pass(now - History().clock);
      var wait := 0.0;
      if lastAt.Some? {
        wait := Max(0.0, lastAt.value + interval - now);
      }
      turn := now + wait + late;
      PacerRunSnoc(started, before, arrival, interval);
      PacerRunSnoc(started, before + [arrival], Lock(client), interval);
      PacerRunSnoc(started, before + [arrival] + [Lock(client)], Pass(turn - now), interval);
      PacerRunSnoc(started, before + [arrival] + [Lock(client)] + [Pass(turn - now)], Turn, interval);
      lastAt := Some(turn);
      events := before + [arrival] + [Lock(client)] + [Pass(turn - now)] + [Turn];
    }
  }

  /**
   Whatever clients a pacer has served, its turns are spaced and a window of length T holds at most
   ceil(T / interval) of them.
   */
  lemma PacerHoldsInterval(pacer: CommandPacer, start: real, length: real)
    requires pacer.Valid() && length > 0.0
    ensures Spaced(pacer.History().turns, pacer.interval)
    ensures var turns := pacer.History().turns;
      |set i | 0 <= i < |turns| && start <= turns[i] < start + length| <= Ceiling(length, pacer.interval)
  {
    TurnsAreSpaced(pacer.started, pacer.events, pacer.interval, start, length);
  }
}
