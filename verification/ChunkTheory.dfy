/**
 What every run of the chunk cache keeps, and what eviction, refreshing and the request pump promise.
 */
module ChunkTheory {
  import opened Options
  import opened OrderedMap
  import opened ChunkSteps

  // ----- Eviction

  function CountFree(cache: Chunks, protected: set<Key>): (n: nat)
    ensures n <= |cache|
  {
    if cache == [] then 0 else CountFree(cache[1..], protected) + if cache[0].0 in protected then 0 else 1
  }

  /** Eviction drops the whole excess, or every free entry if there are fewer. */
  lemma {:induction false} EvictedSize(cache: Chunks, protected: set<Key>, excess: int)
    ensures |Evicted(cache, protected, excess)|
         == |cache| - (if excess <= 0 then 0 else if excess <= CountFree(cache, protected) then excess
                       else CountFree(cache, protected))
  {
    if cache != [] && excess > 0 {
      EvictedSize(cache[1..], protected, if cache[0].0 in protected then excess else excess - 1);
    }
  }

  ghost predicate Kept(cache: Chunks, key: Key) {
    exists i :: 0 <= i < |cache| && cache[i].0 == key
  }

  /** Only the least recently used go: whatever stands behind a kept free entry is kept. */
  lemma {:induction false} OldestGoFirst(cache: Chunks, protected: set<Key>, excess: int, i: nat, j: nat)
    requires Unique(cache) && i < j < |cache|
    requires cache[i].0 !in protected && Kept(Evicted(cache, protected, excess), cache[i].0)
    ensures Kept(Evicted(cache, protected, excess), cache[j].0)
  {
    var r := Evicted(cache, protected, excess);
    if excess <= 0 {
      assert r[j].0 == cache[j].0;
    } else if cache[0].0 in protected {
      var rest := Evicted(cache[1..], protected, excess);
      var p :| 0 <= p < |r| && r[p].0 == cache[i].0;
      assert p > 0 && rest[p - 1].0 == cache[1..][i - 1].0;
      OldestGoFirst(cache[1..], protected, excess, i - 1, j - 1);
      var q :| 0 <= q < |rest| && rest[q].0 == cache[1..][j - 1].0;
      assert r[q + 1].0 == cache[j].0;
    } else {
      EvictedKeeps(cache[1..], protected, excess - 1);
      var p :| 0 <= p < |r| && r[p].0 == cache[i].0;
      assert r[p] in cache[1..];
      var t :| 0 <= t < |cache[1..]| && cache[1..][t] == r[p];
      assert cache[t + 1].0 == cache[i].0;
      OldestGoFirst(cache[1..], protected, excess - 1, i - 1, j - 1);
    }
  }

  lemma {:induction false} AllFreeGone(cache: Chunks, protected: set<Key>, excess: int)
    requires excess > CountFree(cache, protected)
    ensures forall i :: 0 <= i < |Evicted(cache, protected, excess)| ==>
      Evicted(cache, protected, excess)[i].0 in protected
  {
    if cache != [] {
      AllFreeGone(cache[1..], protected, if cache[0].0 in protected then excess else excess - 1);
    }
  }

  /**
   Eviction ends at or under 96 chunks unless only needed keys and keys in flight remain, it never
   drops more than it must, and nothing but the cache changes.
   */
  lemma EvictionReachesCap(s: State, needed: set<Key>)
    ensures var after := AfterEvict(s, needed);
      && (|after.cache| <= 96 || forall i :: 0 <= i < |after.cache| ==> after.cache[i].0 in needed + s.inflight)
      && (|after.cache| >= 96 || after == s)
      && after == s.(cache := after.cache)
  {
    EvictedStops(s.cache, needed + s.inflight, |s.cache| - CACHE_MAX_CHUNKS);
    EvictedSize(s.cache, needed + s.inflight, |s.cache| - CACHE_MAX_CHUNKS);
    if |AfterEvict(s, needed).cache| > CACHE_MAX_CHUNKS {
      AllFreeGone(s.cache, needed + s.inflight, |s.cache| - CACHE_MAX_CHUNKS);
    }
  }

  // ----- Runs

  /**
   Over every run at most four requests are in flight, one per key; cached keys are
   distinct; and the entry a request in flight found is exactly the one still cached.
   */
  lemma {:induction false} RunsStaySound(steps: seq<Step>)
    requires Run(steps).Some?
    ensures Sound(Run(steps).value)
  {
    hide Sound, AfterTouch, AfterEvict, AfterPump, AfterLand;
    EmptyIsSound();
    if steps != [] {
      var s, step := Run(steps[..|steps| - 1]).value, steps[|steps| - 1];
      RunsStaySound(steps[..|steps| - 1]);
      match step
      case Touch(key) => TouchIsSound(s, key);
      case Evict(needed) => EvictIsSound(s, needed);
      case Pump(keys, w) => PumpIsSound(s, keys, FETCH_PARALLEL - |s.inflight|, w);
      case Land(key, response, now) => LandIsSound(s, key, response, now);
    }
  }

  /**
   In every reachable state a 304 changes nothing but the fetch time of the one entry still cached,
   in its place.
   */
  lemma NotModifiedRefreshesCached(s: State, key: Key, now: int)
    requires Sound(s) && key in s.flights && s.flights[key].Some?
    ensures var after := AfterLand(s, key, NotModified, now);
      && |after.cache| == |s.cache|
      && forall i :: 0 <= i < |s.cache| ==>
           after.cache[i] == if s.cache[i].0 == key then (key, s.cache[i].1.(fetchedAt := now)) else s.cache[i]
  {
    SetInPlace(s.cache, key, s.flights[key].value.(fetchedAt := now));
    forall i | 0 <= i < |s.cache| && s.cache[i].0 == key ensures s.cache[i].1 == s.flights[key].value {
      GetAt(s.cache, i);
    }
  }

  // ----- A landing

  /** Nothing else changes when a request for `key` ends: not another chunk, not another failure count. */
  ghost predicate OthersStay(s: State, after: State, key: Key) {
    && after.inflight == s.inflight - {key} && after.flights == s.flights - {key}
    && (forall k :: k != key ==> Get(after.cache, k) == Get(s.cache, k))
    && after.failures - {key} == s.failures - {key}
  }

  /** What the key holds after the response, how many deliveries were numbered, and that its failures are gone. */
  ghost predicate Holds(s: State, after: State, key: Key, chunk: Chunk, versions: nat) {
    Get(after.cache, key) == Some(chunk) && after.versions == versions && key !in after.failures
  }

  /** The cache is as it was and the key has one failure more. */
  ghost predicate FailsOnce(s: State, after: State, key: Key) {
    && after.cache == s.cache && after.versions == s.versions
    && key in after.failures && after.failures[key] == (if key in s.failures then s.failures[key] else 0) + 1
  }

  /**
   What each way a request can end leaves behind. A delivery is cached as it came, under a new version
   number; a 304 keeps what is cached and renews its time, or fails if nothing is cached; a failure keeps all.
   */
  lemma LandingMeans(s: State, key: Key, response: Response, now: int)
    requires Sound(s) && key in s.inflight
    ensures var after, held := AfterLand(s, key, response, now), Get(s.cache, key);
      && OthersStay(s, after, key)
      && (match response
          case Delivered(content, etag) =>
            Holds(s, after, key, Chunk(content, etag, now, s.versions + 1), s.versions + 1)
          case NotModified =>
            (match held
             case Some(c) => Holds(s, after, key, Chunk(c.content, c.etag, now, c.version), s.versions)
             case None => FailsOnce(s, after, key))
          case Failed => FailsOnce(s, after, key))
  {
    hide Get, Set, Unique, Sound, OthersStay, Holds, FailsOnce;
    FoundIsCached(s, key);
    var after := AfterLand(s, key, response, now);
    match response {
      case Delivered(content, etag) =>
        Stored(s, after, key, Chunk(content, etag, now, s.versions + 1));
      case NotModified =>
        if s.flights[key].Some? {
          Stored(s, after, key, s.flights[key].value.(fetchedAt := now));
        } else {
          Failing(s, after, key);
        }
      case Failed => Failing(s, after, key);
    }
  }

  lemma FoundIsCached(s: State, key: Key)
    requires Sound(s) && key in s.inflight
    ensures Unique(s.cache) && key in s.flights && s.flights[key] == Get(s.cache, key)
  {
  }

  lemma Stored(s: State, after: State, key: Key, chunk: Chunk)
    requires Unique(s.cache) && key in s.flights
    requires after.cache == Set(s.cache, key, chunk) && after.failures == s.failures - {key}
    requires after.inflight == s.inflight - {key} && after.flights == s.flights - {key}
    ensures OthersStay(s, after, key) && Holds(s, after, key, chunk, after.versions)
  {
    hide Get, Set, Unique;
    SetMeans(s.cache, key, chunk);
  }

  lemma Failing(s: State, after: State, key: Key)
    requires key in s.flights
    requires after == s.(inflight := s.inflight - {key}, flights := s.flights - {key},
                         failures := CountFailure(s.failures, key))
    ensures OthersStay(s, after, key) && FailsOnce(s, after, key)
  {
  }

  // ----- The pump

  /** A missing or expired key, not in flight and not waiting for a retry. */
  ghost predicate Startable(s: State, key: Key, w: Window) {
    (Get(s.cache, key).None? || key in w.expired) && key !in s.inflight && key !in w.blocked
  }

  lemma DueIsStartable(s: State, w: Window)
    ensures forall k :: Due(s, k, w) <==> Startable(s, k, w)
  {
  }

  lemma FetchKeepsDue(s: State, key: Key, other: Key, w: Window)
    requires Sound(s)
    ensures Due(AfterTouch(s, key), other, w) == Due(s, other, w)
    ensures Due(AfterFetch(s, key, w.usable), other, w) == (Due(s, other, w) && (w.usable ==> other != key))
    ensures AfterTouch(s, key).inflight == s.inflight
    ensures AfterFetch(s, key, w.usable).inflight == if w.usable then s.inflight + {key} else s.inflight
  {
    TouchKeepsChunks(s.cache, key);
  }

  /**
   What the pump did with its slots: it started startable keys only, those among the first `m` it looked at
   and all of them, and stopped before the last key only for want of a slot.
   */
  ghost predicate Filled(s: State, after: State, keys: seq<Key>, slots: int, w: Window, m: nat) {
    && m <= |keys| && |after.inflight| <= |s.inflight| + slots
    && (forall k :: k in after.inflight <==> k in s.inflight || (w.usable && k in keys[..m] && Startable(s, k, w)))
    && (m < |keys| ==> |after.inflight| == |s.inflight| + slots || (!w.usable && after.inflight == s.inflight))
  }

  lemma FetchKeepsStartable(s: State, key: Key, w: Window)
    requires Sound(s)
    ensures var touched := AfterTouch(s, key); var next := AfterFetch(touched, key, w.usable);
      && touched.inflight == s.inflight
      && next.inflight == (if w.usable then s.inflight + {key} else s.inflight)
      && forall k ::
           && (Startable(touched, k, w) <==> Startable(s, k, w))
           && (Startable(next, k, w) <==> Startable(s, k, w) && (w.usable ==> k != key))
  {
    hide Sound, Due, AfterTouch, AfterFetch, Startable;
    TouchIsSound(s, key);
    var touched := AfterTouch(s, key);
    var next := AfterFetch(touched, key, w.usable);
    DueIsStartable(s, w);
    DueIsStartable(touched, w);
    DueIsStartable(next, w);
    forall k ensures Due(touched, k, w) == Due(s, k, w)
      ensures Due(next, k, w) == (Due(s, k, w) && (w.usable ==> k != key))
    {
      FetchKeepsDue(s, key, k, w);
      FetchKeepsDue(touched, key, k, w);
    }
    FetchKeepsDue(s, key, key, w);
    FetchKeepsDue(touched, key, key, w);
  }

  /**
   The pump starts requests only for keys of the window that are missing or expired, not in flight
   and not waiting for a retry, the earlier keys first; when paths can be made no such key is left waiting
   while a slot is free, and when they cannot nothing starts.
   */
  lemma {:induction false} PumpFillsSlots(s: State, keys: seq<Key>, slots: int, w: Window)
    requires Sound(s) && 0 <= slots <= 4 - |s.inflight|
    ensures exists m: nat :: Filled(s, AfterPump(s, keys, slots, w), keys, slots, w, m)
    decreases |keys|
  {
    hide Sound, Due, AfterTouch, AfterFetch, AfterPump, Startable;
    PumpUnfolds(s, keys, slots, w);
    var after := AfterPump(s, keys, slots, w);
    if keys == [] || slots <= 0 {
      assert Filled(s, after, keys, slots, w, 0);
    } else {
      var key, rest, touched := keys[0], keys[1..], AfterTouch(s, keys[0]);
      TouchIsSound(s, key);
      FetchKeepsStartable(s, key, w);
      DueIsStartable(touched, w);
      var due := Due(touched, key, w);
      var next := if due then AfterFetch(touched, key, w.usable) else touched;
      if due {
        DueIsFree(touched, key, w);
        FetchIsSound(touched, key, w.usable);
      }
      PumpFillsSlots(next, rest, if due then slots - 1 else slots, w);
      var m: nat :| Filled(next, after, rest, if due then slots - 1 else slots, w, m);
      assert keys[..m + 1] == [key] + rest[..m];
      assert Filled(s, after, keys, slots, w, m + 1);
    }
  }

  /** The pump changes no chunk, no failure count and no version, and each request remembers what is cached. */
  ghost predicate OnlyStarts(s: State, after: State) {
    && (forall k :: Get(after.cache, k) == Get(s.cache, k))
    && after.failures == s.failures && after.versions == s.versions
    && after.flights.Keys == after.inflight && forall k :: k in after.flights ==> after.flights[k] == Get(s.cache, k)
  }

  lemma {:induction false} PumpOnlyStarts(s: State, keys: seq<Key>, slots: int, w: Window)
    requires Sound(s) && 0 <= slots <= 4 - |s.inflight|
    ensures OnlyStarts(s, AfterPump(s, keys, slots, w))
    decreases |keys|
  {
    hide Sound, Due, AfterTouch, AfterFetch, AfterPump;
    PumpUnfolds(s, keys, slots, w);
    FlightsRemember(s);
    if keys != [] && slots > 0 {
      var key, rest, touched := keys[0], keys[1..], AfterTouch(s, keys[0]);
      TouchIsSound(s, key);
      StartOnlyStarts(s, key, w);
      if Due(touched, key, w) {
        DueIsFree(touched, key, w);
        FetchIsSound(touched, key, w.usable);
        PumpOnlyStarts(AfterFetch(touched, key, w.usable), rest, slots - 1, w);
      } else {
        PumpOnlyStarts(touched, rest, slots, w);
      }
    }
  }

  lemma FlightsRemember(s: State)
    requires Sound(s)
    ensures OnlyStarts(s, s)
  {
  }

  lemma StartOnlyStarts(s: State, key: Key, w: Window)
    requires Sound(s)
    ensures var touched := AfterTouch(s, key); var next := AfterFetch(touched, key, w.usable);
      && (forall k :: Get(touched.cache, k) == Get(s.cache, k) == Get(next.cache, k))
      && touched.failures == s.failures == next.failures && touched.versions == s.versions == next.versions
  {
    TouchKeepsChunks(s.cache, key);
    TouchKeepsChunks(Touched(s.cache, key), key);
  }
}
