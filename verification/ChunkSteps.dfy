/**
 The order-flow chunk cache (`ofl-data.ts`) as a state machine: a least-recently-used map of
 chunks, the set of requests in flight, conditional refetching by entity tag, and eviction.
 Every step runs to completion before the next: the browser has one thread.
 */
module ChunkSteps {
  import opened Options
  import opened OrderedMap

  const CACHE_MAX_CHUNKS: nat := 96
  const FETCH_PARALLEL: nat := 4

  type Key = string

  /** What one fetch left behind; `content` stands for the replayed columns and their meta data. */
  datatype Chunk = Chunk(content: int, etag: string, fetchedAt: int, version: nat)

  type Chunks = Entries<Key, Chunk>

  /** How a request ends. A network failure or an unreadable body is `Failed`. */
  datatype Response = NotModified | Delivered(content: int, etag: string) | Failed

  // ----- The least-recently-used order

  /** Taking a chunk moves it to the end. */
  function Touched(cache: Chunks, key: Key): Chunks {
    match Get(cache, key)
    case None => cache
    case Some(held) => Set(Delete(cache, key), key, held)
  }

  /** Drops unprotected entries from the front until `excess` are gone. */
  function Evicted(cache: Chunks, protected: set<Key>, excess: int): Chunks {
    if cache == [] || excess <= 0 then cache
    else if cache[0].0 in protected then [cache[0]] + Evicted(cache[1..], protected, excess)
    else Evicted(cache[1..], protected, excess - 1)
  }

  /** Touching changes only the order: the chunk goes last, everything is still there. */
  lemma TouchKeepsChunks(cache: Chunks, key: Key)
    requires Unique(cache)
    ensures Unique(Touched(cache, key)) && |Touched(cache, key)| == |cache|
    ensures forall k :: Get(Touched(cache, key), k) == Get(cache, k)
    ensures Get(cache, key).Some? ==> Touched(cache, key) == Delete(cache, key) + [(key, Get(cache, key).value)]
  {
    if Get(cache, key).Some? {
      DeleteMeans(cache, key);
      SetMeans(Delete(cache, key), key, Get(cache, key).value);
      SetFreshAppends(Delete(cache, key), key, Get(cache, key).value);
      GetFinds(Delete(cache, key), key);
    }
  }

  lemma {:induction false} EvictedKeeps(cache: Chunks, protected: set<Key>, excess: int)
    requires Unique(cache)
    ensures Unique(Evicted(cache, protected, excess))
    ensures forall i :: 0 <= i < |Evicted(cache, protected, excess)| ==> Evicted(cache, protected, excess)[i] in cache
    ensures forall k :: k in protected ==> Get(Evicted(cache, protected, excess), k) == Get(cache, k)
  {
    if cache != [] && excess > 0 {
      var rest := Evicted(cache[1..], protected, if cache[0].0 in protected then excess else excess - 1);
      EvictedKeeps(cache[1..], protected, if cache[0].0 in protected then excess else excess - 1);
      assert cache == [cache[0]] + cache[1..];
      forall i | 0 <= i < |rest| ensures rest[i].0 != cache[0].0 {
        var j :| 0 <= j < |cache[1..]| && cache[1..][j] == rest[i];
        assert cache[j + 1].0 != cache[0].0;
      }
    }
  }

  lemma EvictedStops(cache: Chunks, protected: set<Key>, excess: int)
    ensures cache == [] || excess <= 0 ==> Evicted(cache, protected, excess) == cache
  {
  }

  // ----- The state and its steps

  /** `flights` remembers what each request in flight found in the cache when it started. */
  datatype State = State(
    cache: Chunks, inflight: set<Key>, flights: map<Key, Option<Chunk>>, failures: map<Key, nat>, versions: nat)

  const EMPTY := State([], {}, map[], map[], 0)

  /** A window's keys that have expired, those that must wait for a retry, and whether a path can be made. */
  datatype Window = Window(expired: set<Key>, blocked: set<Key>, usable: bool)

  datatype Step =
    | Touch(key: Key)
    | Evict(needed: set<Key>)
    | Pump(keys: seq<Key>, w: Window)
    | Land(key: Key, response: Response, now: int)

  function AfterTouch(s: State, key: Key): State { s.(cache := Touched(s.cache, key)) }

  function AfterEvict(s: State, needed: set<Key>): State {
    s.(cache := Evicted(s.cache, needed + s.inflight, |s.cache| - CACHE_MAX_CHUNKS))
  }

  /** Nothing starts for a key in flight or when no path can be made. */
  function AfterFetch(s: State, key: Key, usable: bool): State {
    if key in s.inflight || !usable then s
    else
      s.(cache := Touched(s.cache, key), inflight := s.inflight + {key},
         flights := s.flights[key := Get(s.cache, key)])
  }

  function CountFailure(failures: map<Key, nat>, key: Key): map<Key, nat> {
    failures[key := (if key in failures then failures[key] else 0) + 1]
  }

  /** A 304 refreshes what the request found; with nothing found it counts as a failure. */
  function AfterLand(s: State, key: Key, response: Response, now: int): State
    requires key in s.flights
  {
    var done := s.(inflight := s.inflight - {key}, flights := s.flights - {key});
    match response
    case Delivered(content, etag) =>
      done.(cache := Set(s.cache, key, Chunk(content, etag, now, s.versions + 1)), versions := s.versions + 1,
            failures := s.failures - {key})
    case NotModified =>
      if s.flights[key].Some? then
        done.(cache := Set(s.cache, key, s.flights[key].value.(fetchedAt := now)), failures := s.failures - {key})
      else done.(failures := CountFailure(s.failures, key))
    case Failed => done.(failures := CountFailure(s.failures, key))
  }

  predicate Due(s: State, key: Key, w: Window) {
    (Get(s.cache, key) == None || key in w.expired) && key !in s.inflight && key !in w.blocked
  }

  /** The pump over the window's keys, with `slots` requests still allowed. */
  function AfterPump(s: State, keys: seq<Key>, slots: int, w: Window): State
    decreases |keys|
  {
    if keys == [] || slots <= 0 then s
    else
      var touched := AfterTouch(s, keys[0]);
      if Due(touched, keys[0], w)
      then AfterPump(AfterFetch(touched, keys[0], w.usable), keys[1..], slots - 1, w)
      else AfterPump(touched, keys[1..], slots, w)
  }

  predicate Enabled(s: State, step: Step) {
    step.Land? ==> step.key in s.flights
  }

  function Next(s: State, step: Step): State
    requires Enabled(s, step)
  {
    match step
    case Touch(key) => AfterTouch(s, key)
    case Evict(needed) => AfterEvict(s, needed)
    case Pump(keys, w) => AfterPump(s, keys, FETCH_PARALLEL - |s.inflight|, w)
    case Land(key, response, now) => AfterLand(s, key, response, now)
  }

  /** The state after a run; a landing of a request that is not in flight cannot happen. */
  function Run(steps: seq<Step>): Option<State> {
    if steps == [] then Some(EMPTY)
    else
      match Run(steps[..|steps| - 1])
      case None => None
      case Some(s) =>
        var step := steps[|steps| - 1];
        if Enabled(s, step) then Some(Next(s, step)) else None
  }

  /** What every run keeps. */
  ghost predicate Sound(s: State) {
    && Unique(s.cache) && |s.inflight| <= 4 && s.flights.Keys == s.inflight
    && forall key :: key in s.inflight ==> s.flights[key] == Get(s.cache, key)
  }

  lemma TouchIsSound(s: State, key: Key)
    requires Sound(s)
    ensures Sound(AfterTouch(s, key)) && AfterTouch(s, key).inflight == s.inflight
  {
    TouchKeepsChunks(s.cache, key);
  }

  lemma SoundIsUnique(s: State)
    requires Sound(s)
    ensures Unique(s.cache)
  {
  }

  lemma EvictIsSound(s: State, needed: set<Key>)
    requires Sound(s)
    ensures Sound(AfterEvict(s, needed))
  {
    EvictedKeeps(s.cache, needed + s.inflight, |s.cache| - CACHE_MAX_CHUNKS);
  }

  lemma FetchIsSound(s: State, key: Key, usable: bool)
    requires Sound(s) && key !in s.inflight && |s.inflight| < FETCH_PARALLEL
    ensures Sound(AfterFetch(s, key, usable))
    ensures |AfterFetch(s, key, usable).inflight| == |s.inflight| + if usable then 1 else 0
  {
    TouchKeepsChunks(s.cache, key);
  }

  lemma LandedIsSound(s: State, next: State, key: Key)
    requires Sound(s) && key in s.flights && Unique(next.cache)
    requires next.inflight == s.inflight - {key} && next.flights == s.flights - {key}
    requires forall k :: k != key ==> Get(next.cache, k) == Get(s.cache, k)
    ensures Sound(next)
  {
    hide Get, Unique;
    assert next.flights.Keys == s.flights.Keys - {key};
    assert |next.inflight| <= |s.inflight|;
  }

  lemma LandIsSound(s: State, key: Key, response: Response, now: int)
    requires Sound(s) && key in s.flights
    ensures Sound(AfterLand(s, key, response, now))
  {
    hide Set, Get, Sound, Unique;
    SoundIsUnique(s);
    match response {
      case Delivered(content, etag) => SetMeans(s.cache, key, Chunk(content, etag, now, s.versions + 1));
      case NotModified =>
        if s.flights[key].Some? {
          SetMeans(s.cache, key, s.flights[key].value.(fetchedAt := now));
        }
      case Failed =>
    }
    LandedIsSound(s, AfterLand(s, key, response, now), key);
  }

  lemma PumpUnfolds(s: State, keys: seq<Key>, slots: int, w: Window)
    ensures keys == [] || slots <= 0 ==> AfterPump(s, keys, slots, w) == s
    ensures keys != [] && slots > 0 && Due(AfterTouch(s, keys[0]), keys[0], w) ==>
      AfterPump(s, keys, slots, w)
        == AfterPump(AfterFetch(AfterTouch(s, keys[0]), keys[0], w.usable), keys[1..], slots - 1, w)
    ensures keys != [] && slots > 0 && !Due(AfterTouch(s, keys[0]), keys[0], w) ==>
      AfterPump(s, keys, slots, w)
        == AfterPump(AfterTouch(s, keys[0]), keys[1..], slots, w)
  {
    hide Due, AfterTouch, AfterFetch;
  }

  lemma DueIsFree(s: State, key: Key, w: Window)
    requires Due(s, key, w)
    ensures key !in s.inflight
  {
  }

  lemma {:induction false} PumpIsSound(s: State, keys: seq<Key>, slots: int, w: Window)
    requires Sound(s) && slots <= FETCH_PARALLEL - |s.inflight|
    ensures Sound(AfterPump(s, keys, slots, w))
    decreases |keys|
  {
    hide Sound, Due, AfterTouch, AfterFetch, AfterPump;
    PumpUnfolds(s, keys, slots, w);
    if keys != [] && slots > 0 {
      var touched := AfterTouch(s, keys[0]);
      TouchIsSound(s, keys[0]);
      if Due(touched, keys[0], w) {
        DueIsFree(touched, keys[0], w);
        FetchIsSound(touched, keys[0], w.usable);
        PumpIsSound(AfterFetch(touched, keys[0], w.usable), keys[1..], slots - 1, w);
      } else {
        PumpIsSound(touched, keys[1..], slots, w);
      }
    }
  }

  lemma EmptyIsSound()
    ensures Sound(EMPTY)
  {
  }
}
