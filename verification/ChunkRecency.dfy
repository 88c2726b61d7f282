/**
 The order of the cache is the order of last use, over every run; so eviction drops what was used
 least recently.
 */
module ChunkRecency {
  import opened Options
  import opened OrderedMap
  import opened ChunkSteps
  import opened ChunkTheory

  // ----- What a step uses

  /** Taking a chunk uses it if it is held. */
  function Use(cache: Chunks, key: Key): seq<Key> {
    if Get(cache, key).Some? then [key] else []
  }

  /** The pump takes each key it looks at, and a request it starts takes the key again. */
  function PumpUses(s: State, keys: seq<Key>, slots: int, w: Window): seq<Key>
    decreases |keys|
  {
    if keys == [] || slots <= 0 then []
    else
      var touched := AfterTouch(s, keys[0]);
      Use(s.cache, keys[0])
      + if Due(touched, keys[0], w)
        then (if w.usable then Use(touched.cache, keys[0]) else [])
             + PumpUses(AfterFetch(touched, keys[0], w.usable), keys[1..], slots - 1, w)
        else PumpUses(touched, keys[1..], slots, w)
  }

  /** A landing uses a key only by inserting it: a chunk still held is replaced where it stands. */
  function LandUses(s: State, key: Key, response: Response): seq<Key>
    requires key in s.flights
  {
    if (response.Delivered? || (response.NotModified? && s.flights[key].Some?)) && Get(s.cache, key).None?
    then [key] else []
  }

  function Uses(s: State, step: Step): seq<Key>
    requires Enabled(s, step)
  {
    match step
    case Touch(key) => Use(s.cache, key)
    case Evict(_) => []
    case Pump(keys, w) => PumpUses(s, keys, FETCH_PARALLEL - |s.inflight|, w)
    case Land(key, response, _) => LandUses(s, key, response)
  }

  /** All uses of a run, oldest first. */
  function Log(steps: seq<Step>): seq<Key>
    requires Run(steps).Some?
  {
    if steps == [] then []
    else
      var front := steps[..|steps| - 1];
      Log(front) + Uses(Run(front).value, steps[|steps| - 1])
  }

  /** When the key was last used, or -1. */
  function LastUse(log: seq<Key>, key: Key): (at: int)
    ensures -1 <= at < |log|
  {
    if log == [] then -1
    else if log[|log| - 1] == key then |log| - 1 else LastUse(log[..|log| - 1], key)
  }

  // ----- The order of the cache

  ghost predicate ByRecency(cache: Chunks, log: seq<Key>) {
    && (forall i :: 0 <= i < |cache| ==> LastUse(log, cache[i].0) >= 0)
    && (forall i, j :: 0 <= i < j < |cache| ==> LastUse(log, cache[i].0) < LastUse(log, cache[j].0))
  }

  lemma UseSnoc(log: seq<Key>, key: Key, k: Key)
    ensures LastUse(log + [key], k) == if k == key then |log| else LastUse(log, k)
  {
    assert (log + [key])[..|log|] == log;
  }

  lemma RecencyCons(first: (Key, Chunk), tail: Chunks, rest: Chunks, log: seq<Key>)
    requires ByRecency([first] + tail, log) && ByRecency(rest, log)
    requires forall i :: 0 <= i < |rest| ==> rest[i] in tail
    ensures ByRecency([first] + rest, log)
  {
    hide LastUse;
    var all := [first] + tail;
    forall i | 0 <= i < |rest| ensures LastUse(log, first.0) < LastUse(log, rest[i].0) {
      var j :| 0 <= j < |tail| && tail[j] == rest[i];
      assert all[j + 1] == tail[j] && all[0] == first;
    }
    assert LastUse(log, all[0].0) >= 0;
  }

  lemma RecencyTail(cache: Chunks, log: seq<Key>)
    requires ByRecency(cache, log) && cache != []
    ensures ByRecency(cache[1..], log) && cache == [cache[0]] + cache[1..]
  {
  }

  lemma {:induction false} RecencyDelete(cache: Chunks, log: seq<Key>, key: Key)
    requires ByRecency(cache, log) && Unique(cache)
    ensures ByRecency(Delete(cache, key), log)
  {
    if cache != [] {
      hide ByRecency;
      RecencyTail(cache, log);
      if cache[0].0 != key {
        RecencyDelete(cache[1..], log, key);
        DeleteMeans(cache[1..], key);
        RecencyCons(cache[0], cache[1..], Delete(cache[1..], key), log);
      }
    }
  }

  lemma {:induction false} RecencyEvict(cache: Chunks, log: seq<Key>, protected: set<Key>, excess: int)
    requires ByRecency(cache, log) && Unique(cache)
    ensures ByRecency(Evicted(cache, protected, excess), log)
  {
    if cache != [] && excess > 0 {
      hide ByRecency;
      RecencyTail(cache, log);
      if cache[0].0 in protected {
        RecencyEvict(cache[1..], log, protected, excess);
        EvictedKeeps(cache[1..], protected, excess);
        RecencyCons(cache[0], cache[1..], Evicted(cache[1..], protected, excess), log);
      } else {
        RecencyEvict(cache[1..], log, protected, excess - 1);
      }
    }
  }

  /** A key not held goes last, used last. */
  lemma RecencyAppend(cache: Chunks, log: seq<Key>, key: Key, chunk: Chunk)
    requires ByRecency(cache, log) && forall i :: 0 <= i < |cache| ==> cache[i].0 != key
    ensures ByRecency(cache + [(key, chunk)], log + [key])
  {
    hide LastUse;
    var all := cache + [(key, chunk)];
    forall i | 0 <= i < |all|
      ensures LastUse(log + [key], all[i].0) == if i < |cache| then LastUse(log, cache[i].0) else |log|
    {
      UseSnoc(log, key, all[i].0);
    }
  }

  lemma TouchRecency(cache: Chunks, log: seq<Key>, key: Key)
    requires ByRecency(cache, log) && Unique(cache)
    ensures ByRecency(Touched(cache, key), log + Use(cache, key)) && Unique(Touched(cache, key))
  {
    hide ByRecency, Unique, Get, Set, Delete;
    TouchKeepsChunks(cache, key);
    if Get(cache, key).Some? {
      RecencyDelete(cache, log, key);
      DeleteMeans(cache, key);
      RecencyAppend(Delete(cache, key), log, key, Get(cache, key).value);
    } else {
      assert log + [] == log;
    }
  }

  /** Storing a chunk keeps the place of a held key and appends a new one. */
  lemma StoreRecency(cache: Chunks, log: seq<Key>, key: Key, chunk: Chunk)
    requires ByRecency(cache, log) && Unique(cache)
    ensures ByRecency(Set(cache, key, chunk), log + if Get(cache, key).None? then [key] else [])
  {
    hide LastUse;
    if Get(cache, key).Some? {
      SetInPlace(cache, key, chunk);
      assert log + [] == log;
    } else {
      GetFinds(cache, key);
      SetFreshAppends(cache, key, chunk);
      RecencyAppend(cache, log, key, chunk);
    }
  }

  lemma FetchRecency(s: State, log: seq<Key>, key: Key, usable: bool)
    requires ByRecency(s.cache, log) && Unique(s.cache) && key !in s.inflight
    ensures ByRecency(AfterFetch(s, key, usable).cache, log + if usable then Use(s.cache, key) else [])
  {
    hide ByRecency, Unique, Use, Touched;
    TouchRecency(s.cache, log, key);
    assert log + [] == log;
  }

  lemma PumpUsesUnfold(s: State, keys: seq<Key>, slots: int, w: Window)
    ensures keys == [] || slots <= 0 ==> PumpUses(s, keys, slots, w) == []
    ensures keys != [] && slots > 0 && Due(AfterTouch(s, keys[0]), keys[0], w) ==>
      var touched := AfterTouch(s, keys[0]);
      PumpUses(s, keys, slots, w)
        == Use(s.cache, keys[0]) + ((if w.usable then Use(touched.cache, keys[0]) else [])
           + PumpUses(AfterFetch(touched, keys[0], w.usable), keys[1..], slots - 1, w))
    ensures keys != [] && slots > 0 && !Due(AfterTouch(s, keys[0]), keys[0], w) ==>
      PumpUses(s, keys, slots, w)
        == Use(s.cache, keys[0]) + PumpUses(AfterTouch(s, keys[0]), keys[1..], slots, w)
  {
    hide Due, AfterTouch, AfterFetch, Use;
  }

  lemma {:induction false} PumpRecency(s: State, log: seq<Key>, keys: seq<Key>, slots: int, w: Window)
    requires ByRecency(s.cache, log) && Sound(s) && slots <= FETCH_PARALLEL - |s.inflight|
    ensures ByRecency(AfterPump(s, keys, slots, w).cache, log + PumpUses(s, keys, slots, w))
    decreases |keys|
  {
    hide ByRecency, Sound, Unique, Due, AfterFetch, AfterPump, PumpUses, Use, Touched;
    PumpUnfolds(s, keys, slots, w);
    PumpUsesUnfold(s, keys, slots, w);
    if keys == [] || slots <= 0 {
      assert log + [] == log;
    } else {
      var key, touched := keys[0], AfterTouch(s, keys[0]);
      var used := log + Use(s.cache, key);
      SoundIsUnique(s);
      TouchRecency(s.cache, log, key);
      TouchIsSound(s, key);
      if Due(touched, key, w) {
        var again := if w.usable then Use(touched.cache, key) else [];
        var rest := PumpUses(AfterFetch(touched, key, w.usable), keys[1..], slots - 1, w);
        DueIsFree(touched, key, w);
        FetchIsSound(touched, key, w.usable);
        FetchRecency(touched, used, key, w.usable);
        PumpRecency(AfterFetch(touched, key, w.usable), used + again, keys[1..], slots - 1, w);
        assert (used + again) + rest == log + (Use(s.cache, key) + (again + rest));
      } else {
        PumpRecency(touched, used, keys[1..], slots, w);
        assert used + PumpUses(touched, keys[1..], slots, w)
            == log + (Use(s.cache, key) + PumpUses(touched, keys[1..], slots, w));
      }
    }
  }

  lemma LandRecency(s: State, log: seq<Key>, key: Key, response: Response, now: int)
    requires ByRecency(s.cache, log) && Unique(s.cache) && key in s.flights
    ensures ByRecency(AfterLand(s, key, response, now).cache, log + LandUses(s, key, response))
  {
    hide ByRecency, Unique, Get, Set;
    assert log + [] == log;
    match response {
      case Delivered(content, etag) => StoreRecency(s.cache, log, key, Chunk(content, etag, now, s.versions + 1));
      case NotModified =>
        if s.flights[key].Some? {
          StoreRecency(s.cache, log, key, s.flights[key].value.(fetchedAt := now));
        }
      case Failed =>
    }
  }

  lemma NothingUsed()
    ensures ByRecency(EMPTY.cache, [])
  {
  }

  /** Over every run the cache lists its chunks in the order of their last use. */
  lemma {:induction false} CacheIsByRecency(steps: seq<Step>)
    requires Run(steps).Some?
    ensures ByRecency(Run(steps).value.cache, Log(steps))
  {
    hide ByRecency, Sound, AfterPump, AfterLand, PumpUses, LandUses, Touched, Use, Evicted;
    NothingUsed();
    if steps != [] {
      var front := steps[..|steps| - 1];
      var s, step := Run(front).value, steps[|steps| - 1];
      CacheIsByRecency(front);
      RunsStaySound(front);
      SoundIsUnique(s);
      match step {
        case Touch(key) => TouchRecency(s.cache, Log(front), key);
        case Evict(needed) =>
          RecencyEvict(s.cache, Log(front), needed + s.inflight, |s.cache| - CACHE_MAX_CHUNKS);
          assert Log(front) + [] == Log(front);
        case Pump(keys, w) => PumpRecency(s, Log(front), keys, FETCH_PARALLEL - |s.inflight|, w);
        case Land(key, response, now) => LandRecency(s, Log(front), key, response, now);
      }
    }
  }

  // ----- Eviction

  lemma HeldAt(cache: Chunks, key: Key) returns (i: nat)
    requires Get(cache, key).Some?
    ensures i < |cache| && cache[i].0 == key
  {
    GetFinds(cache, key);
    i :| 0 <= i < |cache| && cache[i].0 == key;
  }

  /**
   Eviction drops the least recently used: after any run, if a chunk that nothing protects is kept, so
   is every chunk used later than it.
   */
  lemma EvictionFollowsUse(steps: seq<Step>, needed: set<Key>, a: Key, b: Key)
    requires Run(steps).Some?
    ensures var s := Run(steps).value; var after := AfterEvict(s, needed);
      Get(s.cache, a).Some? && Get(s.cache, b).Some? && a !in needed + s.inflight
      && LastUse(Log(steps), a) < LastUse(Log(steps), b) && Get(after.cache, a).Some?
      ==> Get(after.cache, b).Some?
  {
    hide Get, LastUse, Log, Run, Evicted, Sound;
    var s := Run(steps).value;
    var after, protected := AfterEvict(s, needed), needed + s.inflight;
    if Get(s.cache, a).Some? && Get(s.cache, b).Some? && a !in protected
       && LastUse(Log(steps), a) < LastUse(Log(steps), b) && Get(after.cache, a).Some?
    {
      CacheIsByRecency(steps);
      RunsStaySound(steps);
      SoundIsUnique(s);
      var i := HeldAt(s.cache, a);
      var j := HeldAt(s.cache, b);
      var k := HeldAt(after.cache, a);
      OldestGoFirst(s.cache, protected, |s.cache| - CACHE_MAX_CHUNKS, i, j);
      GetFinds(after.cache, b);
    }
  }
}
