/** The chunk cache's own operations (`ofl-data.ts`), on the module's maps and sets. */
module ChunkCache {
  import opened Options
  import opened OrderedMap
  import opened ChunkSteps

  lemma EvictStep(kept: Chunks, keys: Chunks, at: nat, protected: set<Key>, excess: int)
    requires at < |keys| && excess > 0
    ensures kept + Evicted(keys[at..], protected, excess)
      == if keys[at].0 in protected then (kept + [keys[at]]) + Evicted(keys[at + 1..], protected, excess)
         else kept + Evicted(keys[at + 1..], protected, excess - 1)
  {
    assert keys[at..][0] == keys[at] && keys[at..][1..] == keys[at + 1..];
  }

  /** The eviction loop: walks the keys in order, dropping what is free until the excess is gone. */
  method DropOldest(keys: Chunks, protected: set<Key>, surplus: nat) returns (kept: Chunks)
    ensures kept == Evicted(keys, protected, surplus)
  {
    hide Evicted;
    var at := 0;
    var excess := surplus;
    kept := [];
    assert keys[0..] == keys;
    while at < |keys| && excess > 0
      invariant 0 <= at <= |keys|
      invariant kept + Evicted(keys[at..], protected, excess) == Evicted(keys, protected, surplus)
    {
      EvictStep(kept, keys, at, protected, excess);
      if keys[at].0 !in protected {
        excess := excess - 1;
      } else {
        kept := kept + [keys[at]];
      }
      at := at + 1;
    }
    EvictedStops(keys[at..], protected, excess);
    assert excess > 0 ==> keys[at..] == [];
    kept := kept + keys[at..];
  }

  class OrderflowCache {
    var cache: Chunks
    var inflight: set<Key>
    var flights: map<Key, Option<Chunk>>
    var failures: map<Key, nat>
    var versions: nat

    function View(): State
      reads this
    {
      State(cache, inflight, flights, failures, versions)
    }

    ghost predicate Valid()
      reads this
    {
      Sound(View())
    }

    constructor ()
      ensures Valid() && View() == EMPTY
    {
      cache, inflight, flights, failures, versions := [], {}, map[], map[], 0;
      new;
      assert View() == EMPTY;
    }

    method TouchChunk(key: Key) returns (held: Option<Chunk>)
      requires Valid()
      modifies this
      ensures Valid() && View() == AfterTouch(old(View()), key)
      ensures held == Get(cache, key) == Get(old(cache), key) && inflight == old(inflight)
    {
      hide Sound, Get, Set, Delete;
      TouchIsSound(View(), key);
      SoundIsUnique(View());
      TouchKeepsChunks(cache, key);
      held := Get(cache, key);
      if held.Some? {
        cache := Delete(cache, key);
        cache := Set(cache, key, held.value);
      }
    }

    method EvictOver(needed: set<Key>)
      requires Valid()
      modifies this
      ensures Valid() && View() == AfterEvict(old(View()), needed)
    {
      hide Sound, Evicted;
      EvictIsSound(View(), needed);
      EvictedStops(cache, needed + inflight, |cache| - CACHE_MAX_CHUNKS);
      if |cache| <= CACHE_MAX_CHUNKS {
        return;
      }
      cache := DropOldest(cache, needed + inflight, |cache| - CACHE_MAX_CHUNKS);
    }

    /** Starts a request unless one is in flight or no path can be made, remembering what the cache holds. */
    method StartFetch(key: Key, usable: bool)
      requires Valid() && (key in inflight || |inflight| < FETCH_PARALLEL)
      modifies this
      ensures Valid() && View() == AfterFetch(old(View()), key, usable)
    {
      if key in inflight {
        return;
      }
      if !usable {
        return;
      }
      FetchIsSound(View(), key, usable);
      ghost var before := View();
      TouchKeepsChunks(cache, key);
      inflight := inflight + {key};
      var held := Get(cache, key);
      if held.Some? {
        cache := Delete(cache, key);
        cache := Set(cache, key, held.value);
      }
      flights := flights[key := held];
      assert View() == AfterFetch(before, key, usable);
    }

    method FinishFetch(key: Key, response: Response, now: int)
      requires Valid() && key in flights
      modifies this
      ensures Valid() && View() == AfterLand(old(View()), key, response, now)
    {
      hide Sound, Set;
      LandIsSound(View(), key, response, now);
      var held := flights[key];
      match response {
        case Delivered(content, etag) =>
          versions := versions + 1;
          cache := Set(cache, key, Chunk(content, etag, now, versions));
          failures := failures - {key};
        case NotModified =>
          if held.Some? {
            cache := Set(cache, key, held.value.(fetchedAt := now));
            failures := failures - {key};
          } else {
            failures := CountFailure(failures, key);
          }
        case Failed =>
          failures := CountFailure(failures, key);
      }
      inflight := inflight - {key};
      flights := flights - {key};
    }

    method PumpWindow(keys: seq<Key>, w: Window)
      requires Valid()
      modifies this
      ensures Valid() && View() == AfterPump(old(View()), keys, FETCH_PARALLEL - |old(inflight)|, w)
    {
      hide Sound, AfterTouch, AfterFetch, AfterPump;
      var slots := FETCH_PARALLEL - |inflight|;
      ghost var goal := AfterPump(View(), keys, slots, w);
      var at := 0;
      assert keys[0..] == keys;
      while at < |keys| && slots > 0
        invariant 0 <= at <= |keys| && Valid() && slots <= FETCH_PARALLEL - |inflight|
        invariant AfterPump(View(), keys[at..], slots, w) == goal
      {
        assert keys[at..][0] == keys[at] && keys[at..][1..] == keys[at + 1..];
        PumpUnfolds(View(), keys[at..], slots, w);
        var held := TouchChunk(keys[at]);
        if (held == None || keys[at] in w.expired) && keys[at] !in inflight && keys[at] !in w.blocked {
          FetchIsSound(View(), keys[at], w.usable);
          slots := slots - 1;
          StartFetch(keys[at], w.usable);
        }
        at := at + 1;
      }
      PumpUnfolds(View(), keys[at..], slots, w);
    }
  }
}
