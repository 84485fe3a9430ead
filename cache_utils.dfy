/** The in-memory TTL cache of `src/lib/cache-utils.ts`: a table from key to
    `{value, expiresAt}`, the read-through `getCached` and pattern
    invalidation. The clock (`Date.now()`, in milliseconds) is the parameter
    `now`; the periodic cleanup timer is replaced by calling `Cleanup`
    explicitly. Values are JavaScript values. */
module CacheUtils {
  import opened Wrappers
  import Json
  import Strings

  const DEFAULT_TTL_SECONDS: int := 3600

  datatype CacheEntry = CacheEntry(value: Json.Value, expiresAt: int)

  /** The entry for `key` exists and has not expired at `now`. */
  predicate Live(store: map<string, CacheEntry>, key: string, now: int) {
    key in store && !(now > store[key].expiresAt)
  }

  /** What `get(key)` answers at `now`. */
  function Lookup(store: map<string, CacheEntry>, key: string, now: int): (v: Json.Value)
    ensures !Live(store, key, now) ==> v == Json.Null
    ensures Live(store, key, now) ==> v == store[key].value
  {
    if key !in store then Json.Null
    else if now > store[key].expiresAt then Json.Null
    else store[key].value
  }

  /** The table after `get(key)` or `has(key)` at `now`: an expired entry
      for `key` is deleted, nothing else changes. */
  function AfterLookup(store: map<string, CacheEntry>, key: string, now: int): (r: map<string, CacheEntry>)
    ensures key in store && now > store[key].expiresAt ==> r == store - {key}
    ensures !(key in store && now > store[key].expiresAt) ==> r == store
  {
    if key in store && now > store[key].expiresAt then store - {key} else store
  }

  /** The table after `set(key, value, ttlSeconds)` at `now`. */
  function Put(store: map<string, CacheEntry>, key: string, value: Json.Value, ttlSeconds: int, now: int): map<string, CacheEntry> {
    store[key := CacheEntry(value, now + ttlSeconds * 1000)]
  }

  /** Reading a key at the instant it was set, with a non-negative time to
      live, gives the value just set, whatever was stored before. */
  lemma {:induction false} SetThenGet(store: map<string, CacheEntry>, key: string, value: Json.Value, ttlSeconds: int, now: int)
    requires ttlSeconds >= 0
    ensures Lookup(Put(store, key, value, ttlSeconds, now), key, now) == value
    ensures AfterLookup(Put(store, key, value, ttlSeconds, now), key, now) == Put(store, key, value, ttlSeconds, now)
  {
  }

  /** A lookup never returns the value of an expired entry, and never
      deletes a live one. */
  lemma {:induction false} ExpiredNeverReturned(store: map<string, CacheEntry>, key: string, now: int)
    ensures Lookup(store, key, now) != Json.Null ==> Live(store, key, now)
    ensures forall k :: Live(store, k, now) ==> Live(AfterLookup(store, key, now), k, now)
  {
  }

  /** The entries still live at `now`. */
  function Unexpired(store: map<string, CacheEntry>, now: int): map<string, CacheEntry> {
    map k | k in store && !(now > store[k].expiresAt) :: store[k]
  }

  /** JavaScript's line terminators, which `.` in a regular expression does
      not match. */
  predicate IsLineTerminator(c: char) {
    c == '\n' || c == '\r' || c == '\U{2028}' || c == '\U{2029}'
  }

  predicate NoLineTerminator(s: string) {
    forall k :: 0 <= k < |s| ==> !IsLineTerminator(s[k])
  }

  /** The regular expression made of the literal pieces `segs` joined by
      `.*` matches `key` with its first piece starting at `p`. */
  predicate MatchesAt(segs: seq<string>, key: string, p: int)
    requires |segs| >= 1
    decreases |segs|
  {
    Strings.OccursAt(key, segs[0], p)
    && (|segs| == 1
        || exists q | p + |segs[0]| <= q <= |key| ::
             NoLineTerminator(key[p + |segs[0]|..q]) && MatchesAt(segs[1..], key, q))
  }

  /** `new RegExp(pattern.replace(/\*\/g, '.*')).test(key)`, reading the
      text between the stars literally. */
  predicate PatternMatches(pattern: string, key: string) {
    var segs := Strings.Split(pattern, '*');
    exists p | 0 <= p <= |key| :: MatchesAt(segs, key, p)
  }

  /** The common form `prefix*` matches exactly the keys that contain
      `prefix` (the test is not anchored). */
  lemma {:induction false} PrefixPatternMatches(prefix: string, key: string)
    requires '*' !in prefix
    ensures PatternMatches(prefix + "*", key) <==> Strings.Contains(key, prefix)
  {
    Strings.SplitJoin([prefix, ""], '*');
    assert Strings.Join([prefix, ""], "*") == prefix + "*";
    var segs := [prefix, ""];
    assert Strings.Split(prefix + "*", '*') == segs;
    if Strings.Contains(key, prefix) {
      var i :| 0 <= i <= |key| - |prefix| && Strings.OccursAt(key, prefix, i);
      var q := i + |prefix|;
      assert key[q..q] == [];
      assert MatchesAt(segs[1..], key, q);
      assert MatchesAt(segs, key, i);
    }
    if PatternMatches(prefix + "*", key) {
      var p :| 0 <= p <= |key| && MatchesAt(segs, key, p);
      assert Strings.OccursAt(key, prefix, p);
    }
  }

  class Cache {
    var store: map<string, CacheEntry>

    constructor()
      ensures store == map[]
    {
      store := map[];
    }

    /** `set(key, value, ttlSeconds = 3600)` at `now`: stores the value
        until `now + ttlSeconds * 1000`, replacing any earlier entry; `None`
        is the omitted argument. */
    method Set(key: string, value: Json.Value, ttlSeconds: Option<int>, now: int)
      modifies this
      ensures store == Put(old(store), key, value, ttlSeconds.GetOr(DEFAULT_TTL_SECONDS), now)
      ensures ttlSeconds.None? ==> store[key] == CacheEntry(value, now + 3600 * 1000)
      ensures ttlSeconds.Some? ==> store[key] == CacheEntry(value, now + ttlSeconds.value * 1000)
      ensures forall k :: k != key ==> (k in store <==> k in old(store)) && (k in old(store) ==> store[k] == old(store)[k])
    {
      var ttl := ttlSeconds.GetOr(DEFAULT_TTL_SECONDS);
      var expiresAt := now + ttl * 1000;
      store := store[key := CacheEntry(value, expiresAt)];
    }

    /** `get(key)` at `now`: null for a missing or expired key, deleting
        the expired entry; the stored value otherwise. */
    method Get(key: string, now: int) returns (v: Json.Value)
      modifies this
      ensures v == Lookup(old(store), key, now)
      ensures store == AfterLookup(old(store), key, now)
    {
      if key !in store {
        return Json.Null;
      }
      var entry := store[key];
      if now > entry.expiresAt {
        store := store - {key};
        return Json.Null;
      }
      v := entry.value;
    }

    /** `has(key)` at `now`: true exactly for a live entry, with the same
        deletion of an expired entry as `get`. */
    method Has(key: string, now: int) returns (b: bool)
      modifies this
      ensures b == Live(old(store), key, now)
      ensures store == AfterLookup(old(store), key, now)
    {
      if key !in store {
        return false;
      }
      var entry := store[key];
      if now > entry.expiresAt {
        store := store - {key};
        return false;
      }
      b := true;
    }

    /** `delete(key)`. */
    method Delete(key: string)
      modifies this
      ensures store == old(store) - {key}
    {
      store := store - {key};
    }

    /** `clear()`. */
    method Clear()
      modifies this
      ensures store == map[]
    {
      store := map[];
    }

    /** `cleanup()` at `now`: collects the expired keys, then deletes them. */
    method Cleanup(now: int)
      modifies this
      ensures store == Unexpired(old(store), now)
    {
      var keysToDelete: seq<string> := [];
      var pending := store.Keys;
      while pending != {}
        invariant pending <= store.Keys
        invariant store == old(store)
        invariant forall k :: k in keysToDelete <==> k in store.Keys - pending && now > store[k].expiresAt
        decreases pending
      {
        var k :| k in pending;
        if now > store[k].expiresAt {
          keysToDelete := keysToDelete + [k];
        }
        pending := pending - {k};
      }
      var i := 0;
      while i < |keysToDelete|
        invariant 0 <= i <= |keysToDelete|
        invariant store == map k | k in old(store) && k !in keysToDelete[..i] :: old(store)[k]
      {
        Delete(keysToDelete[i]);
        assert keysToDelete[..i + 1] == keysToDelete[..i] + [keysToDelete[i]];
        i := i + 1;
      }
      assert keysToDelete[..i] == keysToDelete;
    }
  }

  /** `getCached(key, fetcher, ttlSeconds = 3600)`: `fetched` is what the
      fetcher resolves to and `nowAfterFetch` the clock when it has;
      `fetcherCalled` tells whether the fetcher ran. Any value other than
      `null` (`undefined` included) read from the cache is a hit. */
  method GetCached(cache: Cache, key: string, fetched: Json.Value, ttlSeconds: Option<int>, now: int, nowAfterFetch: int)
    returns (value: Json.Value, fetcherCalled: bool)
    modifies cache
    ensures fetcherCalled <==> Lookup(old(cache.store), key, now) == Json.Null
    ensures !fetcherCalled ==> value == old(cache.store)[key].value && cache.store == old(cache.store)
    ensures fetcherCalled ==> value == fetched
    ensures fetcherCalled ==> cache.store == Put(old(cache.store), key, fetched, ttlSeconds.GetOr(DEFAULT_TTL_SECONDS), nowAfterFetch)
  {
    var cached := cache.Get(key, now);
    if cached != Json.Null {
      return cached, false;
    }
    value := fetched;
    cache.Set(key, value, ttlSeconds, nowAfterFetch);
    fetcherCalled := true;
  }

  /** `invalidateCache(keyOrPattern)`: with a '*' every key the pattern
      matches is deleted, otherwise exactly the given key. */
  method InvalidateCache(cache: Cache, keyOrPattern: string)
    modifies cache
    ensures '*' in keyOrPattern ==>
      cache.store == map k | k in old(cache.store) && !PatternMatches(keyOrPattern, k) :: old(cache.store)[k]
    ensures '*' !in keyOrPattern ==> cache.store == old(cache.store) - {keyOrPattern}
  {
    if '*' in keyOrPattern {
      var pending := cache.store.Keys;
      while pending != {}
        invariant pending <= old(cache.store).Keys
        invariant cache.store == map k | k in old(cache.store) && (k in pending || !PatternMatches(keyOrPattern, k)) :: old(cache.store)[k]
        decreases pending
      {
        var key :| key in pending;
        if PatternMatches(keyOrPattern, key) {
          cache.Delete(key);
        }
        pending := pending - {key};
      }
    } else {
      cache.Delete(keyOrPattern);
    }
  }
}
