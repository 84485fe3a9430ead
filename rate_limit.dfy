/** The fixed-window rate limiter of `src/lib/rate-limit.ts`: a table from
    client identifier to `{count, resetAt}`. The clock (`Date.now()`, in
    milliseconds) is the parameter `now`; the periodic cleanup timer is
    replaced by calling `Cleanup` explicitly. */
module RateLimit {
  import opened Wrappers
  import Strings

  const DEFAULT_LIMIT: int := 100
  const DEFAULT_WINDOW_SECONDS: int := 60

  datatype Entry = Entry(count: int, resetAt: int)

  /** What `check` answers. */
  datatype Decision = Decision(allowed: bool, remaining: int, resetAt: int)

  /** A table together with a decision. */
  datatype Outcome = Outcome(store: map<string, Entry>, decision: Decision)

  /** The entry for `id` exists and its window has not ended at `now`
      (`resetAt` itself still belongs to the window). */
  predicate Live(store: map<string, Entry>, id: string, now: int) {
    id in store && !(now > store[id].resetAt)
  }

  /** The specification of one `check(id, limit, windowSeconds)` at `now`:
      the new table and the answer. */
  function CheckStep(store: map<string, Entry>, id: string, limit: int, windowSeconds: int, now: int): Outcome {
    if !Live(store, id, now) then
      var resetAt := now + windowSeconds * 1000;
      Outcome(store[id := Entry(1, resetAt)], Decision(true, limit - 1, resetAt))
    else if store[id].count >= limit then
      Outcome(store, Decision(false, 0, store[id].resetAt))
    else
      var count := store[id].count + 1;
      Outcome(store[id := Entry(count, store[id].resetAt)], Decision(true, limit - count, store[id].resetAt))
  }

  /** The three branches of `check`, stated one by one. */
  lemma {:induction false} CheckCases(store: map<string, Entry>, id: string, limit: int, windowSeconds: int, now: int)
    ensures var o := CheckStep(store, id, limit, windowSeconds, now);
      !Live(store, id, now) ==>
        o.store[id] == Entry(1, now + windowSeconds * 1000)
        && o.decision == Decision(true, limit - 1, now + windowSeconds * 1000)
    ensures var o := CheckStep(store, id, limit, windowSeconds, now);
      Live(store, id, now) && store[id].count >= limit ==>
        o.store == store && o.decision == Decision(false, 0, store[id].resetAt)
    ensures var o := CheckStep(store, id, limit, windowSeconds, now);
      Live(store, id, now) && store[id].count < limit ==>
        o.store[id].count == store[id].count + 1 && o.store[id].resetAt == store[id].resetAt
        && o.decision == Decision(true, limit - o.store[id].count, store[id].resetAt)
  {
  }

  /** `check` reads and writes only its own identifier's entry. */
  lemma {:induction false} CheckFrame(store: map<string, Entry>, id: string, limit: int, windowSeconds: int, now: int)
    ensures var o := CheckStep(store, id, limit, windowSeconds, now);
      id in o.store && forall k :: k != id ==> (k in o.store <==> k in store) && (k in store ==> o.store[k] == store[k])
  {
  }

  /** Every stored count lies between 1 and `limit`. */
  predicate Bounded(store: map<string, Entry>, limit: int) {
    forall k :: k in store ==> 1 <= store[k].count <= limit
  }

  /** For `limit >= 1` the bound on counts is kept, and so `remaining` is
      never negative. */
  lemma {:induction false} CheckKeepsBound(store: map<string, Entry>, id: string, limit: int, windowSeconds: int, now: int)
    requires limit >= 1 && Bounded(store, limit)
    ensures Bounded(CheckStep(store, id, limit, windowSeconds, now).store, limit)
    ensures CheckStep(store, id, limit, windowSeconds, now).decision.remaining >= 0
  {
  }

  /** The number of allowed answers for calls with the same identifier at
      the instants `times`, one after the other. */
  function AllowedCount(store: map<string, Entry>, id: string, limit: int, windowSeconds: int, times: seq<int>): nat
    decreases |times|
  {
    if times == [] then 0
    else
      var o := CheckStep(store, id, limit, windowSeconds, times[0]);
      (if o.decision.allowed then 1 else 0) + AllowedCount(o.store, id, limit, windowSeconds, times[1..])
  }

  /** While an entry is live, only `limit - count` more calls are allowed. */
  lemma {:induction false} LiveWindowBound(store: map<string, Entry>, id: string, limit: int, windowSeconds: int, times: seq<int>)
    requires id in store
    requires forall k :: 0 <= k < |times| ==> times[k] <= store[id].resetAt
    ensures AllowedCount(store, id, limit, windowSeconds, times) <= if limit > store[id].count then limit - store[id].count else 0
    decreases |times|
  {
    if times != [] {
      var o := CheckStep(store, id, limit, windowSeconds, times[0]);
      assert o.store[id].resetAt == store[id].resetAt;
      LiveWindowBound(o.store, id, limit, windowSeconds, times[1..]);
    }
  }

  /** Within one window, opened by a call that found no live entry, at most
      `limit` calls for the same identifier are allowed (and exactly one
      when `limit <= 0`: the call that opens the window). */
  lemma {:induction false} AtMostLimitPerWindow(store: map<string, Entry>, id: string, limit: int, windowSeconds: int, times: seq<int>)
    requires |times| >= 1 && !Live(store, id, times[0])
    requires forall k :: 0 <= k < |times| ==> times[k] <= times[0] + windowSeconds * 1000
    ensures AllowedCount(store, id, limit, windowSeconds, times) <= if limit >= 1 then limit else 1
  {
    var o := CheckStep(store, id, limit, windowSeconds, times[0]);
    assert o.store[id] == Entry(1, times[0] + windowSeconds * 1000);
    LiveWindowBound(o.store, id, limit, windowSeconds, times[1..]);
  }

  /** The entries still live at `now`. */
  function Unexpired(store: map<string, Entry>, now: int): map<string, Entry> {
    map k | k in store && !(now > store[k].resetAt) :: store[k]
  }

  /** `forwarded?.split(',')[0] || realIp || 'unknown'`, where `forwarded`
      and `realIp` are the `x-forwarded-for` and `x-real-ip` headers. */
  function ClientIdentifier(forwarded: Option<string>, realIp: Option<string>): (ip: string)
    ensures forwarded.Some? && forwarded.value != [] && forwarded.value[0] != ',' ==>
      ip != [] && ip <= forwarded.value && ',' !in ip && (ip == forwarded.value || forwarded.value[|ip|] == ',')
    ensures (forwarded.None? || forwarded.value == [] || forwarded.value[0] == ',') && realIp.Some? && realIp.value != [] ==>
      ip == realIp.value
    ensures (forwarded.None? || forwarded.value == [] || forwarded.value[0] == ',') && (realIp.None? || realIp.value == []) ==>
      ip == "unknown"
  {
    var first := (match forwarded
      case Some(f) => Strings.SplitFirstPiece(f, ','); Strings.Split(f, ',')[0]
      case None => "");
    if first != "" then first
    else if realIp.Some? && realIp.value != "" then realIp.value
    else "unknown"
  }

  class RateLimiter {
    var store: map<string, Entry>

    constructor()
      ensures store == map[]
    {
      store := map[];
    }

    /** `check(identifier, limit, windowSeconds)` at the instant `now`. */
    method Check(id: string, limit: int, windowSeconds: int, now: int) returns (d: Decision)
      modifies this
      ensures Outcome(store, d) == CheckStep(old(store), id, limit, windowSeconds, now)
    {
      var entry := if id in store then Some(store[id]) else None;
      if entry.None? || now > entry.value.resetAt {
        var resetAt := now + windowSeconds * 1000;
        store := store[id := Entry(1, resetAt)];
        return Decision(true, limit - 1, resetAt);
      }
      if entry.value.count >= limit {
        return Decision(false, 0, entry.value.resetAt);
      }
      var e := entry.value.(count := entry.value.count + 1);
      store := store[id := e];
      d := Decision(true, limit - e.count, e.resetAt);
    }

    /** `reset(identifier)`. */
    method Reset(id: string)
      modifies this
      ensures store == old(store) - {id}
    {
      store := store - {id};
    }

    /** Deletes the given keys one after the other. */
    method DeleteKeys(keys: seq<string>)
      modifies this
      ensures store == map k | k in old(store) && k !in keys :: old(store)[k]
    {
      var i := 0;
      while i < |keys|
        invariant 0 <= i <= |keys|
        invariant store == map k | k in old(store) && k !in keys[..i] :: old(store)[k]
      {
        store := store - {keys[i]};
        assert keys[..i + 1] == keys[..i] + [keys[i]];
        i := i + 1;
      }
      assert keys[..i] == keys;
    }

    /** `cleanup()` at the instant `now`: collects the expired keys, then
        deletes them. Returns how many were deleted. */
    method Cleanup(now: int) returns (removed: nat)
      modifies this
      ensures store == Unexpired(old(store), now)
      ensures removed == |old(store).Keys - store.Keys|
    {
      var keysToDelete: seq<string> := [];
      var pending := store.Keys;
      while pending != {}
        invariant pending <= store.Keys
        invariant store == old(store)
        invariant forall i, j :: 0 <= i < j < |keysToDelete| ==> keysToDelete[i] != keysToDelete[j]
        invariant forall k :: k in keysToDelete <==> k in store.Keys - pending && now > store[k].resetAt
        decreases pending
      {
        var k :| k in pending;
        if now > store[k].resetAt {
          keysToDelete := keysToDelete + [k];
        }
        pending := pending - {k};
      }
      ghost var expired := set k | k in keysToDelete;
      assert expired == old(store).Keys - Unexpired(old(store), now).Keys;
      DeleteKeys(keysToDelete);
      removed := |keysToDelete|;
      DistinctSize(keysToDelete);
    }
  }

  /** A sequence without repetitions has as many elements as its set. */
  lemma {:induction false} DistinctSize(s: seq<string>)
    requires forall i, j :: 0 <= i < j < |s| ==> s[i] != s[j]
    ensures |set k | k in s| == |s|
  {
    if s != [] {
      DistinctSize(s[1..]);
      assert (set k | k in s) == (set k | k in s[1..]) + {s[0]};
      assert s[0] !in s[1..];
    }
  }

  /** `rateLimit(request, options)`: the defaults 100 calls per 60 seconds,
      and the client identifier from the request headers when none is
      given. */
  method RateLimitRequest(limiter: RateLimiter, forwarded: Option<string>, realIp: Option<string>,
                          limit: Option<int>, windowSeconds: Option<int>, identifier: Option<string>, now: int)
    returns (d: Decision)
    modifies limiter
    ensures var id := if identifier.Some? then identifier.value else ClientIdentifier(forwarded, realIp);
      Outcome(limiter.store, d) == CheckStep(old(limiter.store), id, limit.GetOr(DEFAULT_LIMIT), windowSeconds.GetOr(DEFAULT_WINDOW_SECONDS), now)
  {
    var id := if identifier.Some? then identifier.value else ClientIdentifier(forwarded, realIp);
    d := limiter.Check(id, limit.GetOr(DEFAULT_LIMIT), windowSeconds.GetOr(DEFAULT_WINDOW_SECONDS), now);
  }
}
