/**
 The in-memory rate limiter: a map from client identifier to a request
 count and the instant its window started. Although described as a sliding
 window, the algorithm is a fixed window that restarts at the instant of the
 first check after it has run out: a stale window is reset to count 0 with
 `windowStart = now`, then the check either rejects without counting or
 counts the request. The clock is a parameter.
 */
module RateLimit {

  /** The default of `checkRateLimit`'s limit parameter. The model always
      passes the limit explicitly; the signup handler passes its own 5. */
  const DefaultLimit: int := 5
  /** One minute; also the age the periodic cleanup uses for every record. */
  const DefaultWindowMs: int := 60 * 1000

  datatype RequestRecord = RequestRecord(count: nat, windowStart: int)

  type RateStore = map<string, RequestRecord>

  datatype RateLimitResult = RateLimitResult(allowed: bool, remaining: int, resetAt: int, limit: int)

  /** A decision together with the store as the check leaves it. */
  datatype Checked = Checked(result: RateLimitResult, store: RateStore)

  /** A record whose window has run out at `now`. */
  predicate IsStale(rec: RequestRecord, windowMs: int, now: int) {
    now - rec.windowStart >= windowMs
  }

  /** The record a check decides on: a new `{0, now}` record for an unseen
      identifier, a `{0, now}` reset for a stale one, the stored one
      otherwise. */
  function CurrentWindow(store: RateStore, id: string, windowMs: int, now: int): (rec: RequestRecord)
    ensures id !in store || IsStale(store[id], windowMs, now) ==> rec == RequestRecord(0, now)
    ensures id in store && !IsStale(store[id], windowMs, now) ==> rec == store[id]
  {
    var rec := if id in store then store[id] else RequestRecord(0, now);
    if IsStale(rec, windowMs, now) then RequestRecord(0, now) else rec
  }

  /** `checkRateLimit(id, limit, windowMs)` at instant `now`. */
  function CheckRateLimit(store: RateStore, id: string, limit: int, windowMs: int, now: int): (r: Checked)
    // afterwards a record for `id` exists, and no other record changed
    ensures id in r.store
    ensures r.store.Keys == store.Keys + {id}
    ensures forall other :: other in store && other != id ==> r.store[other] == store[other]
    // an unseen or stale window restarts at `now`, not at the old window's end
    ensures r.store[id].windowStart == CurrentWindow(store, id, windowMs, now).windowStart
    ensures id !in store || IsStale(store[id], windowMs, now) ==> r.store[id].windowStart == now
    // admitted exactly while the (possibly reset) count is under the limit
    ensures r.result.allowed <==> CurrentWindow(store, id, windowMs, now).count < limit
    ensures !r.result.allowed ==> r.result.remaining == 0 && r.store[id].count == CurrentWindow(store, id, windowMs, now).count
    ensures r.result.allowed ==>
      r.store[id].count == CurrentWindow(store, id, windowMs, now).count + 1 &&
      r.result.remaining == limit - r.store[id].count
    ensures r.result.remaining >= 0
    ensures r.result.resetAt == r.store[id].windowStart + windowMs
    ensures r.result.limit == limit
  {
    var rec := CurrentWindow(store, id, windowMs, now);
    var resetAt := rec.windowStart + windowMs;
    if rec.count >= limit then
      Checked(RateLimitResult(false, 0, resetAt, limit), store[id := rec])
    else
      var counted := rec.(count := rec.count + 1);
      Checked(RateLimitResult(true, limit - counted.count, resetAt, limit), store[id := counted])
  }

  /** `getRateLimitStatus`: the same staleness test as a check, reading the
      store only (the store is not an output). */
  function GetRateLimitStatus(store: RateStore, id: string, limit: int, windowMs: int, now: int): (r: RateLimitResult)
    ensures id !in store || IsStale(store[id], windowMs, now) ==>
      r == RateLimitResult(true, limit, now + windowMs, limit)
    ensures id in store && !IsStale(store[id], windowMs, now) ==>
      && r.remaining == (if limit - store[id].count > 0 then limit - store[id].count else 0)
      && (r.allowed <==> r.remaining > 0)
      && r.resetAt == store[id].windowStart + windowMs
      && r.limit == limit
  {
    if id !in store then RateLimitResult(true, limit, now + windowMs, limit)
    else
      var rec := store[id];
      if IsStale(rec, windowMs, now) then RateLimitResult(true, limit, now + windowMs, limit)
      else
        var remaining := if 0 > limit - rec.count then 0 else limit - rec.count;
        RateLimitResult(remaining > 0, remaining, rec.windowStart + windowMs, limit)
  }

  /** `resetRateLimit`: removes only that identifier's record. */
  function ResetRateLimit(store: RateStore, id: string): (r: RateStore)
    ensures id !in r
    ensures r.Keys == store.Keys - {id}
    ensures forall other :: other in r ==> r[other] == store[other]
  {
    store - {id}
  }

  /** After a reset the identifier starts afresh: its next check is
      admitted with the full budget less one and a window opened at that
      instant, exactly as for an identifier never seen. */
  lemma ResetStartsFresh(store: RateStore, id: string, limit: int, windowMs: int, now: int)
    requires limit > 0
    ensures var c := CheckRateLimit(ResetRateLimit(store, id), id, limit, windowMs, now);
            && c.result == RateLimitResult(true, limit - 1, now + windowMs, limit)
            && c.store[id] == RequestRecord(1, now)
            && c.result == CheckRateLimit(map[], id, limit, windowMs, now).result
  {
  }

  /** Resetting twice is resetting once. */
  lemma ResetIsIdempotent(store: RateStore, id: string)
    ensures ResetRateLimit(ResetRateLimit(store, id), id) == ResetRateLimit(store, id)
  {
  }

  function ClearAllRateLimits(): (r: RateStore)
    ensures |r| == 0
  {
    map[]
  }

  /** Body of the periodic cleanup: drops the records whose window started
      more than `DefaultWindowMs` before `now`, whatever window the checks
      used. */
  function CleanupStaleRecords(store: RateStore, now: int): (r: RateStore)
    ensures forall id :: id in r <==> id in store && !(store[id].windowStart < now - DefaultWindowMs)
    ensures forall id :: id in r ==> r[id] == store[id]
  {
    map id | id in store && store[id].windowStart >= now - DefaultWindowMs :: store[id]
  }

  /** Sum of the counts of all records. */
  ghost function TotalCount(store: RateStore): nat
    decreases |store|
  {
    if store == map[] then 0
    else
      var id :| id in store;
      store[id].count + TotalCount(store - {id})
  }

  /** `TotalCount` may take the records in any order. */
  lemma {:induction false} TotalCountRemove(store: RateStore, id: string)
    requires id in store
    ensures TotalCount(store) == store[id].count + TotalCount(store - {id})
    decreases |store|
  {
    var first :| first in store && TotalCount(store) == store[first].count + TotalCount(store - {first});
    if first != id {
      var rest := store - {first};
      TotalCountRemove(rest, id);
      TotalCountRemove(store - {id}, first);
      assert rest - {id} == (store - {id}) - {first};
    }
  }

  /** `getRateLimitStats`: the number of identifiers and the sum of their
      counts. */
  method GetRateLimitStats(store: RateStore) returns (totalIdentifiers: nat, totalRequests: nat)
    ensures totalIdentifiers == |store|
    ensures totalRequests == TotalCount(store)
  {
    totalRequests := 0;
    var todo := store;
    while todo != map[]
      invariant totalRequests + TotalCount(todo) == TotalCount(store)
      decreases |todo|
    {
      var id :| id in todo;
      TotalCountRemove(todo, id);
      totalRequests := totalRequests + todo[id].count;
      todo := todo - {id};
    }
    totalIdentifiers := |store|;
  }

  // ---------------------------------------------------------------------
  // Properties across several calls

  /** A run of checks on one identifier with one limit and window, at the
      given instants in order. */
  datatype Run = Run(results: seq<RateLimitResult>, store: RateStore)

  function RunChecks(store: RateStore, id: string, limit: int, windowMs: int, times: seq<int>): (r: Run)
    ensures |r.results| == |times|
    ensures times != [] ==> id in r.store
  {
    if times == [] then Run([], store)
    else
      var before := RunChecks(store, id, limit, windowMs, times[..|times| - 1]);
      var c := CheckRateLimit(before.store, id, limit, windowMs, times[|times| - 1]);
      Run(before.results + [c.result], c.store)
  }

  /** A run of checks on one identifier leaves every other record as it was. */
  lemma {:induction false} RunIsolates(store: RateStore, id: string, limit: int, windowMs: int, times: seq<int>)
    ensures var r := RunChecks(store, id, limit, windowMs, times);
            && (forall other :: other != id ==> (other in r.store <==> other in store))
            && forall other :: other in store && other != id ==> r.store[other] == store[other]
  {
    if times != [] {
      RunIsolates(store, id, limit, windowMs, times[..|times| - 1]);
    }
  }

  /** With the same non-negative limit on every call, an identifier's count
      never exceeds it, whatever the instants. */
  lemma {:induction false} CountNeverExceedsLimit(store: RateStore, id: string, limit: int, windowMs: int, times: seq<int>)
    requires limit >= 0
    requires id in store ==> store[id].count <= limit
    ensures var r := RunChecks(store, id, limit, windowMs, times);
            id in r.store ==> r.store[id].count <= limit
  {
    if times != [] {
      CountNeverExceedsLimit(store, id, limit, windowMs, times[..|times| - 1]);
    }
  }

  /** From an unseen identifier or a stale window, checks that all fall inside the window
      opened by the first one report remaining `limit - 1`, ..., `0` and
      then rejections, all with the same reset instant. */
  lemma {:induction false} BurstWithinWindow(store: RateStore, id: string, limit: int, windowMs: int, times: seq<int>)
    requires times != [] && (id !in store || IsStale(store[id], windowMs, times[0]))
    requires limit >= 0 && windowMs > 0
    requires forall i :: 0 <= i < |times| ==> times[i] - times[0] < windowMs
    ensures var r := RunChecks(store, id, limit, windowMs, times);
            && r.store[id] == RequestRecord(if |times| < limit then |times| else limit, times[0])
            && forall i :: 0 <= i < |times| ==>
                 && r.results[i].allowed == (i < limit)
                 && r.results[i].remaining == (if i < limit then limit - 1 - i else 0)
                 && r.results[i].resetAt == times[0] + windowMs
  {
    var n := |times|;
    var r := RunChecks(store, id, limit, windowMs, times);
    if n > 1 {
      var prefix := times[..n - 1];
      assert forall i :: 0 <= i < |prefix| ==> prefix[i] == times[i];
      BurstWithinWindow(store, id, limit, windowMs, prefix);
      var before := RunChecks(store, id, limit, windowMs, prefix);
      assert r.results == before.results + [CheckRateLimit(before.store, id, limit, windowMs, times[n - 1]).result];
    }
  }

  /** Identifiers are independent: checks on `a` leave the answer a check on
      `b` gets unchanged. */
  lemma CheckIsolatesIdentifiers(store: RateStore, a: string, b: string, limitA: int, windowA: int, nowA: int, limitB: int, windowB: int, nowB: int)
    requires a != b
    ensures var afterA := CheckRateLimit(store, a, limitA, windowA, nowA).store;
            CheckRateLimit(afterA, b, limitB, windowB, nowB).result == CheckRateLimit(store, b, limitB, windowB, nowB).result
  {
    var afterA := CheckRateLimit(store, a, limitA, windowA, nowA).store;
    assert CurrentWindow(afterA, b, windowB, nowB) == CurrentWindow(store, b, windowB, nowB);
  }

  /** Once a window has run out, the full budget is available again. */
  lemma StaleWindowRestoresBudget(store: RateStore, id: string, limit: int, windowMs: int, now: int)
    requires id in store && IsStale(store[id], windowMs, now) && limit > 0
    ensures var r := CheckRateLimit(store, id, limit, windowMs, now);
            r.result.allowed && r.result.remaining == limit - 1 && r.result.resetAt == now + windowMs
  {
  }

  /** A status read predicts the next check at the same instant: same
      decision and reset instant, and a check that admits has one less
      remaining. The reported status never changes the store. */
  lemma StatusPredictsCheck(store: RateStore, id: string, limit: int, windowMs: int, now: int)
    requires limit > 0
    ensures var s := GetRateLimitStatus(store, id, limit, windowMs, now);
            var c := CheckRateLimit(store, id, limit, windowMs, now).result;
            && s.allowed == c.allowed
            && s.resetAt == c.resetAt
            && (c.allowed ==> c.remaining == s.remaining - 1)
  {
  }

  /** The cleanup is invisible to checks that use a window no longer than the
      default, made at or after the cleanup instant. */
  lemma CleanupInvisibleToDefaultWindow(store: RateStore, id: string, limit: int, windowMs: int, sweptAt: int, now: int)
    requires windowMs <= DefaultWindowMs && sweptAt <= now
    ensures CheckRateLimit(CleanupStaleRecords(store, sweptAt), id, limit, windowMs, now).result
         == CheckRateLimit(store, id, limit, windowMs, now).result
  {
    var swept := CleanupStaleRecords(store, sweptAt);
    assert CurrentWindow(swept, id, windowMs, now) == CurrentWindow(store, id, windowMs, now);
  }

  /** With a window longer than the default, the cleanup can delete a live
      record and hand back a spent budget: here a client that used its 5
      requests gets a 6th in the same 2-minute window. */
  lemma CleanupForgetsLongWindow()
    ensures var store := map["client" := RequestRecord(5, 0)];
            && !CheckRateLimit(store, "client", 5, 120000, 70000).result.allowed
            && CheckRateLimit(CleanupStaleRecords(store, 70000), "client", 5, 120000, 70000).result.allowed
  {
    var store := map["client" := RequestRecord(5, 0)];
    assert CleanupStaleRecords(store, 70000) == map[];
  }

  /** Running two batches in turn is running them together. */
  lemma {:induction false} RunAppend(store: RateStore, id: string, limit: int, windowMs: int, a: seq<int>, b: seq<int>)
    ensures var ra := RunChecks(store, id, limit, windowMs, a);
            var rb := RunChecks(ra.store, id, limit, windowMs, b);
            RunChecks(store, id, limit, windowMs, a + b) == Run(ra.results + rb.results, rb.store)
  {
    if b == [] {
      assert a + b == a;
    } else {
      var b', t := b[..|b| - 1], b[|b| - 1];
      var ra := RunChecks(store, id, limit, windowMs, a);
      var rb' := RunChecks(ra.store, id, limit, windowMs, b');
      var c := CheckRateLimit(rb'.store, id, limit, windowMs, t);
      calc {
        RunChecks(store, id, limit, windowMs, a + b);
        { assert a + b == (a + b') + [t]; RunStep(store, id, limit, windowMs, a + b', t); RunAppend(store, id, limit, windowMs, a, b'); }
        Run((ra.results + rb'.results) + [c.result], c.store);
        { assert (ra.results + rb'.results) + [c.result] == ra.results + (rb'.results + [c.result]); }
        Run(ra.results + (rb'.results + [c.result]), c.store);
        { assert b == b' + [t]; RunStep(ra.store, id, limit, windowMs, b', t); }
        Run(ra.results + RunChecks(ra.store, id, limit, windowMs, b).results, RunChecks(ra.store, id, limit, windowMs, b).store);
      }
    }
  }

  /** One more check at the end of a run. */
  lemma RunStep(store: RateStore, id: string, limit: int, windowMs: int, xs: seq<int>, t: int)
    ensures var before := RunChecks(store, id, limit, windowMs, xs);
            var c := CheckRateLimit(before.store, id, limit, windowMs, t);
            RunChecks(store, id, limit, windowMs, xs + [t]) == Run(before.results + [c.result], c.store)
  {
    assert (xs + [t])[..|xs|] == xs;
  }

  /** The fixed window admits twice the limit across a window boundary: a
      full batch inside the window opened by its first request, then a second
      full batch from the instant that window ends, are all admitted. With
      the signup figures, requests at 0 and 59999 (four times) followed by
      five at 60000 all pass: nine of them within one millisecond. */
  lemma BoundaryBurst(store: RateStore, id: string, limit: int, windowMs: int, a: seq<int>, b: seq<int>)
    requires id !in store && limit > 0 && windowMs > 0
    requires |a| == limit && |b| == limit
    requires forall i :: 0 <= i < |a| ==> a[i] - a[0] < windowMs
    requires b[0] - a[0] >= windowMs
    requires forall i :: 0 <= i < |b| ==> b[i] - b[0] < windowMs
    ensures var r := RunChecks(store, id, limit, windowMs, a + b);
            |r.results| == 2 * limit && forall i :: 0 <= i < 2 * limit ==> r.results[i].allowed
  {
    BurstWithinWindow(store, id, limit, windowMs, a);
    var ra := RunChecks(store, id, limit, windowMs, a);
    BurstWithinWindow(ra.store, id, limit, windowMs, b);
    var rb := RunChecks(ra.store, id, limit, windowMs, b);
    RunAppend(store, id, limit, windowMs, a, b);
    AllAllowedConcat(ra.results, rb.results);
  }

  lemma AllAllowedConcat(x: seq<RateLimitResult>, y: seq<RateLimitResult>)
    requires forall i :: 0 <= i < |x| ==> x[i].allowed
    requires forall i :: 0 <= i < |y| ==> y[i].allowed
    ensures forall i :: 0 <= i < |x + y| ==> (x + y)[i].allowed
  {
  }
}
