/**
 The rate limiter itself (index.js:2-47). A process-wide store maps each key to
 the log of timestamps of the requests it allowed. `rateLimiter({duration,
 maxRequests})` builds a middleware over that one shared store; on every request
 the middleware derives the key, evicts the timestamps that left the trailing
 window, and either denies the request with the time left until the oldest
 surviving timestamp leaves the window, or records the request and lets it pass.
 Time is in milliseconds and is handed in as `now`.
 */
module Limiter {
  import opened SlidingWindow
  import opened ClientKey

  /** What the middleware does with a request: pass it on (`next()`), or
      answer 429 with the number of milliseconds to wait. */
  datatype Decision = Allow | Deny(retryAfter: int)

  /** The options given to `rateLimiter`. */
  datatype Config = Config(duration: int, maxRequests: int)

  /** The contents of the shared request store: key to timestamp log. */
  type Logs = map<string, seq<int>>

  /** The log kept for `key`, with a missing entry read as empty. */
  function LogOf(logs: Logs, key: string): seq<int>
  {
    if key in logs then logs[key] else []
  }

  /** The store after one request and the decision taken for it. */
  datatype Outcome = Outcome(logs: Logs, decision: Decision)

  /** One request for `key` at time `now`, as a function of the store: the
      specification that RateLimiter.Handle implements. Only the entry of the
      request's key is created or reassigned, and a denial always asks for a
      positive wait. StepDecides and StepLogContents say what the key's new log
      and the decision are. */
  function Step(logs: Logs, cfg: Config, key: string, now: int): (out: Outcome)
    requires cfg.maxRequests >= 1
    ensures out.logs.Keys == logs.Keys + {key}
    ensures forall k :: k in logs && k != key ==> out.logs[k] == logs[k]
    ensures out.decision.Deny? ==> out.decision.retryAfter > 0
  {
    var kept := Evict(LogOf(logs, key), now - cfg.duration);
    if |kept| >= cfg.maxRequests then
      assert kept[0] in kept;
      Outcome(logs[key := kept], Deny(cfg.duration - (now - kept[0])))
    else
      Outcome(logs[key := kept + [now]], Allow)
  }

  /** The request is denied exactly when the log, after eviction, already holds
      `maxRequests` entries; eviction is applied on both paths; a denial leaves
      `now` out of the log and an admission appends it at the end. */
  lemma StepDecides(logs: Logs, cfg: Config, key: string, now: int)
    requires cfg.maxRequests >= 1
    ensures var kept := Evict(LogOf(logs, key), now - cfg.duration);
            var out := Step(logs, cfg, key, now);
      && (out.decision.Deny? <==> |kept| >= cfg.maxRequests)
      && (out.decision.Deny? ==> LogOf(out.logs, key) == kept)
      && (out.decision.Allow? ==>
            LogOf(out.logs, key) == kept + [now] && |LogOf(out.logs, key)| <= cfg.maxRequests)
  {
    var kept := Evict(LogOf(logs, key), now - cfg.duration);
    var out := Step(logs, cfg, key, now);
    if |kept| >= cfg.maxRequests {
      assert out.logs == logs[key := kept];
    } else {
      assert out.logs == logs[key := kept + [now]];
    }
  }

  /** After the request, the key's log is exactly its earlier entries that are
      still strictly inside the window, in their order, plus `now` if allowed. */
  lemma StepLogContents(logs: Logs, cfg: Config, key: string, now: int, t: int)
    requires cfg.maxRequests >= 1
    ensures var out := Step(logs, cfg, key, now);
      t in LogOf(out.logs, key) <==>
        (t in LogOf(logs, key) && t > now - cfg.duration) || (out.decision.Allow? && t == now)
  {
  }

  /** The wait handed back on a denial is positive, counts from the oldest
      surviving timestamp, and is at most the window when that timestamp is not
      in the future. */
  lemma DenyRetryAfter(logs: Logs, cfg: Config, key: string, now: int)
    requires cfg.maxRequests >= 1
    requires Step(logs, cfg, key, now).decision.Deny?
    ensures var out := Step(logs, cfg, key, now);
            var oldest := LogOf(out.logs, key)[0];
      && out.decision.retryAfter == cfg.duration - (now - oldest)
      && out.decision.retryAfter > 0
      && (oldest <= now ==> out.decision.retryAfter <= cfg.duration)
  {
    var kept := Evict(LogOf(logs, key), now - cfg.duration);
    assert kept[0] in kept;
  }

  /** Two denials at the same instant: the second sees the same log, leaves the
      store as it is and gives the same wait. */
  lemma DenyRepeats(logs: Logs, cfg: Config, key: string, now: int)
    requires cfg.maxRequests >= 1
    requires Step(logs, cfg, key, now).decision.Deny?
    ensures var first := Step(logs, cfg, key, now);
            var second := Step(first.logs, cfg, key, now);
      && second.decision == first.decision
      && second.logs == first.logs
  {
    var kept := Evict(LogOf(logs, key), now - cfg.duration);
    var first := Step(logs, cfg, key, now);
    assert first.logs == logs[key := kept];
    assert LogOf(first.logs, key) == kept;
    EvictIdempotent(LogOf(logs, key), now - cfg.duration);
    assert first.logs[key := kept] == first.logs;
  }

  /** Retrying after the advised wait succeeds: once the log holds no more than
      `maxRequests` entries in the window (the invariant that Traces.RunBounded
      keeps), a request exactly `retryAfter` later is allowed, because the
      oldest timestamp has then left the window. */
  lemma RetryAfterSuffices(logs: Logs, cfg: Config, key: string, now: int)
    requires cfg.maxRequests >= 1
    requires |LogOf(logs, key)| <= cfg.maxRequests
    requires Step(logs, cfg, key, now).decision.Deny?
    ensures var first := Step(logs, cfg, key, now);
      Step(first.logs, cfg, key, now + first.decision.retryAfter).decision == Allow
  {
    var kept := Evict(LogOf(logs, key), now - cfg.duration);
    var first := Step(logs, cfg, key, now);
    var later := now + first.decision.retryAfter;
    assert later - cfg.duration == kept[0];
    assert LogOf(first.logs, key) == kept;
    assert kept == [kept[0]] + kept[1..];
    assert Evict(kept, kept[0]) == Evict(kept[1..], kept[0]);
  }

  /** Retrying earlier does not help: on a chronological log, a request
      `delta` milliseconds later, with `delta` below the advised wait, is denied
      again, and the wait it gets has shrunk by exactly `delta`. */
  lemma RetryAfterTight(logs: Logs, cfg: Config, key: string, now: int, delta: int)
    requires cfg.maxRequests >= 1
    requires Sorted(LogOf(logs, key))
    requires Step(logs, cfg, key, now).decision.Deny?
    requires 0 <= delta < Step(logs, cfg, key, now).decision.retryAfter
    ensures var first := Step(logs, cfg, key, now);
      Step(first.logs, cfg, key, now + delta).decision == Deny(first.decision.retryAfter - delta)
  {
    var kept := Evict(LogOf(logs, key), now - cfg.duration);
    var first := Step(logs, cfg, key, now);
    assert first.logs == logs[key := kept];
    assert LogOf(first.logs, key) == kept;
    assert first.decision.retryAfter == cfg.duration - (now - kept[0]);
    EvictSortedSuffix(LogOf(logs, key), now - cfg.duration);
    SortedFirstIsOldest(kept);
    EvictKeepsAll(kept, now + delta - cfg.duration);
    assert Evict(LogOf(first.logs, key), now + delta - cfg.duration) == kept;
  }

  /** A request for one key never changes the decision taken for another key. */
  lemma KeyIndependence(logs: Logs, cfg1: Config, key1: string, t1: int,
                        cfg2: Config, key2: string, t2: int)
    requires cfg1.maxRequests >= 1 && cfg2.maxRequests >= 1
    requires key1 != key2
    ensures var between := Step(logs, cfg1, key1, t1).logs;
      && LogOf(between, key2) == LogOf(logs, key2)
      && Step(between, cfg2, key2, t2).decision == Step(logs, cfg2, key2, t2).decision
  {
  }

  /** The module-level `requestStore` object: one per process, shared by every
      middleware that `rateLimiter` builds. */
  class RequestStore {
    var logs: Logs

    constructor ()
      ensures logs == map[]
    {
      logs := map[];
    }
  }

  /** The middleware closure returned by `rateLimiter({duration, maxRequests})`. */
  class RateLimiter {
    const store: RequestStore
    const duration: int
    const maxRequests: int

    constructor (store: RequestStore, duration: int, maxRequests: int)
      requires maxRequests >= 1
      ensures this.store == store && this.duration == duration && this.maxRequests == maxRequests
    {
      this.store := store;
      this.duration := duration;
      this.maxRequests := maxRequests;
    }

    /** Handles one request arriving at `now`, updating the shared store in place. */
    method Handle(req: Request, now: int) returns (d: Decision)
      requires maxRequests >= 1
      modifies store
      ensures var out := Step(old(store.logs), Config(duration, maxRequests), DeriveKey(req), now);
        store.logs == out.logs && d == out.decision
    {
      var windowStart := now - duration;
      var key := DeriveKey(req);
      if key !in store.logs {
        store.logs := store.logs[key := []];
      }
      store.logs := store.logs[key := Evict(store.logs[key], windowStart)];
      if |store.logs[key]| >= maxRequests {
        var first := store.logs[key][0];
        return Deny(duration - (now - first));
      }
      store.logs := store.logs[key := store.logs[key] + [now]];
      return Allow;
    }
  }
}
