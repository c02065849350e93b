/**
 Sequences of requests handled by middlewares that share the one request store
 (index.js:2, 20-42): what stays true of the store across any sequence, what a
 burst inside one window gets, and the boundary cases of the window.
 */
module Traces {
  import opened SlidingWindow
  import opened ClientKey
  import opened Limiter

  /** One request, handed to the middleware built with `cfg`, arriving at `now`. */
  datatype Call = Call(cfg: Config, req: Request, now: int)

  /** The store after a sequence of calls, and the decision taken for each. */
  datatype Trace = Trace(logs: Logs, decisions: seq<Decision>)

  /** The store key of a call. It is `DeriveKey` of the call's request under a
      name of its own so that the quantifiers over `calls[i]` below have a
      single term on a call to trigger on. */
  function KeyOf(c: Call): string
  {
    DeriveKey(c.req)
  }

  /** Handles the calls in order, starting from the store `logs`, with one
      decision per call (RunKeys says which entries of the store it touches). */
  function Run(logs: Logs, calls: seq<Call>): (trace: Trace)
    requires forall i :: 0 <= i < |calls| ==> calls[i].cfg.maxRequests >= 1
    ensures |trace.decisions| == |calls|
    decreases |calls|
  {
    if |calls| == 0 then Trace(logs, [])
    else
      var out := Step(logs, calls[0].cfg, KeyOf(calls[0]), calls[0].now);
      var rest := Run(out.logs, calls[1..]);
      Trace(rest.logs, [out.decision] + rest.decisions)
  }

  /** A sequence of calls adds exactly the keys the calls derive to the store,
      and leaves the log of every key that no call derives as it was. */
  lemma {:induction false} RunKeys(logs: Logs, calls: seq<Call>)
    requires forall i :: 0 <= i < |calls| ==> calls[i].cfg.maxRequests >= 1
    ensures forall k :: k in Run(logs, calls).logs <==>
      k in logs || exists i :: 0 <= i < |calls| && KeyOf(calls[i]) == k
    ensures forall k :: k in logs && (forall i :: 0 <= i < |calls| ==> KeyOf(calls[i]) != k) ==>
      Run(logs, calls).logs[k] == logs[k]
    decreases |calls|
  {
    if |calls| > 0 {
      var out := Step(logs, calls[0].cfg, KeyOf(calls[0]), calls[0].now);
      var rest := calls[1..];
      RunKeys(out.logs, rest);
      assert forall i :: 0 <= i < |rest| ==> rest[i] == calls[i + 1];
      forall k | k in Run(logs, calls).logs
        ensures k in logs || exists i :: 0 <= i < |calls| && KeyOf(calls[i]) == k
      {
        if k !in out.logs {
          var j :| 0 <= j < |rest| && KeyOf(rest[j]) == k;
          assert KeyOf(calls[j + 1]) == k;
        }
      }
      forall k | exists i :: 0 <= i < |calls| && KeyOf(calls[i]) == k
        ensures k in Run(logs, calls).logs
      {
        var i :| 0 <= i < |calls| && KeyOf(calls[i]) == k;
        if i > 0 {
          assert KeyOf(rest[i - 1]) == k;
        }
      }
    }
  }

  /** Every log in the store holds at most `bound` timestamps. */
  ghost predicate Bounded(logs: Logs, bound: int)
  {
    forall k :: k in logs ==> |logs[k]| <= bound
  }

  /** One request keeps every log within any bound that its quota respects. */
  lemma StepBounded(logs: Logs, cfg: Config, key: string, now: int, bound: int)
    requires 1 <= cfg.maxRequests <= bound
    requires Bounded(logs, bound)
    ensures Bounded(Step(logs, cfg, key, now).logs, bound)
  {
    StepDecides(logs, cfg, key, now);
  }

  /** No log ever grows past the largest quota of the middlewares that share the
      store; in particular, with one middleware, past its `maxRequests`. */
  lemma {:induction false} RunBounded(logs: Logs, calls: seq<Call>, bound: int)
    requires forall i :: 0 <= i < |calls| ==> 1 <= calls[i].cfg.maxRequests <= bound
    requires Bounded(logs, bound)
    ensures Bounded(Run(logs, calls).logs, bound)
    decreases |calls|
  {
    if |calls| > 0 {
      var out := Step(logs, calls[0].cfg, KeyOf(calls[0]), calls[0].now);
      StepBounded(logs, calls[0].cfg, KeyOf(calls[0]), calls[0].now, bound);
      RunBounded(out.logs, calls[1..], bound);
    }
  }

  /** Starting from the empty store, one middleware never lets a key's log
      exceed its quota. */
  lemma RunBoundedFromEmpty(cfg: Config, calls: seq<Call>)
    requires cfg.maxRequests >= 1
    requires forall i :: 0 <= i < |calls| ==> calls[i].cfg == cfg
    ensures forall k :: k in Run(map[], calls).logs ==> |Run(map[], calls).logs[k]| <= cfg.maxRequests
  {
    RunBounded(map[], calls, cfg.maxRequests);
  }

  /** Requests for the same key arrive with non-decreasing times. */
  ghost predicate MonotonePerKey(calls: seq<Call>)
  {
    forall i, j :: 0 <= i < j < |calls| && KeyOf(calls[i]) == KeyOf(calls[j]) ==> calls[i].now <= calls[j].now
  }

  /** Every stored timestamp is no later than any pending call for its key. */
  ghost predicate StoredBefore(logs: Logs, calls: seq<Call>)
  {
    forall i :: 0 <= i < |calls| ==>
      forall t :: t in LogOf(logs, KeyOf(calls[i])) ==> t <= calls[i].now
  }

  ghost predicate AllSorted(logs: Logs)
  {
    forall k :: k in logs ==> Sorted(logs[k])
  }

  lemma AppendSorted(log: seq<int>, x: int)
    requires Sorted(log)
    requires forall t :: t in log ==> t <= x
    ensures Sorted(log + [x])
  {
    var s := log + [x];
    forall i, j | 0 <= i < j < |s| ensures s[i] <= s[j] {
      if j == |log| {
        assert s[i] == log[i] && log[i] in log;
      }
    }
  }

  /** One request keeps every log chronological, provided its time is no
      earlier than what its key's log holds. */
  lemma StepKeepsSorted(logs: Logs, cfg: Config, key: string, now: int)
    requires cfg.maxRequests >= 1
    requires AllSorted(logs)
    requires forall t :: t in LogOf(logs, key) ==> t <= now
    ensures AllSorted(Step(logs, cfg, key, now).logs)
  {
    var log := LogOf(logs, key);
    var kept := Evict(log, now - cfg.duration);
    var out := Step(logs, cfg, key, now);
    StepDecides(logs, cfg, key, now);
    EvictSortedSuffix(log, now - cfg.duration);
    if out.decision.Allow? {
      AppendSorted(kept, now);
    }
    assert Sorted(LogOf(out.logs, key));
  }

  /** One request keeps the calls still to come after every stored timestamp
      of their key, when requests for each key arrive in time order. */
  lemma StepKeepsStoredBefore(logs: Logs, calls: seq<Call>)
    requires |calls| > 0
    requires forall i :: 0 <= i < |calls| ==> calls[i].cfg.maxRequests >= 1
    requires StoredBefore(logs, calls) && MonotonePerKey(calls)
    ensures StoredBefore(Step(logs, calls[0].cfg, KeyOf(calls[0]), calls[0].now).logs, calls[1..])
  {
    var c := calls[0];
    var key := KeyOf(c);
    var out := Step(logs, c.cfg, key, c.now);
    var rest := calls[1..];
    forall i | 0 <= i < |rest| ensures forall t :: t in LogOf(out.logs, KeyOf(rest[i])) ==> t <= rest[i].now {
      assert rest[i] == calls[i + 1];
      if KeyOf(rest[i]) == key {
        assert c.now <= rest[i].now;
        forall t | t in LogOf(out.logs, key) ensures t <= rest[i].now {
          StepLogContents(logs, c.cfg, key, c.now, t);
        }
      } else {
        assert LogOf(out.logs, KeyOf(rest[i])) == LogOf(logs, KeyOf(rest[i]));
      }
    }
  }

  /** If requests for each key arrive in time order, every log in the store is
      chronological, so its first entry is its oldest. */
  lemma {:induction false} RunSorted(logs: Logs, calls: seq<Call>)
    requires forall i :: 0 <= i < |calls| ==> calls[i].cfg.maxRequests >= 1
    requires AllSorted(logs) && StoredBefore(logs, calls) && MonotonePerKey(calls)
    ensures AllSorted(Run(logs, calls).logs)
    decreases |calls|
  {
    if |calls| > 0 {
      var out := Step(logs, calls[0].cfg, KeyOf(calls[0]), calls[0].now);
      assert forall t :: t in LogOf(logs, KeyOf(calls[0])) ==> t <= calls[0].now;
      StepKeepsSorted(logs, calls[0].cfg, KeyOf(calls[0]), calls[0].now);
      StepKeepsStoredBefore(logs, calls);
      assert MonotonePerKey(calls[1..]) by {
        forall i, j | 0 <= i < j < |calls| - 1 && KeyOf(calls[1..][i]) == KeyOf(calls[1..][j])
          ensures calls[1..][i].now <= calls[1..][j].now
        {
          assert calls[1..][i] == calls[i + 1] && calls[1..][j] == calls[j + 1];
        }
      }
      RunSorted(out.logs, calls[1..]);
    }
  }

  /** From the empty store, per-key time order is all it takes. */
  lemma RunSortedFromEmpty(calls: seq<Call>)
    requires forall i :: 0 <= i < |calls| ==> calls[i].cfg.maxRequests >= 1
    requires MonotonePerKey(calls)
    ensures AllSorted(Run(map[], calls).logs)
  {
    RunSorted(map[], calls);
  }

  /** The first request of a burst inside one window: nothing is evicted, the
      request is allowed iff the log is below quota, the log grows by one
      exactly then, and the log stays inside the window of every later request. */
  lemma BurstStep(logs: Logs, cfg: Config, key: string, calls: seq<Call>)
    requires cfg.maxRequests >= 1 && |calls| > 0
    requires forall i :: 0 <= i < |calls| ==> calls[i].cfg == cfg && KeyOf(calls[i]) == key
    requires forall i, j :: 0 <= i < |calls| && 0 <= j < |calls| ==> calls[i].now > calls[j].now - cfg.duration
    requires forall j :: 0 <= j < |calls| ==>
      forall t :: t in LogOf(logs, key) ==> t > calls[j].now - cfg.duration
    ensures var log := LogOf(logs, key);
            var out := Step(logs, cfg, key, calls[0].now);
      && (out.decision == Allow <==> |log| < cfg.maxRequests)
      && |LogOf(out.logs, key)| == (if |log| < cfg.maxRequests then |log| + 1 else |log|)
      && forall j :: 1 <= j < |calls| ==>
           forall t :: t in LogOf(out.logs, key) ==> t > calls[j].now - cfg.duration
  {
    var c := calls[0];
    var log := LogOf(logs, key);
    EvictKeepsAll(log, c.now - cfg.duration);
    var out := Step(logs, cfg, key, c.now);
    StepDecides(logs, cfg, key, c.now);
    forall j, t | 1 <= j < |calls| && t in LogOf(out.logs, key) ensures t > calls[j].now - cfg.duration {
      StepLogContents(logs, cfg, key, c.now, t);
    }
  }

  /** A burst of requests for one key through one middleware, all within one
      window of each other and of what the key's log already holds: request
      number `i` (from 0) is allowed exactly when the log's earlier length plus
      `i` is still below the quota. */
  lemma {:induction false} OneWindowQuota(logs: Logs, cfg: Config, key: string, calls: seq<Call>)
    requires cfg.maxRequests >= 1
    requires forall i :: 0 <= i < |calls| ==> calls[i].cfg == cfg && KeyOf(calls[i]) == key
    requires forall i, j :: 0 <= i < |calls| && 0 <= j < |calls| ==> calls[i].now > calls[j].now - cfg.duration
    requires forall j :: 0 <= j < |calls| ==>
      forall t :: t in LogOf(logs, key) ==> t > calls[j].now - cfg.duration
    ensures forall i :: 0 <= i < |calls| ==>
      (Run(logs, calls).decisions[i] == Allow <==> |LogOf(logs, key)| + i < cfg.maxRequests)
    decreases |calls|
  {
    if |calls| > 0 {
      var log := LogOf(logs, key);
      var out := Step(logs, cfg, key, calls[0].now);
      BurstStep(logs, cfg, key, calls);
      var rest := calls[1..];
      assert forall j :: 0 <= j < |rest| ==> rest[j] == calls[j + 1];
      OneWindowQuota(out.logs, cfg, key, rest);
      var ds := Run(logs, calls).decisions;
      assert ds == [out.decision] + Run(out.logs, rest).decisions;
      forall i | 1 <= i < |calls|
        ensures ds[i] == Allow <==> |log| + i < cfg.maxRequests
      {
        assert ds[i] == Run(out.logs, rest).decisions[i - 1];
      }
    }
  }

  /** The number of requests let through. */
  function Allowed(ds: seq<Decision>): (n: nat)
    ensures n <= |ds|
  {
    if |ds| == 0 then 0 else (if ds[0] == Allow then 1 else 0) + Allowed(ds[1..])
  }

  /** Decisions that allow exactly the first `quota - used` requests let through
      that many, or all of them when there are fewer. */
  lemma {:induction false} AllowedPrefix(ds: seq<Decision>, used: nat, quota: int)
    requires forall i :: 0 <= i < |ds| ==> (ds[i] == Allow <==> used + i < quota)
    ensures Allowed(ds) == if used >= quota then 0
                           else if |ds| < quota - used then |ds| else quota - used
    decreases |ds|
  {
    if |ds| > 0 {
      forall i | 0 <= i < |ds[1..]| ensures ds[1..][i] == Allow <==> used + 1 + i < quota {
        assert ds[1..][i] == ds[i + 1];
      }
      AllowedPrefix(ds[1..], used + 1, quota);
    }
  }

  /** From an empty log, a burst of N requests inside one window gets exactly
      min(N, maxRequests) admissions. */
  lemma {:induction false} BurstAdmitsQuota(cfg: Config, key: string, calls: seq<Call>)
    requires cfg.maxRequests >= 1
    requires forall i :: 0 <= i < |calls| ==> calls[i].cfg == cfg && KeyOf(calls[i]) == key
    requires forall i, j :: 0 <= i < |calls| && 0 <= j < |calls| ==> calls[i].now > calls[j].now - cfg.duration
    ensures Allowed(Run(map[], calls).decisions)
         == if |calls| < cfg.maxRequests then |calls| else cfg.maxRequests
  {
    var empty: Logs := map[];
    assert |LogOf(empty, key)| == 0;
    OneWindowQuota(empty, cfg, key, calls);
    var ds := Run(empty, calls).decisions;
    assert forall i :: 0 <= i < |ds| ==> (ds[i] == Allow <==> 0 + i < cfg.maxRequests);
    AllowedPrefix(ds, 0, cfg.maxRequests);
  }

  /** With a one-second window and a quota of one: allowed at 0, denied at 999
      with one millisecond to wait, allowed again at 1000, when the timestamp 0
      is no longer strictly inside the window (0, 1000]. */
  lemma WindowBoundary(key: string)
    ensures var cfg := Config(1000, 1);
            var s0 := Step(map[], cfg, key, 0);
            var s1 := Step(s0.logs, cfg, key, 999);
            var s2 := Step(s1.logs, cfg, key, 1000);
      && s0.decision == Allow
      && s1.decision == Deny(1)
      && s2.decision == Allow
      && s2.logs[key] == [1000]
  {
    var cfg := Config(1000, 1);
    var s0 := Step(map[], cfg, key, 0);
    assert LogOf(s0.logs, key) == [0];
    EvictSingle(0, -1);
    var s1 := Step(s0.logs, cfg, key, 999);
    assert LogOf(s1.logs, key) == [0];
    EvictSingle(0, 0);
  }

  /** Every middleware built by `rateLimiter` writes the same store, so a
      generous limiter's admissions count against a strict one on the same key:
      with quota 1 and quota 5 on one key, the strict one denies at time 2
      after each has allowed one request. */
  lemma SharedStoreCrossTalk(key: string)
    ensures var strict, generous := Config(1000, 1), Config(1000, 5);
            var a := Step(map[], strict, key, 0);
            var b := Step(a.logs, generous, key, 1);
            var c := Step(b.logs, strict, key, 2);
      && a.decision == Allow && b.decision == Allow && c.decision == Deny(998)
  {
    var strict, generous := Config(1000, 1), Config(1000, 5);
    var a := Step(map[], strict, key, 0);
    assert LogOf(a.logs, key) == [0];
    var b := Step(a.logs, generous, key, 1);
    EvictSingle(0, -999);
    assert LogOf(b.logs, key) == [0, 1];
    EvictAppend([0], [1], -998);
    EvictSingle(0, -998);
    EvictSingle(1, -998);
    assert [0, 1] == [0] + [1];
  }
}
