# rate-bouncer: a verified model of the sliding-window-log rate limiter

`rateLimiter({ duration, maxRequests })` (index.js) builds an Express
middleware. Every middleware it builds shares one process-wide `requestStore`,
which maps a key to the log of timestamps (milliseconds) of the requests that
key was allowed. For each request the middleware:

1. takes the client address. This is the first comma-separated entry of
   `x-forwarded-for` if that header is present, otherwise the peer address.
   `"::1"` is rewritten to `"127.0.0.1"`;
2. builds the key `clientIp + ":" + path`;
3. creates an empty log for a new key;
4. drops the timestamps that are not strictly greater than `now - duration`;
5. if the log still holds `maxRequests` or more entries, answers 429 with
   `retryAfter = duration - (now - log[0])`. Otherwise it appends `now` and
   passes the request on.

The Dafny modules follow that structure:

- `SlidingWindow` (window.dfy): `Evict`, the filter of step 4, and its laws.
- `ClientKey` (client_key.dfy): JavaScript's `split(",")`, the loopback rewrite
  and the key string of steps 1–2.
- `Limiter` (limiter.dfy): `Decision` (`Allow`, or `Deny(retryAfter)`, which
  stands for `next()` and the 429 answer), `Step` (one request as a function of
  the store, steps 3–5), and the lemmas about one request. It also holds the
  two classes. `RequestStore` is the module-level store object. `RateLimiter`
  is the closure that `rateLimiter` returns: its `Handle` method updates the
  shared store in place and is proved to do exactly what `Step` says.
- `Traces` (traces.dfy): sequences of requests through middlewares that share
  one store. It covers the length bound, chronological logs, bursts inside one
  window, the window boundary, and the cross-talk between limiters.

Choices where the model follows the code rather than a cleaner design:

- The key is string concatenation, not a tuple. `KeyInjective` states when that
  is unambiguous, and `KeysCanCollide` shows two buckets that share one key.
- `duration` is not validated, so the model accepts any integer. `retryAfter`
  is positive for every `duration`, which is stronger than non-negative.
- The forwarded-for entry is not trimmed.

## Model

| member | source | states |
|---|---|---|
| SlidingWindow.Evict | index.js:24-27 | the kept entries are exactly the log's entries strictly greater than the window start; nothing is added |
| SlidingWindow.EvictCount | index.js:25-27 | each timestamp inside the window keeps its number of occurrences; every other timestamp occurs zero times |
| SlidingWindow.EvictAppend | index.js:25-27 | eviction distributes over concatenation, so entries keep their original relative order and multiplicity |
| SlidingWindow.EvictSingle | index.js:26 | one timestamp survives exactly when it is strictly greater than `now - duration` |
| SlidingWindow.EvictKeepsAll | index.js:25-27 | a log entirely inside the window is left unchanged |
| SlidingWindow.EvictIdempotent | index.js:25-27 | evicting again at the same instant changes nothing |
| SlidingWindow.EvictSortedSuffix | index.js:25-27 | on a chronological log, eviction drops a prefix; the rest stays chronological |
| SlidingWindow.EvictLater | index.js:25-27 | evicting at an earlier window start, then at a later one, equals evicting at the later one |
| SlidingWindow.SortedFirstIsOldest | index.js:31 | in a chronological log the first entry (`requestStore[key][0]`) is the oldest |
| ClientKey.Split | index.js:10 | `split(",")` yields at least one piece, no piece holds the separator, and joining the pieces gives back the header |
| ClientKey.SplitJoin | index.js:10 | splitting a join of separator-free pieces gives back those pieces |
| ClientKey.FirstForwarded | index.js:10-12 | the client entry is the header's longest comma-free prefix: the whole header, or the text before its first comma, untrimmed |
| ClientKey.Normalize | index.js:14-16 | the result is never `::1`, and every other address is kept as it is; ClientIpParts gives `::1` becoming `127.0.0.1` (see also NormalizeOnlyLoopback) |
| ClientKey.RawClient | index.js:10-13 | a present header gives a comma-free prefix of it, which ClientIpParts pins to exactly its first piece (`FirstForwarded`); otherwise the peer address, or `"undefined"` when there is none |
| ClientKey.ClientIp | index.js:10-16 | the address used in the key is never `::1`, and it equals the raw address whenever that is not `::1`; ClientIpParts gives `127.0.0.1` when it is |
| ClientKey.ClientIpParts | index.js:10-16 | a present header yields exactly its first comma-separated piece, and a raw `::1`, from the header or from the peer, becomes `127.0.0.1` |
| ClientKey.DeriveKey | index.js:18 | the key ends with `":" + path` (DeriveKeyParts and KeyInjective state the rest) |
| ClientKey.DeriveKeyParts | index.js:18 | the key splits back into the client address, a colon and the path |
| ClientKey.ForwardedPrecedence | index.js:10-13 | a present header alone decides the client address, whatever the peer; an empty header gives the key `":" + path` |
| ClientKey.LoopbackSharesKey | index.js:13-18 | without the header, peers `::1` and `127.0.0.1` on one path get the same key |
| ClientKey.NormalizeOnlyLoopback | index.js:14-16 | the rewrite changes exactly the literal `::1`, and applying it twice is the same as once |
| ClientKey.KeyInjective | index.js:18 | for '/'-free addresses and '/'-led paths, keys are equal iff addresses and paths are equal |
| ClientKey.KeysCanCollide | index.js:10-18 | a forwarded entry holding `:` can produce the same key as a different (address, path) pair |
| Limiter.Step | index.js:20-42 | the request's key is created if missing, every other entry is unchanged, and a denial always has a positive wait (StepDecides, StepLogContents and DenyRetryAfter give the key's new log and the decision) |
| Limiter.StepDecides | index.js:20-42 | denial iff the evicted log holds at least `maxRequests` entries; a denial stores the evicted log; an admission stores it with `now` appended, at most `maxRequests` long |
| Limiter.StepLogContents | index.js:20-42 | afterwards the key's log holds exactly its earlier timestamps inside the window, plus `now` if allowed |
| Limiter.DenyRetryAfter | index.js:30-32 | on denial `retryAfter = duration - (now - log[0])`, it is positive, and it is at most `duration` when `log[0] <= now` |
| Limiter.DenyRepeats | index.js:25-39 | a second request at the same instant is denied with the same wait and leaves the store unchanged |
| Limiter.RetryAfterSuffices | index.js:25-32 | when the log is within quota, a request exactly `retryAfter` later is allowed |
| Limiter.RetryAfterTight | index.js:25-32 | on a chronological log, a request `delta < retryAfter` later is denied with wait `retryAfter - delta` |
| Limiter.KeyIndependence | index.js:18-42 | a request for one key never changes another key's log or the decision for it |
| Limiter.RequestStore.constructor | index.js:2 | the store starts empty |
| Limiter.RateLimiter.constructor | index.js:5-6 | the middleware captures the shared store, `duration` and `maxRequests` |
| Limiter.RateLimiter.Handle | index.js:7-45 | updates the shared store in place to exactly `Step`'s new store and returns `Step`'s decision |
| Traces.Run | index.js:2-47 | a sequence of middleware calls on the shared store gives one decision per call (RunKeys, RunBounded, RunSorted and OneWindowQuota state what it does) |
| Traces.RunKeys | index.js:18-22 | the calls add exactly their derived keys to the store, and the log of any key no call derives is unchanged |
| Traces.StepBounded | index.js:29-42 | one request keeps every log within any bound that is at least its quota |
| Traces.RunBounded | index.js:20-42 | across any call sequence, no log grows past the largest quota of the limiters sharing the store |
| Traces.RunBoundedFromEmpty | index.js:20-42 | from the empty store, one limiter keeps every key's log at most `maxRequests` long |
| Traces.AppendSorted | index.js:42 | appending a time no earlier than the log's entries keeps it chronological |
| Traces.StepKeepsSorted | index.js:25-42 | a request no earlier than its key's entries keeps every log chronological |
| Traces.StepKeepsStoredBefore | index.js:20-42 | with per-key time order, later calls stay no earlier than their key's stored entries |
| Traces.RunSorted | index.js:20-42 | with per-key non-decreasing times, every log stays chronological across any call sequence |
| Traces.RunSortedFromEmpty | index.js:20-42 | from the empty store, per-key time order is enough for chronological logs |
| Traces.BurstStep | index.js:25-42 | the first request of a burst inside one window evicts nothing; it is allowed iff the log is below quota, and the log grows by one exactly then |
| Traces.OneWindowQuota | index.js:25-42 | in a burst within one window, request `i` is allowed iff earlier log length + `i` < `maxRequests` |
| Traces.AllowedPrefix | index.js:30-42 | decisions that allow exactly the first `quota - used` requests admit `min(N, quota - used)` of N |
| Traces.BurstAdmitsQuota | index.js:20-42 | from an empty store, N requests inside one window get exactly min(N, `maxRequests`) admissions |
| Traces.WindowBoundary | index.js:25-32 | with `duration = 1000` and `maxRequests = 1`: allowed at 0, denied at 999 with `retryAfter = 1`, allowed at 1000 |
| Traces.SharedStoreCrossTalk | index.js:2-42 | limiters with quotas 1 and 5 share the store, so the strict one denies after each has allowed one request |

## Left out

- Express plumbing: `req`, `res.status(429).json(...)` and `next()` (index.js:6, 34-38, 45) become the `Decision` value. The JSON body's `"microseconds"` label (index.js:37) is a constant string and is not modelled. The value is in milliseconds, so the label is wrong; the model counts milliseconds throughout.
- `Date.now()` (index.js:7) is a clock read. `now` is a parameter of `Step` and `Handle`.
- `maxRequests <= 0` is excluded by `requires maxRequests >= 1`. With an empty log the source would read `requestStore[key][0]` of an empty array and return `NaN`. The model does not reproduce JavaScript's `undefined` arithmetic.
- Timestamps and `duration` are unbounded integers. JavaScript numbers are doubles, which are exact for millisecond timestamps, so nothing is lost for realistic inputs.
- `requestStore` is a plain object in the source. Inherited property names such as `constructor` cannot be looked up by mistake, because every key contains `:`. The model uses a `map`.
- Concurrency and atomicity of the read-evict-compare-append sequence are not modelled: the source runs on a single thread. Unbounded growth in the number of keys is an operational concern and is not modelled.
- `x-forwarded-for` is taken to be a single string, as Node delivers it, with duplicate headers already joined.
