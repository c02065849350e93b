/**
 The sliding-window eviction step of the rate limiter: a key's log of request
 timestamps (milliseconds) keeps only the entries strictly newer than the start
 of the trailing window, in their original order (the `filter` at index.js:25-27).
 */
module SlidingWindow {

  /** True iff the timestamps are in non-decreasing (chronological) order. */
  ghost predicate Sorted(log: seq<int>)
  {
    forall i, j :: 0 <= i < j < |log| ==> log[i] <= log[j]
  }

  /** The first entry of a chronological log is its oldest. */
  lemma SortedFirstIsOldest(log: seq<int>)
    requires Sorted(log) && |log| > 0
    ensures forall t :: t in log ==> log[0] <= t
  {
    forall t | t in log ensures log[0] <= t {
      var i :| 0 <= i < |log| && log[i] == t;
    }
  }

  /** The entries of `log` that are strictly greater than `windowStart`, in order.
      The contract below gives membership only; EvictAppend and EvictSingle
      together pin down order and multiplicity, and EvictCount states the
      multiplicity of each timestamp directly. */
  function Evict(log: seq<int>, windowStart: int): (kept: seq<int>)
    ensures |kept| <= |log|
    ensures forall t :: t in kept <==> t in log && t > windowStart
  {
    if |log| == 0 then []
    else
      assert log == [log[0]] + log[1..];
      if log[0] > windowStart then [log[0]] + Evict(log[1..], windowStart)
      else Evict(log[1..], windowStart)
  }

  /** Eviction distributes over concatenation: together with the one-element
      case it pins down the kept entries, their multiplicity and their order. */
  lemma {:induction false} EvictAppend(a: seq<int>, b: seq<int>, windowStart: int)
    ensures Evict(a + b, windowStart) == Evict(a, windowStart) + Evict(b, windowStart)
  {
    if |a| == 0 {
      assert a + b == b;
    } else {
      assert (a + b)[1..] == a[1..] + b;
      EvictAppend(a[1..], b, windowStart);
    }
  }

  /** Every timestamp inside the window survives as often as it occurred;
      every other occurs no more. */
  lemma {:induction false} EvictCount(log: seq<int>, windowStart: int, t: int)
    ensures multiset(Evict(log, windowStart))[t] == if t > windowStart then multiset(log)[t] else 0
  {
    if |log| > 0 {
      EvictCount(log[1..], windowStart, t);
      assert log == [log[0]] + log[1..];
      assert multiset(log) == multiset([log[0]]) + multiset(log[1..]);
      if log[0] > windowStart {
        var kept := [log[0]] + Evict(log[1..], windowStart);
        assert multiset(kept) == multiset([log[0]]) + multiset(Evict(log[1..], windowStart));
      }
    }
  }

  /** The one-element case: a timestamp survives iff it is inside the window. */
  lemma EvictSingle(t: int, windowStart: int)
    ensures Evict([t], windowStart) == if t > windowStart then [t] else []
  {
    assert [t][1..] == [];
  }

  /** A log whose every entry lies inside the window is left as it is. */
  lemma {:induction false} EvictKeepsAll(log: seq<int>, windowStart: int)
    requires forall t :: t in log ==> t > windowStart
    ensures Evict(log, windowStart) == log
  {
    if |log| > 0 {
      assert log[0] in log;
      assert forall t :: t in log[1..] ==> t in log;
      EvictKeepsAll(log[1..], windowStart);
    }
  }

  /** Eviction at a given window start is idempotent. */
  lemma EvictIdempotent(log: seq<int>, windowStart: int)
    ensures Evict(Evict(log, windowStart), windowStart) == Evict(log, windowStart)
  {
    EvictKeepsAll(Evict(log, windowStart), windowStart);
  }

  /** On a chronological log eviction drops a prefix: what is kept is a suffix,
      and it is still chronological. */
  lemma {:induction false} EvictSortedSuffix(log: seq<int>, windowStart: int)
    requires Sorted(log)
    ensures exists k :: 0 <= k <= |log| && Evict(log, windowStart) == log[k..]
    ensures Sorted(Evict(log, windowStart))
  {
    if |log| == 0 {
      assert Evict(log, windowStart) == log[0..];
    } else if log[0] > windowStart {
      SortedFirstIsOldest(log);
      EvictKeepsAll(log, windowStart);
      assert Evict(log, windowStart) == log[0..];
    } else {
      EvictSortedSuffix(log[1..], windowStart);
      var k :| 0 <= k <= |log[1..]| && Evict(log[1..], windowStart) == log[1..][k..];
      assert log[1..][k..] == log[k + 1..];
      assert Evict(log, windowStart) == log[k + 1..];
    }
  }

  /** A window that only moves forward never brings an evicted entry back:
      evicting at a later start after an earlier one is evicting at the later one. */
  lemma {:induction false} EvictLater(log: seq<int>, earlier: int, later: int)
    requires earlier <= later
    ensures Evict(Evict(log, earlier), later) == Evict(log, later)
  {
    if |log| > 0 {
      EvictLater(log[1..], earlier, later);
      if log[0] > earlier {
        assert ([log[0]] + Evict(log[1..], earlier))[1..] == Evict(log[1..], earlier);
      }
    }
  }
}
