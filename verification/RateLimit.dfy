/** The in-memory sliding-window counter of noema/api/rate_limit.py, against the complete log of
admissions that it prunes. Times are reals; the clock never runs backwards. */
module RateLimit {

  datatype ClientKey = ClientKey(text: string)

  /** How many of the first `n` admissions of a log lie in the half-open window `(lo, hi]`. */
  function CountIn(log: seq<real>, n: nat, lo: real, hi: real): nat
    requires n <= |log|
  {
    if n == 0 then 0 else CountIn(log, n - 1, lo, hi) + if lo < log[n - 1] <= hi then 1 else 0
  }

  function CountFirst(log: seq<real>, n: nat, cutoff: real): nat
    requires n <= |log|
  {
    if n == 0 then 0 else CountFirst(log, n - 1, cutoff) + if log[n - 1] > cutoff then 1 else 0
  }

  /** How many admissions of a complete log are later than a point in time. */
  function CountSince(log: seq<real>, cutoff: real): nat {
    CountFirst(log, |log|, cutoff)
  }

  ghost predicate Sorted(log: seq<real>) {
    forall i, j :: 0 <= i <= j < |log| ==> log[i] <= log[j]
  }

  /** Any admission is at least a window later than the one `max` admissions before it. */
  ghost predicate Spaced(log: seq<real>, w: real, max: int) {
    forall i, j :: 0 <= i < j < |log| && j - i >= max ==> log[i] <= log[j] - w
  }

  ghost predicate LogOk(log: seq<real>, clock: real, w: real, max: int) {
    && Sorted(log) && Spaced(log, w, max)
    && (forall i :: 0 <= i < |log| ==> log[i] <= clock)
    && (max <= 0 ==> log == [])
  }

  /** The hits kept for a key are the latest entries of its log; no other is later than the cutoff. */
  ghost predicate Keeps(log: seq<real>, hits: seq<real>, cutoff: real) {
    && |hits| <= |log| && (forall i :: 0 <= i < |hits| ==> hits[i] == log[|log| - |hits| + i])
    && (forall i :: 0 <= i < |log| - |hits| ==> log[i] <= cutoff)
  }

  ghost predicate KeyOk(log: seq<real>, hits: seq<real>, clock: real, w: real, max: int) {
    LogOk(log, clock, w, max) && Keeps(log, hits, clock - w)
  }

  // ---------- counting in a sorted log ----------

  /** If the first `m` entries are not later than the cutoff, at most the others count, and all of them
  do if they are later. */
  lemma {:induction false} CountOfSuffix(log: seq<real>, n: nat, m: nat, cutoff: real)
    requires m <= n <= |log| && forall i :: 0 <= i < m ==> log[i] <= cutoff
    ensures CountFirst(log, n, cutoff) <= n - m
    ensures (forall i :: m <= i < n ==> log[i] > cutoff) ==> CountFirst(log, n, cutoff) == n - m
  {
    if n > 0 {
      CountOfSuffix(log, n - 1, if m < n then m else m - 1, cutoff);
    }
  }

  lemma {:induction false} CountWithin(log: seq<real>, n: nat, a: int, b: int, lo: real, hi: real)
    requires n <= |log| && a <= b && forall i :: 0 <= i < n && lo < log[i] <= hi ==> a <= i < b
    ensures CountIn(log, n, lo, hi) <= b - a
  {
    if n > 0 {
      CountWithin(log, n - 1, a, if lo < log[n - 1] <= hi then n - 1 else b, lo, hi);
    }
  }

  function RecentFirst(hits: seq<real>, n: nat, cutoff: real): seq<real>
    requires n <= |hits|
  {
    if n == 0 then []
    else RecentFirst(hits, n - 1, cutoff) + if hits[n - 1] > cutoff then [hits[n - 1]] else []
  }

  /** The list comprehension of `_prune`. */
  function Recent(hits: seq<real>, cutoff: real): seq<real> {
    RecentFirst(hits, |hits|, cutoff)
  }

  lemma {:induction false} RecentIsSuffix(hits: seq<real>, n: nat, cutoff: real)
    requires Sorted(hits) && n <= |hits|
    ensures var r := RecentFirst(hits, n, cutoff); var off := n - |r|;
            && 0 <= off && (forall i :: 0 <= i < |r| ==> r[i] == hits[off + i])
            && (forall i :: 0 <= i < off ==> hits[i] <= cutoff) && (forall i :: off <= i < n ==> hits[i] > cutoff)
  {
    if n > 0 {
      RecentIsSuffix(hits, n - 1, cutoff);
    }
  }

  /** Pruning forgets nothing that is later than the cutoff: the kept hits are counted by the full log. */
  lemma {:induction false} PruneIsExact(log: seq<real>, hits: seq<real>, earlier: real, cutoff: real)
    requires Sorted(log) && Keeps(log, hits, earlier) && earlier <= cutoff
    ensures var kept := Recent(hits, cutoff);
            && Keeps(log, kept, cutoff)
            && (forall i :: 0 <= i < |kept| ==> kept[i] > cutoff)
            && |kept| == CountSince(log, cutoff)
  {
    var off := |log| - |hits|;
    RecentIsSuffix(hits, |hits|, cutoff);
    var kept := Recent(hits, cutoff);
    var m := |log| - |kept|;
    forall i | 0 <= i < m ensures log[i] <= cutoff {
      if i >= off {
        assert log[i] == hits[i - off];
      }
    }
    forall i | m <= i < |log| ensures log[i] > cutoff {
      assert log[i] == hits[i - off];
    }
    CountOfSuffix(log, |log|, m, cutoff);
  }

  lemma {:induction false} TimePasses(log: seq<real>, hits: seq<real>, clock: real, now: real, w: real, max: int)
    requires KeyOk(log, hits, clock, w, max) && clock <= now
    ensures KeyOk(log, hits, now, w, max)
  {
  }

  /** Forgetting all hits of a key is harmless once none is inside the window. */
  lemma {:induction false} ForgetStale(log: seq<real>, hits: seq<real>, now: real, w: real, max: int)
    requires KeyOk(log, hits, now, w, max) && forall i :: 0 <= i < |hits| ==> hits[i] <= now - w
    ensures KeyOk(log, [], now, w, max)
  {
    var off := |log| - |hits|;
    forall i | 0 <= i < |log| ensures log[i] <= now - w {
      if i >= off {
        assert log[i] == hits[i - off];
      }
    }
  }

  /** No half-open window of the configured length ever holds more than `max` admissions. */
  lemma {:induction false} WindowIsBounded(log: seq<real>, w: real, max: int, lo: real)
    requires Sorted(log) && Spaced(log, w, max) && (max <= 0 ==> log == [])
    ensures CountIn(log, |log|, lo, lo + w) <= if max > 0 then max else 0
  {
    var hi := lo + w;
    if max > 0 && log != [] {
      var b := |log| - 1;
      while b >= 0 && log[b] > hi
        invariant -1 <= b < |log| && forall i :: b < i < |log| ==> log[i] > hi
      {
        b := b - 1;
      }
      CountWithin(log, |log|, b - max + 1, b + 1, lo, hi);
    } else {
      CountWithin(log, |log|, 0, 0, lo, hi);
    }
  }

  /** Admitting one more request when fewer than `max` are inside the window. */
  lemma {:induction false} AdmitKeeps(log: seq<real>, kept: seq<real>, now: real, w: real, max: int)
    requires KeyOk(log, kept, now, w, max) && |kept| < max
    requires forall i :: 0 <= i < |kept| ==> kept[i] > now - w
    ensures KeyOk(log + [now], kept + [now], now, w, max)
  {
    var log' := log + [now];
    forall i, j | 0 <= i < j < |log'| && j - i >= max ensures log'[i] <= log'[j] - w {
      if j == |log| {
        assert i < |log| - |kept|;
      }
    }
  }

  // ---------- Retry-After ----------

  ghost predicate AdmitsAt(log: seq<real>, t: real, w: real, max: int) {
    CountSince(log, t - w) < max
  }

  /** `int(x)` truncates toward zero. */
  function Trunc(x: real): int {
    if x >= 0.0 then x.Floor else -(-x).Floor
  }

  /** Waiting out the emitted delay is enough, as long as nothing else is admitted meanwhile. */
  lemma {:induction false} RetryAfterSuffices(log: seq<real>, kept: seq<real>, now: real, window: int, w: real, max: int)
    requires w == window as real
    requires KeyOk(log, kept, now, w, max) && kept != [] && |kept| == max
    requires forall i :: 0 <= i < |kept| ==> kept[i] > now - w
    ensures var delay := Trunc(w - (now - kept[0])) + 1;
            && 1 <= delay <= window + 1
            && (forall t :: t >= now + delay as real ==> AdmitsAt(log, t, w, max))
            && (forall t :: now <= t < now + (delay - 1) as real ==> !AdmitsAt(log, t, w, max))
  {
    var wait := w - (now - kept[0]);
    var delay := Trunc(wait) + 1;
    assert (delay - 1) as real <= wait < delay as real;
    forall t | t >= now + delay as real ensures AdmitsAt(log, t, w, max) {
      AdmitsIff(log, kept, now, w, max, t);
    }
    forall t | now <= t < now + (delay - 1) as real ensures !AdmitsAt(log, t, w, max) {
      AdmitsIff(log, kept, now, w, max, t);
    }
  }

  /** With the window full, and nothing admitted meanwhile, a request is admitted again exactly from the moment on when the
  oldest hit is a window old. */
  lemma {:induction false} AdmitsIff(log: seq<real>, kept: seq<real>, now: real, w: real, max: int, t: real)
    requires KeyOk(log, kept, now, w, max) && kept != [] && |kept| == max && now <= t
    requires forall i :: 0 <= i < |kept| ==> kept[i] > now - w
    ensures AdmitsAt(log, t, w, max) <==> t >= kept[0] + w
  {
    var oldest := |log| - |kept|;
    assert log[oldest] == kept[0];
    if t >= kept[0] + w {
      assert forall i :: 0 <= i < oldest + 1 ==> log[i] <= log[oldest];
      CountOfSuffix(log, |log|, oldest + 1, t - w);
    } else {
      assert forall i :: oldest <= i < |log| ==> log[oldest] <= log[i];
      CountOfSuffix(log, |log|, oldest, t - w);
    }
  }

  // ---------- the counter ----------

  /** The verdict and its headers; `Crashed` stands for the IndexError of reading the oldest hit of an
  empty list. */
  datatype Verdict =
    | Admitted(limit: int, remaining: int, resetAt: int)
    | Denied(limit: int, resetAt: int, retryAfter: int)
    | Crashed

  function MaxOf(v: seq<real>): (m: real)
    requires v != []
    ensures m in v && forall i :: 0 <= i < |v| ==> v[i] <= m
  {
    if |v| == 1 then v[0] else if v[0] >= MaxOf(v[1..]) then v[0] else MaxOf(v[1..])
  }

  function Get(m: map<ClientKey, seq<real>>, key: ClientKey): seq<real> {
    if key in m then m[key] else []
  }

  ghost predicate AllOk(log: map<ClientKey, seq<real>>, hits: map<ClientKey, seq<real>>, clock: real, w: real, max: int) {
    forall key :: KeyOk(Get(log, key), Get(hits, key), clock, w, max)
  }

  /** An operation on one key leaves all others as they were, and time only helps them. */
  lemma {:induction false} OneKeyChanges(log: map<ClientKey, seq<real>>, hits: map<ClientKey, seq<real>>, clock: real,
                      log': map<ClientKey, seq<real>>, hits': map<ClientKey, seq<real>>, now: real, w: real, max: int, key: ClientKey)
    requires AllOk(log, hits, clock, w, max) && clock <= now
    requires KeyOk(Get(log', key), Get(hits', key), now, w, max)
    requires forall k :: k != key ==> Get(log', k) == Get(log, k) && Get(hits', k) == Get(hits, k)
    ensures AllOk(log', hits', now, w, max)
  {
    forall k ensures KeyOk(Get(log', k), Get(hits', k), now, w, max) {
      if k != key {
        TimePasses(Get(log, k), Get(hits, k), clock, now, w, max);
      }
    }
  }

  lemma {:induction false} PruneKeeps(log: map<ClientKey, seq<real>>, hits: map<ClientKey, seq<real>>, hits': map<ClientKey, seq<real>>,
                   clock: real, now: real, w: real, max: int, key: ClientKey)
    requires AllOk(log, hits, clock, w, max) && clock <= now
    requires Get(hits', key) == Recent(Get(hits, key), now - w)
    requires forall k :: k != key ==> Get(hits', k) == Get(hits, k)
    ensures AllOk(log, hits', now, w, max)
    ensures |Get(hits', key)| == CountSince(Get(log, key), now - w)
    ensures forall i :: 0 <= i < |Get(hits', key)| ==> Get(hits', key)[i] > now - w
  {
    assert KeyOk(Get(log, key), Get(hits, key), clock, w, max);
    PruneIsExact(Get(log, key), Get(hits, key), clock - w, now - w);
    OneKeyChanges(log, hits, clock, log, hits', now, w, max, key);
  }

  lemma {:induction false} AdmissionKeeps(log: map<ClientKey, seq<real>>, hits: map<ClientKey, seq<real>>, now: real, w: real, max: int, key: ClientKey)
    requires AllOk(log, hits, now, w, max) && |Get(hits, key)| < max
    requires forall i :: 0 <= i < |Get(hits, key)| ==> Get(hits, key)[i] > now - w
    ensures AllOk(log[key := Get(log, key) + [now]], hits[key := Get(hits, key) + [now]], now, w, max)
  {
    AdmitKeeps(Get(log, key), Get(hits, key), now, w, max);
    OneKeyChanges(log, hits, now, log[key := Get(log, key) + [now]], hits[key := Get(hits, key) + [now]], now, w, max, key);
  }

  /** Nothing since the cutoff. */
  ghost predicate IsStale(hits: seq<real>, cutoff: real) {
    forall i :: 0 <= i < |hits| ==> hits[i] < cutoff
  }

  class SlidingWindowCounter {
    const window: int
    const span: real := window as real
    const maxRequests: int
    var hits: map<ClientKey, seq<real>>
    ghost var log: map<ClientKey, seq<real>>  // every admission ever, per key
    ghost var clock: real                  // time of the latest operation

    ghost predicate Valid()
      reads this
    {
      AllOk(log, hits, clock, span, maxRequests)
    }

    constructor (window: int, maxRequests: int)
      ensures Valid() && this.window == window && this.maxRequests == maxRequests && log == map[]
    {
      this.window, this.maxRequests := window, maxRequests;
      hits, log, clock := map[], map[], 0.0;
    }

    /** In every reachable state, no window of the configured length holds more than the limit. */
    lemma {:induction false} NoWindowOverflows(key: ClientKey, lo: real)
      requires Valid()
      ensures var l := Get(log, key); CountIn(l, |l|, lo, lo + window as real) <= if maxRequests > 0 then maxRequests else 0
    {
      assert KeyOk(Get(log, key), Get(hits, key), clock, span, maxRequests);
      WindowIsBounded(Get(log, key), span, maxRequests, lo);
    }

    method Prune(key: ClientKey, now: real)
      requires Valid() && now >= clock
      modifies this`hits, this`clock
      ensures Valid() && clock == now
      ensures forall k :: k != key ==> Get(hits, k) == old(Get(hits, k))
      ensures Get(hits, key) == Recent(old(Get(hits, key)), now - span)
      ensures |Get(hits, key)| == CountSince(Get(log, key), now - span)
      ensures forall i :: 0 <= i < |Get(hits, key)| ==> Get(hits, key)[i] > now - span
    {
      var pruned := PruneHits(hits, key, now - span);
      PruneKeeps(log, hits, pruned, clock, now, span, maxRequests, key);
      hits := pruned;
      clock := now;
    }

    static method PruneHits(hits: map<ClientKey, seq<real>>, key: ClientKey, cutoff: real)
      returns (pruned: map<ClientKey, seq<real>>)
      ensures Get(pruned, key) == Recent(Get(hits, key), cutoff)
      ensures forall k :: k != key ==> Get(pruned, k) == Get(hits, k)
      ensures forall k :: k != key ==> (k in pruned <==> k in hits)
      ensures key in pruned <==> key in hits && (hits[key] == [] || Recent(hits[key], cutoff) != [])
    {
      pruned := hits;
      if key in pruned && pruned[key] != [] {
        pruned := pruned[key := Recent(pruned[key], cutoff)];
        if pruned[key] == [] {
          pruned := pruned - {key};
        }
      }
    }

    /** `allow`: admitted exactly when fewer than `maxRequests` admissions of the complete log lie
    within the last `window` seconds. */
    method Allow(key: ClientKey, now: real) returns (r: Verdict)
      requires Valid() && now >= clock
      modifies this
      ensures Valid() && clock == now
      ensures r.Crashed? <==> maxRequests <= 0
      ensures r.Admitted? <==> old(CountSince(Get(log, key), now - span)) < maxRequests
      ensures log == if r.Admitted? then old(log)[key := old(Get(log, key)) + [now]] else old(log)
      ensures r.Admitted? ==> r.remaining == maxRequests - old(CountSince(Get(log, key), now - span)) - 1
      ensures !r.Crashed? ==> r.limit == maxRequests
      ensures !r.Crashed? && now + span >= 0.0 ==> r.resetAt as real <= now + span < (r.resetAt + 1) as real
      ensures r.Denied? ==> 1 <= r.retryAfter <= window + 1
      ensures r.Denied? ==> forall t :: t >= now + r.retryAfter as real ==> AdmitsAt(Get(log, key), t, span, maxRequests)
      ensures r.Denied? ==> forall t :: now <= t < now + (r.retryAfter - 1) as real ==> !AdmitsAt(Get(log, key), t, span, maxRequests)
    {
      Prune(key, now);
      var current := |Get(hits, key)|;
      var remaining := if maxRequests - current > 0 then maxRequests - current else 0;
      var resetAt := Trunc(now + span);
      AtMostMax(Get(log, key), Get(hits, key), now, span, maxRequests);
      if current >= maxRequests {
        r := Deny(key, now, resetAt);
        return;
      }
      AdmissionKeeps(log, hits, now, span, maxRequests, key);
      hits := hits[key := Get(hits, key) + [now]];
      log := log[key := Get(log, key) + [now]];
      return Admitted(maxRequests, remaining - 1, resetAt);
    }

    /** The refusal branch of `allow`; reading a missing key of the defaultdict creates an empty list. */
    method Deny(key: ClientKey, now: real, resetAt: int) returns (r: Verdict)
      requires Valid() && clock == now && |Get(hits, key)| == (if maxRequests > 0 then maxRequests else 0)
      requires forall i :: 0 <= i < |Get(hits, key)| ==> Get(hits, key)[i] > now - span
      modifies this`hits
      ensures Valid() && !r.Admitted? && (r.Crashed? <==> maxRequests <= 0)
      ensures r.Denied? ==> r.limit == maxRequests && r.resetAt == resetAt
      ensures r.Denied? ==> 1 <= r.retryAfter <= window + 1
      ensures r.Denied? ==> forall t :: t >= now + r.retryAfter as real ==> AdmitsAt(Get(log, key), t, span, maxRequests)
      ensures r.Denied? ==> forall t :: now <= t < now + (r.retryAfter - 1) as real ==> !AdmitsAt(Get(log, key), t, span, maxRequests)
    {
      ghost var hits0 := hits;
      if key !in hits {
        hits := hits[key := []];
      }
      OneKeyChanges(log, hits0, now, log, hits, now, span, maxRequests, key);
      if hits[key] == [] {
        return Crashed;
      }
      var retryAfter := span - (now - hits[key][0]);
      RetryAfterSuffices(Get(log, key), hits[key], now, window, span, maxRequests);
      return Denied(maxRequests, resetAt, Trunc(retryAfter) + 1);
    }

    /** One round of `_periodic_cleanup`: keys idle for two windows are dropped. */
    method Cleanup(now: real)
      requires Valid() && now >= clock
      modifies this`hits, this`clock
      ensures Valid() && clock == now
      ensures forall k :: k in hits <==> k in old(hits) && !IsStale(old(hits)[k], now - 2.0 * span)
      ensures forall k :: k in hits ==> hits[k] == old(hits)[k]
    {
      var cutoff := now - 2.0 * span;
      var staleKeys := set k | k in hits && (hits[k] == [] || MaxOf(hits[k]) < cutoff);
      forall k | k in hits ensures k in staleKeys <==> IsStale(hits[k], cutoff) {
      }
      hits := hits - staleKeys;
      clock := now;
      forall k ensures KeyOk(Get(log, k), Get(hits, k), now, span, maxRequests) {
        TimePasses(Get(log, k), old(Get(hits, k)), old(clock), now, span, maxRequests);
        if k in staleKeys {
          StaleIsOutside(Get(log, k), old(Get(hits, k)), now, span, maxRequests);
        }
      }
    }
  }

  lemma {:induction false} AtMostMax(log: seq<real>, kept: seq<real>, now: real, w: real, max: int)
    requires KeyOk(log, kept, now, w, max)
    requires forall i :: 0 <= i < |kept| ==> kept[i] > now - w
    ensures |kept| <= if max > 0 then max else 0
  {
    var off := |log| - |kept|;
    assert kept != [] ==> kept[0] == log[off];
    assert kept != [] ==> kept[|kept| - 1] == log[|log| - 1];
  }

  lemma {:induction false} StaleIsOutside(log: seq<real>, hits: seq<real>, now: real, w: real, max: int)
    requires KeyOk(log, hits, now, w, max)
    requires hits == [] || MaxOf(hits) < now - 2.0 * w
    ensures KeyOk(log, [], now, w, max)
  {
    forall i | 0 <= i < |hits| ensures hits[i] <= now - w {
      assert hits[i] == log[|log| - |hits| + i];
    }
    ForgetStale(log, hits, now, w, max);
  }
}
