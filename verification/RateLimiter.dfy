/** The sliding-window rate limiter: one queue of admission times per key. */
module RateLimiter {
  import opened Arithmetic
  import opened Sequences

  /** One minute, in nanoseconds. */
  const WINDOW := 60_000_000_000

  /** The code compares whole seconds: the difference is truncated before it is compared with 60. */
  predicate Stale(t: int, now: int) {
    TruncDiv(now - t, NANOS_PER_SECOND) >= 60
  }

  /** The truncation is harmless: what is evicted is exactly what is 60 s old or older. */
  lemma StaleIffWindowPassed(t: int, now: int)
    ensures Stale(t, now) <==> now - t >= WINDOW
  {
    if now - t < 0 {
      assert -((t - now) / NANOS_PER_SECOND) <= 0;
    }
  }

  /** Eviction looks only at the front of the queue. */
  function DropStale(queue: seq<int>, now: int): seq<int> {
    if queue != [] && Stale(queue[0], now) then DropStale(queue[1..], now) else queue
  }

  predicate Admits(m: int, queue: seq<int>, now: int) {
    m <= 0 || |DropStale(queue, now)| < m
  }

  function NextQueue(m: int, queue: seq<int>, now: int): seq<int> {
    if m <= 0 then queue
    else if Admits(m, queue, now) then DropStale(queue, now) + [now]
    else DropStale(queue, now)
  }

  function Queue(buckets: map<string, seq<int>>, key: string): seq<int> {
    if key in buckets then buckets[key] else []
  }

  class Limiter {
    const maxRpm: int
    var buckets: map<string, seq<int>>

    constructor (maxRequestsPerMinute: int)
      ensures maxRpm == maxRequestsPerMinute && buckets == map[]
    {
      maxRpm := maxRequestsPerMinute;
      buckets := map[];
    }

    method Allow(key: string, now: int) returns (ok: bool)
      modifies this
      ensures ok == Admits(maxRpm, Queue(old(buckets), key), now)
      ensures buckets == if maxRpm <= 0 then old(buckets)
                         else old(buckets)[key := NextQueue(maxRpm, Queue(old(buckets), key), now)]
    {
      if maxRpm <= 0 { return true; }
      if key !in buckets {
        buckets := buckets[key := []];
      }
      while buckets[key] != [] && Stale(buckets[key][0], now)
        invariant key in buckets && buckets == old(buckets)[key := buckets[key]]
        invariant DropStale(buckets[key], now) == DropStale(Queue(old(buckets), key), now)
        decreases |buckets[key]|
      {
        buckets := buckets[key := buckets[key][1..]];
      }
      if |buckets[key]| >= maxRpm { return false; }
      buckets := buckets[key := buckets[key] + [now]];
      return true;
    }
  }

  // ----- the history of one key -----

  ghost predicate Sorted(s: seq<int>) {
    forall i, j :: 0 <= i <= j < |s| ==> s[i] <= s[j]
  }

  /** The queue after the first n requests. */
  ghost function QueueAfter(m: int, times: seq<int>, n: nat): seq<int>
    requires n <= |times|
  {
    if n == 0 then [] else NextQueue(m, QueueAfter(m, times, n - 1), times[n - 1])
  }

  /** The positions of the admitted requests among the first n. */
  ghost function Admitted(m: int, times: seq<int>, n: nat): seq<nat>
    requires n <= |times|
  {
    if n == 0 then []
    else Admitted(m, times, n - 1) + if Admits(m, QueueAfter(m, times, n - 1), times[n - 1]) then [n - 1] else []
  }

  /** How many of the times lie in [lo, hi). */
  ghost function CountIn(s: seq<int>, lo: int, hi: int): nat {
    if s == [] then 0
    else CountIn(s[..|s| - 1], lo, hi) + if lo <= s[|s| - 1] < hi then 1 else 0
  }

  ghost function WindowCount(s: seq<int>, start: int): nat {
    CountIn(s, start, start + WINDOW)
  }

  /** No half-open 60-second interval, wherever it lies, holds more than m of the times. */
  ghost predicate Capped(s: seq<int>, m: int) {
    forall start :: WindowCount(s, start) <= m
  }

  ghost predicate Apart(s: seq<int>, i: nat, m: nat)
    requires i + m < |s|
  {
    s[i + m] - s[i] >= WINDOW
  }

  /** Each time is a full window after the m-th time before it. */
  ghost predicate Spaced(s: seq<int>, m: nat) {
    forall i: nat :: i + m < |s| ==> Apart(s, i, m)
  }

  // ----- counting in windows -----

  lemma {:induction false} CountNone(s: seq<int>, lo: int, hi: int)
    requires forall i :: 0 <= i < |s| ==> !(lo <= s[i] < hi)
    ensures CountIn(s, lo, hi) == 0
  {
    if s == [] {
    } else {
      CountNone(s[..|s| - 1], lo, hi);
    }
  }

  lemma {:induction false} CountBeyondPrefix(s: seq<int>, lo: int, hi: int, k: nat)
    requires k <= |s|
    ensures CountIn(s[..k], lo, hi) <= CountIn(s, lo, hi) <= CountIn(s[..k], lo, hi) + (|s| - k)
  {
    if k < |s| {
      CountBeyondPrefix(s[..|s| - 1], lo, hi, k);
      assert s[..|s| - 1][..k] == s[..k];
    } else {
      assert s[..k] == s;
    }
  }

  lemma {:induction false} CountRun(s: seq<int>, lo: int, hi: int, k: nat)
    requires k <= |s| && forall i :: k <= i < |s| ==> lo <= s[i] < hi
    ensures CountIn(s, lo, hi) >= |s| - k
  {
    if k == |s| {
    } else {
      CountRun(s[..|s| - 1], lo, hi, k);
    }
  }

  lemma SpacedPrefix(s: seq<int>, m: nat, k: nat)
    requires Spaced(s, m) && k <= |s|
    ensures Spaced(s[..k], m)
  {
    forall i: nat | i + m < k ensures Apart(s[..k], i, m) {
      assert Apart(s, i, m);
    }
  }

  lemma {:induction false} SpacedWindow(s: seq<int>, m: int, a: int)
    requires m >= 1 && Sorted(s) && Spaced(s, m)
    ensures WindowCount(s, a) <= m
  {
    if s == [] {
    } else {
      var n := |s| - 1;
      if a <= s[n] < a + WINDOW {
        var k := if n + 1 <= m then 0 else n + 1 - m;
        forall i | 0 <= i < k ensures !(a <= s[..k][i] < a + WINDOW) {
          assert Apart(s, n - m, m) && s[i] <= s[n - m];
        }
        CountNone(s[..k], a, a + WINDOW);
        CountBeyondPrefix(s, a, a + WINDOW, k);
      } else {
        SpacedPrefix(s, m, n);
        SpacedWindow(s[..n], m, a);
      }
    }
  }

  /** Keeping the cap in every window is the same as keeping m-apart admissions a window apart. */
  lemma CappedIffSpaced(s: seq<int>, m: int)
    requires m >= 1 && Sorted(s)
    ensures Capped(s, m) <==> Spaced(s, m)
  {
    if Spaced(s, m) {
      forall start ensures WindowCount(s, start) <= m {
        SpacedWindow(s, m, start);
      }
    } else {
      var i: nat :| i + m < |s| && !Apart(s, i, m);
      var j := i + m;
      CountRun(s[..j + 1], s[i], s[i] + WINDOW, i);
      CountBeyondPrefix(s, s[i], s[i] + WINDOW, j + 1);
      assert WindowCount(s, s[i]) > m;
    }
  }

  // ----- what the queue remembers -----

  /** On a queue in time order, evicting from the front keeps exactly the entries younger than a window. */
  lemma {:induction false} DropStaleKeepsTheFresh(queue: seq<int>, now: int)
    requires Sorted(queue)
    ensures var kept := DropStale(queue, now);
            && |kept| <= |queue|
            && kept == queue[|queue| - |kept|..]
            && (forall i :: 0 <= i < |queue| - |kept| ==> now - queue[i] >= WINDOW)
            && (forall i :: |queue| - |kept| <= i < |queue| ==> now - queue[i] < WINDOW)
  {
    if queue == [] {
    } else {
      StaleIffWindowPassed(queue[0], now);
      if Stale(queue[0], now) {
        DropStaleKeepsTheFresh(queue[1..], now);
      }
    }
  }

  lemma {:induction false} AdmittedIsSelection(m: int, times: seq<int>, n: nat)
    requires n <= |times|
    ensures Selection(Admitted(m, times, n), n)
  {
    if n == 0 {
    } else {
      AdmittedIsSelection(m, times, n - 1);
    }
  }

  ghost function AdmittedTimes(m: int, times: seq<int>, n: nat): seq<int>
    requires n <= |times|
  {
    AdmittedIsSelection(m, times, n);
    At(times, Admitted(m, times, n))
  }

  /** The queue is the part of the whole admission history younger than a window at the time `now`. */
  ghost predicate QueueIsRecentHistory(queue: seq<int>, history: seq<int>, m: int, now: int) {
    && |queue| <= |history| && |queue| <= m
    && queue == history[|history| - |queue|..]
    && forall i :: 0 <= i < |history| - |queue| ==> now - history[i] >= WINDOW
  }

  /** There is no m-th admission from the end, or it is a window old. */
  ghost predicate HasRoom(history: seq<int>, m: int, now: int)
    requires m >= 1
  {
    |history| < m || now - history[|history| - m] >= WINDOW
  }

  lemma AdmittedSnoc(m: int, times: seq<int>, n: nat)
    requires n < |times|
    ensures AdmittedTimes(m, times, n + 1) == AdmittedTimes(m, times, n) +
              if Admits(m, QueueAfter(m, times, n), times[n]) then [times[n]] else []
  {
  }

  lemma SelectedSorted(times: seq<int>, sel: seq<nat>)
    requires Sorted(times) && Selection(sel, |times|)
    ensures Sorted(At(times, sel))
  {
    forall i, j | 0 <= i <= j < |sel| ensures times[sel[i]] <= times[sel[j]] {
      assert i < j ==> sel[i] < sel[j];
    }
  }

  lemma AdmittedSorted(m: int, times: seq<int>, n: nat)
    requires Sorted(times) && n <= |times|
    ensures Sorted(AdmittedTimes(m, times, n))
  {
    AdmittedIsSelection(m, times, n);
    SelectedSorted(times, Admitted(m, times, n));
  }

  /** One request, in terms of the history alone. */
  lemma StepKeepsHistory(m: int, queue: seq<int>, history: seq<int>, last: int, now: int)
    requires m >= 1 && last <= now && Sorted(history)
    requires QueueIsRecentHistory(queue, history, m, last)
    ensures Admits(m, queue, now) <==> HasRoom(history, m, now)
    ensures QueueIsRecentHistory(NextQueue(m, queue, now),
                                 if Admits(m, queue, now) then history + [now] else history, m, now)
  {
    DropStaleKeepsTheFresh(queue, now);
    var kept := DropStale(queue, now);
    var gone := |history| - |kept|;
    assert kept == history[gone..];
    forall i | 0 <= i < gone ensures now - history[i] >= WINDOW {
      if i >= |history| - |queue| {
        assert queue[i - (|history| - |queue|)] == history[i];
      }
    }
    forall i | gone <= i < |history| ensures now - history[i] < WINDOW {
      assert queue[i - (|history| - |queue|)] == history[i];
    }
  }

  lemma LaterStillRecent(queue: seq<int>, history: seq<int>, m: int, last: int, now: int)
    requires last <= now && QueueIsRecentHistory(queue, history, m, last)
    ensures QueueIsRecentHistory(queue, history, m, now)
  {
  }

  /** At any moment from the n-th request on. */
  lemma {:induction false} QueueHistory(m: int, times: seq<int>, n: nat, now: int)
    requires m >= 1 && Sorted(times) && n <= |times| && (n > 0 ==> times[n - 1] <= now)
    ensures QueueIsRecentHistory(QueueAfter(m, times, n), AdmittedTimes(m, times, n), m, now)
  {
    if n == 0 {
    } else {
      var last, queue, history := times[n - 1], QueueAfter(m, times, n - 1), AdmittedTimes(m, times, n - 1);
      QueueHistory(m, times, n - 1, last);
      AdmittedSorted(m, times, n - 1);
      StepKeepsHistory(m, queue, history, last, last);
      AdmittedSnoc(m, times, n - 1);
      assert AdmittedTimes(m, times, n) == if Admits(m, queue, last) then history + [last] else history;
      LaterStillRecent(NextQueue(m, queue, last), AdmittedTimes(m, times, n), m, last, now);
    }
  }

  ghost predicate AllFresh(queue: seq<int>, now: int) {
    forall i :: 0 <= i < |queue| ==> now - queue[i] < WINDOW
  }

  lemma NextIsFresh(m: int, queue: seq<int>, now: int)
    requires m >= 1 && Sorted(queue)
    ensures AllFresh(NextQueue(m, queue, now), now)
  {
    DropStaleKeepsTheFresh(queue, now);
    var kept := DropStale(queue, now);
    forall i | 0 <= i < |kept| ensures now - kept[i] < WINDOW {
      assert kept[i] == queue[|queue| - |kept| + i];
    }
  }

  lemma SortedSuffix(queue: seq<int>, history: seq<int>, m: int, now: int)
    requires QueueIsRecentHistory(queue, history, m, now) && Sorted(history)
    ensures Sorted(queue)
  {
  }

  ghost predicate ExactlyRecent(queue: seq<int>, history: seq<int>, now: int) {
    && |queue| <= |history| && queue == history[|history| - |queue|..]
    && forall i :: 0 <= i < |history| ==> (now - history[i] < WINDOW <==> |history| - |queue| <= i)
  }

  lemma FreshIsExactlyRecent(queue: seq<int>, history: seq<int>, m: int, now: int)
    requires QueueIsRecentHistory(queue, history, m, now) && AllFresh(queue, now)
    ensures ExactlyRecent(queue, history, now)
  {
    forall i | |history| - |queue| <= i < |history| ensures now - history[i] < WINDOW {
      assert history[i] == queue[i - (|history| - |queue|)];
    }
  }

  /** Right after a request, admitted or refused, the queue holds exactly the admissions younger than a window. */
  lemma QueueIsExactlyRecent(m: int, times: seq<int>, n: nat)
    requires m >= 1 && Sorted(times) && 0 < n <= |times|
    ensures ExactlyRecent(QueueAfter(m, times, n), AdmittedTimes(m, times, n), times[n - 1])
  {
    var before, now := QueueAfter(m, times, n - 1), times[n - 1];
    QueueHistory(m, times, n - 1, now);
    AdmittedSorted(m, times, n - 1);
    SortedSuffix(before, AdmittedTimes(m, times, n - 1), m, now);
    NextIsFresh(m, before, now);
    QueueHistory(m, times, n, now);
    FreshIsExactlyRecent(QueueAfter(m, times, n), AdmittedTimes(m, times, n), m, now);
  }

  lemma AdmitsIff(m: int, times: seq<int>, n: nat, now: int)
    requires m >= 1 && Sorted(times) && n <= |times| && (n > 0 ==> times[n - 1] <= now)
    ensures Admits(m, QueueAfter(m, times, n), now) <==> HasRoom(AdmittedTimes(m, times, n), m, now)
  {
    AdmittedSorted(m, times, n);
    QueueHistory(m, times, n, now);
    StepKeepsHistory(m, QueueAfter(m, times, n), AdmittedTimes(m, times, n), now, now);
  }

  // ----- the bound over the whole history -----

  lemma SpacedSnoc(s: seq<int>, m: int, x: int)
    requires m >= 1 && Spaced(s, m) && HasRoom(s, m, x)
    ensures Spaced(s + [x], m)
  {
    forall i: nat | i + m < |s + [x]| ensures Apart(s + [x], i, m) {
      assert i + m < |s| ==> Apart(s, i, m);
    }
  }

  /** A request either leaves the admission history alone or, when there is room, extends it. */
  lemma HistoryStep(m: int, times: seq<int>, n: nat)
    requires m >= 1 && Sorted(times) && n < |times|
    ensures var before, after := AdmittedTimes(m, times, n), AdmittedTimes(m, times, n + 1);
            if HasRoom(before, m, times[n]) then after == before + [times[n]] else after == before
  {
    AdmitsIff(m, times, n, times[n]);
    AdmittedSnoc(m, times, n);
    assert AdmittedTimes(m, times, n) + [] == AdmittedTimes(m, times, n);
  }

  lemma {:induction false} AdmittedSpaced(m: int, times: seq<int>, n: nat)
    requires m >= 1 && Sorted(times) && n <= |times|
    ensures Spaced(AdmittedTimes(m, times, n), m)
  {
    if n == 0 {
    } else {
      AdmittedSpaced(m, times, n - 1);
      HistoryStep(m, times, n - 1);
      if HasRoom(AdmittedTimes(m, times, n - 1), m, times[n - 1]) {
        SpacedSnoc(AdmittedTimes(m, times, n - 1), m, times[n - 1]);
      }
    }
  }

  /** Whatever the request times, no 60-second interval anywhere in the run holds more than m admissions. */
  lemma WindowBound(m: int, times: seq<int>, n: nat)
    requires m >= 1 && Sorted(times) && n <= |times|
    ensures Capped(AdmittedTimes(m, times, n), m)
  {
    AdmittedSorted(m, times, n);
    AdmittedSpaced(m, times, n);
    CappedIffSpaced(AdmittedTimes(m, times, n), m);
  }

  /** Fewer than m of the admissions are younger than 60 s. */
  ghost predicate FewRecent(history: seq<int>, m: int, now: int) {
    CountIn(history, now - WINDOW + 1, now + 1) < m
  }

  /** On times in order, fewer than m lie in the last window exactly when the m-th from the end is too old. */
  lemma FewRecentIff(history: seq<int>, m: int, now: int)
    requires m >= 1 && Sorted(history) && forall i :: 0 <= i < |history| ==> history[i] <= now
    ensures FewRecent(history, m, now) <==> HasRoom(history, m, now)
  {
    var lo, hi := now - WINDOW + 1, now + 1;
    if HasRoom(history, m, now) {
      var k := if |history| < m then 0 else |history| - m + 1;
      forall i | 0 <= i < k ensures !(lo <= history[..k][i] < hi) {
        assert history[i] <= history[|history| - m];
      }
      CountNone(history[..k], lo, hi);
      CountBeyondPrefix(history, lo, hi, k);
    } else {
      CountRun(history, lo, hi, |history| - m);
    }
  }

  lemma AdmittedBefore(m: int, times: seq<int>, n: nat)
    requires Sorted(times) && n < |times|
    ensures forall i :: 0 <= i < |AdmittedTimes(m, times, n)| ==> AdmittedTimes(m, times, n)[i] <= times[n]
  {
    AdmittedIsSelection(m, times, n);
  }

  /** The decision, in terms of the whole history: admitted if and only if fewer than m earlier admissions
      are younger than 60 s. */
  lemma AllowsIffFewerThanLimit(m: int, times: seq<int>, n: nat)
    requires m >= 1 && Sorted(times) && n < |times|
    ensures Admits(m, QueueAfter(m, times, n), times[n]) <==> FewRecent(AdmittedTimes(m, times, n), m, times[n])
  {
    AdmitsIff(m, times, n, times[n]);
    AdmittedSorted(m, times, n);
    AdmittedBefore(m, times, n);
    FewRecentIff(AdmittedTimes(m, times, n), m, times[n]);
  }

  // ----- greedy optimality -----

  /** The limiter is ahead of the first c of sel: it has admitted at least c, each no later. */
  ghost predicate AheadOf(mine: seq<nat>, sel: seq<nat>, c: nat)
    requires c <= |sel|
  {
    c <= |mine| && forall k :: 0 <= k < c ==> mine[k] <= sel[k]
  }

  /** The first c of sel are those below n. */
  ghost predicate CountsBelow(sel: seq<nat>, n: nat, c: nat)
    requires c <= |sel|
  {
    (forall k :: 0 <= k < c ==> sel[k] < n) && (c < |sel| ==> n <= sel[c])
  }

  /** When both have admitted equally many, the limiter admits whatever the other selection admits next. */
  lemma GreedyAdmits(m: int, times: seq<int>, n: nat, sel: seq<nat>, c: nat)
    requires m >= 1 && Sorted(times) && n < |times| && c < |sel| && sel[c] == n
    requires InRange(sel, |times|) && Spaced(At(times, sel), m)
    requires AheadOf(Admitted(m, times, n), sel, c) && |Admitted(m, times, n)| == c
    ensures Admits(m, QueueAfter(m, times, n), times[n])
  {
    AdmitsIff(m, times, n, times[n]);
    if c >= m {
      assert Apart(At(times, sel), c - m, m);
      assert Admitted(m, times, n)[c - m] <= sel[c - m];
    }
  }

  lemma AheadGrows(mine: seq<nat>, extra: seq<nat>, sel: seq<nat>, c: nat)
    requires c <= |sel| && AheadOf(mine, sel, c)
    ensures AheadOf(mine + extra, sel, c)
  {
  }

  lemma AheadTakes(mine: seq<nat>, extra: seq<nat>, sel: seq<nat>, c: nat, n: nat)
    requires c < |sel| && sel[c] == n && AheadOf(mine, sel, c) && InRange(mine, n)
    requires |mine| == c ==> extra == [n]
    ensures AheadOf(mine + extra, sel, c + 1)
  {
  }

  lemma GreedyStep(m: int, times: seq<int>, n: nat, sel: seq<nat>, c: nat)
    requires m >= 1 && Sorted(times) && n < |times| && c <= |sel|
    requires InRange(sel, |times|) && Spaced(At(times, sel), m)
    requires AheadOf(Admitted(m, times, n), sel, c)
    ensures AheadOf(Admitted(m, times, n + 1), sel, if c < |sel| && sel[c] == n then c + 1 else c)
  {
    var mine := Admitted(m, times, n);
    var extra: seq<nat> := if Admits(m, QueueAfter(m, times, n), times[n]) then [n] else [];
    assert Admitted(m, times, n + 1) == mine + extra;
    if c < |sel| && sel[c] == n {
      if |mine| == c { GreedyAdmits(m, times, n, sel, c); }
      AdmittedIsSelection(m, times, n);
      AheadTakes(mine, extra, sel, c, n);
    } else {
      AheadGrows(mine, extra, sel, c);
    }
  }

  lemma NextBelow(sel: seq<nat>, n: nat, c: nat)
    requires Increasing(sel) && c <= |sel| && CountsBelow(sel, n, c)
    ensures var c' := if c < |sel| && sel[c] == n then c + 1 else c;
            c' <= |sel| && CountsBelow(sel, n + 1, c')
  {
  }

  lemma {:induction false} GreedyAhead(m: int, times: seq<int>, n: nat, sel: seq<nat>) returns (c: nat)
    requires m >= 1 && Sorted(times) && n <= |times|
    requires Increasing(sel) && InRange(sel, |times|) && Spaced(At(times, sel), m)
    ensures c <= |sel| && CountsBelow(sel, n, c) && AheadOf(Admitted(m, times, n), sel, c)
  {
    if n == 0 {
      c := 0;
    } else {
      var before := GreedyAhead(m, times, n - 1, sel);
      c := if before < |sel| && sel[before] == n - 1 then before + 1 else before;
      NextBelow(sel, n - 1, before);
      GreedyStep(m, times, n - 1, sel, before);
    }
  }

  /** No rule that keeps the cap admits more, or sooner: after any n requests, the limiter has admitted at least
      as many of them as any selection with at most m requests in every window, and its k-th admission comes no
      later than the k-th of that selection. */
  lemma GreedyIsOptimal(m: int, times: seq<int>, n: nat, sel: seq<nat>)
    requires m >= 1 && Sorted(times) && n <= |times|
    requires Selection(sel, |times|) && Capped(At(times, sel), m)
    ensures exists c: nat ::
              c <= |sel| && CountsBelow(sel, n, c) && AheadOf(Admitted(m, times, n), sel, c)
    ensures AheadOf(Admitted(m, times, |times|), sel, |sel|)
  {
    SelectedSorted(times, sel);
    CappedIffSpaced(At(times, sel), m);
    var c := GreedyAhead(m, times, n, sel);
    var all := GreedyAhead(m, times, |times|, sel);
  }

  /** Without a positive limit every request is admitted and nothing is remembered. */
  lemma {:induction false} NoLimitAdmitsAll(m: int, times: seq<int>, n: nat)
    requires n <= |times|
    ensures m <= 0 ==> QueueAfter(m, times, n) == [] && |Admitted(m, times, n)| == n
    ensures m <= 0 ==> forall k :: 0 <= k < n ==> Admitted(m, times, n)[k] == k
  {
    if n == 0 {
    } else {
      NoLimitAdmitsAll(m, times, n - 1);
    }
  }

  // ----- many keys -----

  datatype Call = Call(key: string, now: int)

  ghost function BucketsAfter(m: int, calls: seq<Call>): map<string, seq<int>> {
    if calls == [] then map[]
    else
      var before, c := BucketsAfter(m, calls[..|calls| - 1]), calls[|calls| - 1];
      if m <= 0 then before else before[c.key := NextQueue(m, Queue(before, c.key), c.now)]
  }

  ghost function TimesOf(calls: seq<Call>, key: string): seq<int> {
    if calls == [] then []
    else
      var c := calls[|calls| - 1];
      TimesOf(calls[..|calls| - 1], key) + if c.key == key then [c.now] else []
  }

  lemma {:induction false} QueueOfPrefix(m: int, times: seq<int>, more: seq<int>, n: nat)
    requires n <= |times|
    ensures QueueAfter(m, times + more, n) == QueueAfter(m, times, n)
    ensures m <= 0 ==> QueueAfter(m, times, n) == []
  {
    if n == 0 {
    } else {
      QueueOfPrefix(m, times, more, n - 1);
    }
  }

  /** Keys do not disturb each other: each key's queue is the one its own requests alone would leave. */
  lemma {:induction false} KeysAreIndependent(m: int, calls: seq<Call>, key: string)
    ensures Queue(BucketsAfter(m, calls), key) == QueueAfter(m, TimesOf(calls, key), |TimesOf(calls, key)|)
    decreases |calls|
  {
    if calls == [] {
    } else {
      var front, c := calls[..|calls| - 1], calls[|calls| - 1];
      var times := TimesOf(front, key);
      KeysAreIndependent(m, front, key);
      QueueOfPrefix(m, times, [c.now], |times|);
      QueueOfPrefix(m, TimesOf(calls, key), [], |TimesOf(calls, key)|);
      if c.key == key {
        assert TimesOf(calls, key) == times + [c.now];
      } else {
        assert TimesOf(calls, key) == times;
      }
    }
  }

  /** A clock that never goes back gives each key its requests in time order. */
  lemma {:induction false} TimesOfSorted(calls: seq<Call>, key: string)
    requires forall i, j :: 0 <= i <= j < |calls| ==> calls[i].now <= calls[j].now
    ensures Sorted(TimesOf(calls, key))
    ensures forall i :: 0 <= i < |TimesOf(calls, key)| ==> TimesOf(calls, key)[i] <= calls[|calls| - 1].now
    decreases |calls|
  {
    if calls == [] {
    } else {
      TimesOfSorted(calls[..|calls| - 1], key);
    }
  }
}
