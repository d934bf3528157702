/** The per-endpoint limiter of `native/iroh_discovery/src/lib.rs` (`check_rate`): a queue of at most ten
    admission times, against the definition of the limit over the whole history. */
module RateLimit {
  import opened Cbor

  const RATE_LIMIT: nat := 10
  const RATE_WINDOW_MS: nat := 1000
  const U64_MAX: U64 := U64_RANGE - 1

  /** `u64::saturating_add`. */
  function SaturatingAdd(a: U64, b: nat): (r: U64) { if a + b > U64_MAX then U64_MAX else a + b }

  predicate Expired(time: U64, now: U64) { SaturatingAdd(time, RATE_WINDOW_MS) <= now }

  /** The queue after expired times are popped from its front. */
  function Trim(times: seq<U64>, now: U64): (r: seq<U64>) {
    if times != [] && Expired(times[0], now) then Trim(times[1..], now) else times
  }

  datatype Verdict = Verdict(admitted: bool, times: seq<U64>)

  /** `check_rate` on one endpoint's queue. */
  function Check(times: seq<U64>, now: U64): (r: Verdict) {
    var kept := Trim(times, now);
    if |kept| == RATE_LIMIT then Verdict(false, kept) else Verdict(true, kept + [now])
  }

  // ---------- against the whole history ----------

  /** How many admissions of a history still count. */
  function Recent(history: seq<U64>, now: U64): (n: nat) {
    if history == [] then 0 else (if Expired(history[0], now) then 0 else 1) + Recent(history[1..], now)
  }

  ghost predicate Sorted(s: seq<U64>) { forall i, j :: 0 <= i < j < |s| ==> s[i] <= s[j] }

  ghost predicate Suffix(a: seq<U64>, b: seq<U64>) {
    |a| <= |b| && forall i :: 0 <= i < |a| ==> a[i] == b[|b| - |a| + i]
  }

  /** The queue is what is left of the history once times expired at `clock` are dropped from its front;
      nothing in the history is later than `clock`. */
  ghost predicate Inv(times: seq<U64>, history: seq<U64>, clock: U64) {
    && |times| <= RATE_LIMIT
    && Sorted(history)
    && (forall i :: 0 <= i < |history| ==> history[i] <= clock)
    && Suffix(times, history)
    && (forall i :: 0 <= i < |history| - |times| ==> Expired(history[i], clock))
  }

  lemma {:induction false} TrimIsSuffix(times: seq<U64>, now: U64)
    ensures var kept := Trim(times, now);
            && Suffix(kept, times)
            && (forall i :: 0 <= i < |times| - |kept| ==> Expired(times[i], now))
            && (kept != [] ==> !Expired(kept[0], now))
  {
    if times != [] && Expired(times[0], now) {
      TrimIsSuffix(times[1..], now);
    }
  }

  lemma {:induction false} RecentSplits(history: seq<U64>, k: nat, now: U64)
    requires k <= |history|
    requires forall i :: 0 <= i < k ==> Expired(history[i], now)
    requires forall i :: k <= i < |history| ==> !Expired(history[i], now)
    ensures Recent(history, now) == |history| - k
  {
    if history != [] {
      RecentSplits(history[1..], if k > 0 then k - 1 else 0, now);
    }
  }

  /** Popping expired times off the queue, at a later clock, keeps the invariant. */
  lemma DropOldest(kept: seq<U64>, times: seq<U64>, history: seq<U64>, clock: U64, now: U64)
    requires Inv(times, history, clock) && clock <= now && Suffix(kept, times)
    requires forall i :: 0 <= i < |times| - |kept| ==> Expired(times[i], now)
    ensures Inv(kept, history, now)
  {
    var k := |history| - |times|;
    forall i | 0 <= i < |history| - |kept|
      ensures Expired(history[i], now)
    {
      if i >= k {
        assert times[i - k] == history[i];
      }
    }
  }

  /** The trimmed queue holds exactly the admissions that still count. */
  lemma TrimCounts(times: seq<U64>, history: seq<U64>, clock: U64, now: U64)
    requires Inv(times, history, clock) && clock <= now
    ensures |Trim(times, now)| == Recent(history, now)
  {
    TrimIsSuffix(times, now);
    var kept := Trim(times, now);
    var k := |history| - |kept|;
    DropOldest(kept, times, history, clock, now);
    assert kept != [] ==> kept[0] == history[k];
    RecentSplits(history, k, now);
  }

  /** The bounded queue decides as the whole history would: admitted if and only if fewer than ten
      earlier admissions still count. */
  lemma QueueDecides(times: seq<U64>, history: seq<U64>, clock: U64, now: U64)
    requires Inv(times, history, clock) && clock <= now
    ensures Check(times, now).admitted <==> Recent(history, now) < RATE_LIMIT
  {
    TrimCounts(times, history, clock, now);
    TrimIsSuffix(times, now);
  }

  lemma CheckKeepsInv(times: seq<U64>, history: seq<U64>, clock: U64, now: U64)
    requires Inv(times, history, clock) && clock <= now
    ensures var r := Check(times, now); Inv(r.times, if r.admitted then history + [now] else history, now)
  {
    hide Trim, Inv, Suffix, Expired;
    TrimIsSuffix(times, now);
    DropOldest(Trim(times, now), times, history, clock, now);
    if Check(times, now).admitted {
      InvBound(times, history, clock);
      SuffixShorter(Trim(times, now), times);
      Admitted(Trim(times, now), history, now);
    }
  }

  lemma InvBound(times: seq<U64>, history: seq<U64>, clock: U64)
    requires Inv(times, history, clock)
    ensures |times| <= RATE_LIMIT
  {
  }

  lemma SuffixShorter(a: seq<U64>, b: seq<U64>)
    requires Suffix(a, b)
    ensures |a| <= |b|
  {
  }

  lemma Admitted(kept: seq<U64>, history: seq<U64>, now: U64)
    requires Inv(kept, history, now) && |kept| < RATE_LIMIT
    ensures Inv(kept + [now], history + [now], now)
  {
    hide Expired;
    var h := history + [now];
    assert forall i :: 0 <= i < |history| ==> h[i] == history[i];
  }

  // ---------- runs ----------

  datatype Meter = Meter(times: seq<U64>, history: seq<U64>)

  /** One endpoint's requests, from an empty queue. */
  function Run(requests: seq<U64>): (m: Meter)
    decreases |requests|
  {
    if requests == [] then Meter([], []) else
    var m, now := Run(requests[..|requests| - 1]), requests[|requests| - 1];
    var r := Check(m.times, now);
    Meter(r.times, if r.admitted then m.history + [now] else m.history)
  }

  lemma {:induction false} RunInv(requests: seq<U64>, clock: U64)
    requires Sorted(requests) && forall i :: 0 <= i < |requests| ==> requests[i] <= clock
    ensures Inv(Run(requests).times, Run(requests).history, clock)
    decreases |requests|
  {
    if requests != [] {
      var now := requests[|requests| - 1];
      RunInv(requests[..|requests| - 1], now);
      var m := Run(requests[..|requests| - 1]);
      CheckKeepsInv(m.times, m.history, now, now);
      InvLater(Run(requests).times, Run(requests).history, now, clock);
    }
  }

  lemma InvLater(times: seq<U64>, history: seq<U64>, clock: U64, later: U64)
    requires Inv(times, history, clock) && clock <= later
    ensures Inv(times, history, later)
  {
  }

  /** The limiter refines its log: over any requests with a clock that does not go back, the next one is admitted if
      and only if fewer than ten earlier admissions still count. */
  lemma RunDecides(requests: seq<U64>, now: U64)
    requires Sorted(requests) && forall i :: 0 <= i < |requests| ==> requests[i] <= now
    ensures Check(Run(requests).times, now).admitted <==> Recent(Run(requests).history, now) < 10
  {
    RunInv(requests, now);
    QueueDecides(Run(requests).times, Run(requests).history, now, now);
  }

  /** Every admission is at least a window after the tenth admission before it. */
  ghost predicate Spaced(history: seq<U64>) {
    forall i, j :: 0 <= i && j == i + RATE_LIMIT && j < |history| ==> Expired(history[i], history[j])
  }

  lemma CheckKeepsSpaced(times: seq<U64>, history: seq<U64>, clock: U64, now: U64)
    requires Inv(times, history, clock) && clock <= now && Spaced(history) && Check(times, now).admitted
    ensures Spaced(history + [now])
  {
    TrimIsSuffix(times, now);
    var kept := Trim(times, now);
    var i := |history| - RATE_LIMIT;
    if i >= 0 {
      assert Expired(history[i], now);
    }
  }

  lemma {:induction false} RunSpaced(requests: seq<U64>)
    requires Sorted(requests)
    ensures Spaced(Run(requests).history)
    decreases |requests|
  {
    if requests != [] {
      var before, now := requests[..|requests| - 1], requests[|requests| - 1];
      RunSpaced(before);
      RunInv(before, now);
      var m := Run(before);
      if Check(m.times, now).admitted {
        CheckKeepsSpaced(m.times, m.history, now, now);
      }
    }
  }

  /** Away from the end of the clock's range, no window of 1000 ms holds more than ten admissions, whatever is
      requested: the eleventh comes at least a window after the first. */
  lemma WindowHolds(requests: seq<U64>, i: nat, j: nat)
    requires Sorted(requests) && i + 10 <= j < |Run(requests).history|
    ensures var h := Run(requests).history; h[j] == U64_MAX || (h[i] <= h[j] && h[j] - h[i] >= 1000)
  {
    var h := Run(requests).history;
    RunSpaced(requests);
    assert Expired(h[i], h[i + RATE_LIMIT]);
    RunInv(requests, U64_MAX);
    assert h[i + RATE_LIMIT] <= h[j];
  }

  /** The saturating test is the intended one exactly when the clock is not at its last value, or the window ends
      within the range. */
  lemma SaturationExact(time: U64, now: U64)
    ensures (Expired(time, now) <==> time + 1000 <= now) <==> (now < U64_MAX || time + 1000 <= U64_MAX)
  {
  }

  function Repeat(now: U64, n: nat): (s: seq<U64>)
    ensures |s| == n && forall i :: 0 <= i < n ==> s[i] == now
  {
    if n == 0 then [] else Repeat(now, n - 1) + [now]
  }

  /** At the last value of the clock the limiter admits everything, so there the bound fails. */
  lemma {:induction false} BurstAtClockEnd(n: nat)
    ensures Run(Repeat(U64_MAX, n)).history == Repeat(U64_MAX, n)
    ensures |Run(Repeat(U64_MAX, n)).times| <= 1
  {
    if n > 0 {
      BurstAtClockEnd(n - 1);
      var requests := Repeat(U64_MAX, n);
      assert requests[..n - 1] == Repeat(U64_MAX, n - 1);
      TrimIsSuffix(Run(requests[..n - 1]).times, U64_MAX);
    }
  }
}
