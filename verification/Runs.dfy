/** What every run of the breaker keeps: counter ranges, stays, demotion timing,
    bounded escalation and bounded recovery. */
module Runs {
  import opened Uint64
  import opened Fsm

  predicate HealthyAt(p: Params, xs: seq<Input>, i: nat)
    requires i < |xs|
  {
    IsHealthy(xs[i].metrics, p)
  }

  predicate CriticalAt(p: Params, xs: seq<Input>, i: nat)
    requires i < |xs|
  {
    IsCritical(xs[i].metrics, p, At(p, xs, i).suspiciousDuration)
  }

  /** Later blocks do not change earlier machines. */
  lemma {:induction false} AtPrefix(p: Params, xs: seq<Input>, ys: seq<Input>, i: nat)
    requires i <= |xs|
    ensures At(p, xs + ys, i) == At(p, xs, i)
  {
    if i > 0 {
      AtPrefix(p, xs, ys, i - 1);
    }
  }

  /** Unhealthy blocks that end a stay in the machine's current state. */
  function Patience(m: Machine, p: Params): nat {
    if m.state == Recovering then Max(EffectiveThreshold(m.failedRecoveryAttempts, p), 1) else p.DemoteAfter()
  }

  /** Reachable counter ranges. */
  predicate InRange(m: Machine, p: Params) {
    && !m.state.Unknown?
    && (m.state == Suspicious ==>
          && 1 <= m.suspiciousDuration <= p.maxSuspiciousTime
          && m.suspiciousSafeBlocks < m.suspiciousDuration
          && m.suspiciousSafeBlocks < p.ExitWait())
    && (m.state != Suspicious ==> m.suspiciousDuration == 0 && m.suspiciousSafeBlocks == 0)
    && (m.state == Recovering ==> m.safeBlocks <= p.hysteresisWait)
    && (m.state != Recovering ==> m.safeBlocks == 0)
    && (m.state == Anchored || m.state == Recovering ==> m.unhealthyStreak < Patience(m, p))
    && (m.state == Suspicious || m.state == Sovereign ==> m.unhealthyStreak == 0)
  }

  lemma {:induction false} CappedBackoff(d: nat, n: nat, cap: nat)
    ensures Backoff(d, n, cap) <= cap
    decreases n
  {
    if n > 0 && d < cap {
      CappedBackoff(Double(d), n - 1, cap);
    }
  }

  lemma StepStaysInRange(m: Machine, x: Input, p: Params)
    requires p.Sized() && InRange(m, p)
    ensures InRange(Step(m, x, p), p)
  {
    CappedBackoff(p.downHysteresisThreshold, m.failedRecoveryAttempts, p.maxDownHysteresisThreshold);
    if !IsCritical(x.metrics, p, m.suspiciousDuration) {
      WarningIsUnhealthy(x.metrics, p, m.suspiciousDuration);
    }
  }

  /** Every machine of every run has its counters in range; in particular the stored
      cap of MaxSuspiciousTime + 1 is never reached. */
  lemma {:induction false} AlwaysInRange(p: Params, xs: seq<Input>, i: nat)
    requires p.Sized() && i <= |xs|
    ensures InRange(At(p, xs, i), p)
  {
    if i > 0 {
      AlwaysInRange(p, xs, i - 1);
      StepStaysInRange(At(p, xs, i - 1), xs[i - 1], p);
    }
  }

  /** The first index of the unbroken stay in the state held after `n` blocks. */
  function StayStart(p: Params, xs: seq<Input>, n: nat): (s: nat)
    requires n <= |xs|
    ensures s <= n
    ensures forall k :: s <= k <= n ==> At(p, xs, k).state == At(p, xs, n).state
    ensures s == 0 || At(p, xs, s - 1).state != At(p, xs, n).state
  {
    if n == 0 || At(p, xs, n - 1).state != At(p, xs, n).state then n else StayStart(p, xs, n - 1)
  }

  /** Unhealthy blocks at the end of the block range [s, n). */
  function TrailingUnhealthy(p: Params, xs: seq<Input>, s: nat, n: nat): (t: nat)
    requires s <= n <= |xs|
    ensures t <= n - s
    ensures forall k :: n - t <= k < n ==> !HealthyAt(p, xs, k)
    ensures t < n - s ==> HealthyAt(p, xs, n - t - 1)
    decreases n
  {
    if n == s || HealthyAt(p, xs, n - 1) then 0 else TrailingUnhealthy(p, xs, s, n - 1) + 1
  }

  /** In ANCHORED and RECOVERING the streak is the number of trailing unhealthy blocks
      absorbed since the stay began. */
  lemma {:induction false} StreakCountsTail(p: Params, xs: seq<Input>, n: nat)
    requires p.Sized() && n <= |xs|
    requires At(p, xs, n).state == Anchored || At(p, xs, n).state == Recovering
    ensures At(p, xs, n).unhealthyStreak == TrailingUnhealthy(p, xs, StayStart(p, xs, n), n)
  {
    if n > 0 && At(p, xs, n - 1).state == At(p, xs, n).state {
      StreakCountsTail(p, xs, n - 1);
      AlwaysInRange(p, xs, n - 1);
      CappedBackoff(p.downHysteresisThreshold, At(p, xs, n - 1).failedRecoveryAttempts, p.maxDownHysteresisThreshold);
    }
  }

  /** A non-critical block demotes ANCHORED exactly when it is the DownHysteresisThreshold-th
      consecutive unhealthy block of the stay, and RECOVERING exactly when it is the
      effective-threshold-th. */
  lemma DemotionTiming(p: Params, xs: seq<Input>, n: nat)
    requires p.Sized() && n < |xs|
    requires At(p, xs, n).state == Anchored || At(p, xs, n).state == Recovering
    requires !CriticalAt(p, xs, n)
    ensures var m := At(p, xs, n);
            At(p, xs, n + 1).state == (if m.state == Anchored then Suspicious else Sovereign)
            <==> TrailingUnhealthy(p, xs, StayStart(p, xs, n), n + 1) == Patience(m, p)
  {
    var m := At(p, xs, n);
    StreakCountsTail(p, xs, n);
    AlwaysInRange(p, xs, n);
    CappedBackoff(p.downHysteresisThreshold, m.failedRecoveryAttempts, p.maxDownHysteresisThreshold);
    WarningIsUnhealthy(xs[n].metrics, p, m.suspiciousDuration);
    assert At(p, xs, n + 1) == Step(m, xs[n], p);
  }

  /** A critical block sends ANCHORED, SUSPICIOUS and RECOVERING straight to SOVEREIGN whatever the
      counters hold, and ANCHORED and SUSPICIOUS go there on no other block. */
  lemma CriticalEscalates(p: Params, xs: seq<Input>, n: nat)
    requires n < |xs|
    requires var s := At(p, xs, n).state; s == Anchored || s == Suspicious || s == Recovering
    ensures CriticalAt(p, xs, n) ==> At(p, xs, n + 1).state == Sovereign
    ensures At(p, xs, n).state != Recovering ==> (At(p, xs, n + 1).state == Sovereign <==> CriticalAt(p, xs, n))
  {
    assert At(p, xs, n + 1) == Step(At(p, xs, n), xs[n], p);
  }

  /** In SUSPICIOUS the duration counts the blocks of the stay, entry block included. */
  lemma {:induction false} DurationCountsStay(p: Params, xs: seq<Input>, n: nat)
    requires p.Sized() && n <= |xs|
    requires At(p, xs, n).state == Suspicious
    ensures At(p, xs, n).suspiciousDuration == n - StayStart(p, xs, n) + 1
  {
    AlwaysInRange(p, xs, n - 1);
    if At(p, xs, n - 1).state == Suspicious {
      DurationCountsStay(p, xs, n - 1);
    }
  }

  /** No SUSPICIOUS stay lasts longer than MaxSuspiciousTime blocks. */
  lemma SuspiciousStayBounded(p: Params, xs: seq<Input>, s: nat, n: nat)
    requires p.Sized() && s <= n <= |xs|
    requires forall k :: s <= k <= n ==> At(p, xs, k).state == Suspicious
    ensures n - s + 1 <= p.maxSuspiciousTime
  {
    DurationCountsStay(p, xs, n);
    AlwaysInRange(p, xs, n);
    var t := StayStart(p, xs, n);
  }

  /** Unhealthy blocks that certainly reach SOVEREIGN from here. */
  function Distress(m: Machine, p: Params): int {
    match m.state
    case Anchored => p.DemoteAfter() - m.unhealthyStreak + p.maxSuspiciousTime
    case Suspicious => p.maxSuspiciousTime - m.suspiciousDuration + 1
    case _ => 0
  }

  lemma DistressFalls(m: Machine, x: Input, p: Params)
    requires p.Sized() && InRange(m, p)
    requires m.state == Anchored || m.state == Suspicious || m.state == Sovereign
    requires !IsHealthy(x.metrics, p)
    ensures var m' := Step(m, x, p);
            && (m'.state == Anchored || m'.state == Suspicious || m'.state == Sovereign)
            && (m.state == Sovereign ==> m'.state == Sovereign)
            && (m'.state != Sovereign ==> 0 < Distress(m', p) <= Distress(m, p) - 1)
  {
    StepStaysInRange(m, x, p);
    if !IsCritical(x.metrics, p, m.suspiciousDuration) {
      WarningIsUnhealthy(x.metrics, p, m.suspiciousDuration);
    }
  }

  lemma {:induction false} DistressRuns(p: Params, xs: seq<Input>, i: nat, k: nat)
    requires p.Sized() && i <= k <= |xs|
    requires At(p, xs, i).state == Anchored || At(p, xs, i).state == Suspicious
    requires forall j :: i <= j < k ==> !HealthyAt(p, xs, j)
    ensures At(p, xs, k).state == Anchored || At(p, xs, k).state == Suspicious || At(p, xs, k).state == Sovereign
    ensures At(p, xs, k).state != Sovereign ==>
              0 < Distress(At(p, xs, k), p) <= Distress(At(p, xs, i), p) - (k - i)
    decreases k
  {
    AlwaysInRange(p, xs, i);
    if i < k {
      DistressRuns(p, xs, i, k - 1);
      AlwaysInRange(p, xs, k - 1);
      assert !HealthyAt(p, xs, k - 1);
      DistressFalls(At(p, xs, k - 1), xs[k - 1], p);
    }
  }

  /** Bounded escalation: from any reachable ANCHORED or SUSPICIOUS machine,
      max(DownHysteresisThreshold, 1) + MaxSuspiciousTime unhealthy blocks end in SOVEREIGN. */
  lemma BoundedEscalation(p: Params, xs: seq<Input>, i: nat, k: nat)
    requires p.Sized()
    requires i + p.DemoteAfter() + p.maxSuspiciousTime <= k <= |xs|
    requires At(p, xs, i).state == Anchored || At(p, xs, i).state == Suspicious
    requires forall j :: i <= j < k ==> !HealthyAt(p, xs, j)
    ensures At(p, xs, k).state == Sovereign
  {
    DistressRuns(p, xs, i, k);
    AlwaysInRange(p, xs, i);
  }

  /** A healthy block, with the proof flag up if the machine is RECOVERING. */
  predicate CalmAt(p: Params, xs: seq<Input>, j: nat)
    requires j < |xs|
  {
    HealthyAt(p, xs, j) && (At(p, xs, j).state == Recovering ==> xs[j].proofValid)
  }

  /** Healthy blocks, with the proof flag up, that certainly reach ANCHORED from here. */
  function Distance(m: Machine, p: Params): int {
    match m.state
    case Recovering => p.hysteresisWait - m.safeBlocks + 1
    case Sovereign => p.hysteresisWait + 2
    case Suspicious => p.maxSuspiciousTime - m.suspiciousDuration + 1 + p.hysteresisWait + 2
    case _ => 0
  }

  lemma DistanceFalls(m: Machine, x: Input, p: Params)
    requires p.Sized() && p.minAnchorPeers >= 1 && p.maxSuspiciousTime >= 1
    requires InRange(m, p)
    requires IsHealthy(x.metrics, p) && (m.state == Recovering ==> x.proofValid)
    ensures Distance(Step(m, x, p), p) <= Max(Distance(m, p) - 1, 0)
  {
  }

  lemma DistanceFallsAt(p: Params, xs: seq<Input>, k: nat)
    requires p.Sized() && p.minAnchorPeers >= 1 && p.maxSuspiciousTime >= 1
    requires k < |xs| && CalmAt(p, xs, k)
    ensures Distance(At(p, xs, k + 1), p) <= Max(Distance(At(p, xs, k), p) - 1, 0)
  {
    AlwaysInRange(p, xs, k);
    DistanceFalls(At(p, xs, k), xs[k], p);
  }

  lemma {:induction false} DistanceRuns(p: Params, xs: seq<Input>, i: nat, k: nat)
    requires p.Sized() && p.minAnchorPeers >= 1 && p.maxSuspiciousTime >= 1
    requires i <= k <= |xs|
    requires forall j :: i <= j < k ==> CalmAt(p, xs, j)
    ensures Distance(At(p, xs, k), p) <= Max(Distance(At(p, xs, i), p) - (k - i), 0)
    decreases k
  {
    if i == k {
      AlwaysInRange(p, xs, i);
    } else {
      DistanceRuns(p, xs, i, k - 1);
      assert CalmAt(p, xs, k - 1);
      DistanceFallsAt(p, xs, k - 1);
    }
  }

  /** Bounded recovery: healthy blocks with the proof flag up while RECOVERING bring any
      reachable machine to ANCHORED within MaxSuspiciousTime + HysteresisWait + 2 blocks,
      and it stays there. */
  lemma BoundedRecovery(p: Params, xs: seq<Input>, i: nat, k: nat)
    requires p.Sized() && p.minAnchorPeers >= 1 && p.maxSuspiciousTime >= 1
    requires i + p.maxSuspiciousTime + p.hysteresisWait + 2 <= k <= |xs|
    requires forall j :: i <= j < k ==> CalmAt(p, xs, j)
    ensures At(p, xs, k).state == Anchored
  {
    DistanceRuns(p, xs, i, k);
    AlwaysInRange(p, xs, i);
    AlwaysInRange(p, xs, k);
  }

  /** A snapshot that is healthy and has `anchors` anchor peers. */
  function Green(p: Params, anchors: nat): Metrics {
    Metrics(0, false, 0, false, false, p.minSubnetDiversity, anchors, p.minPeers, 0, p.minAvgTenure, 0)
  }

  /** ANCHORED can reach SOVEREIGN without passing through SUSPICIOUS, for all parameters. */
  lemma EclipseSkipsSuspicious(p: Params)
    ensures var xs := [Input(Green(p, 0), false)];
            At(p, xs, 0).state == Anchored && At(p, xs, 1).state == Sovereign
  {
    assert At(p, [Input(Green(p, 0), false)], 1) == Step(Genesis, Input(Green(p, 0), false), p);
  }

  function Steady(x: Input, n: nat): seq<Input> {
    seq(n, _ => x)
  }

  lemma {:induction false} GreenFlaps(p: Params, n: nat, i: nat)
    requires p.Valid() && p.Sized() && (p.minAnchorPeers == 0 || p.maxSuspiciousTime == 0)
    requires 1 <= i <= n
    ensures At(p, Steady(Input(Green(p, p.minAnchorPeers), true), n), i).state
         == if i % 2 == 1 then Sovereign else Recovering
  {
    var xs := Steady(Input(Green(p, p.minAnchorPeers), true), n);
    assert At(p, xs, 0) == Genesis;
    if i > 1 {
      GreenFlaps(p, n, i - 1);
    }
    AlwaysInRange(p, xs, i - 1);
  }

  /** The hypotheses of bounded recovery are exactly right: under valid parameters, healthy
      blocks with the proof flag up always settle in ANCHORED if and only if at least one
      anchor peer and one SUSPICIOUS block are demanded. */
  lemma RecoveryExactWhen(p: Params)
    requires p.Valid() && p.Sized()
    ensures (forall xs: seq<Input>, k: nat ::
               (&& p.maxSuspiciousTime + p.hysteresisWait + 2 <= k <= |xs|
                && (forall j :: 0 <= j < k ==> HealthyAt(p, xs, j) && xs[j].proofValid))
               ==> At(p, xs, k).state == Anchored)
            <==> (p.minAnchorPeers >= 1 && p.maxSuspiciousTime >= 1)
  {
    if p.minAnchorPeers >= 1 && p.maxSuspiciousTime >= 1 {
      forall xs: seq<Input>, k: nat |
        && p.maxSuspiciousTime + p.hysteresisWait + 2 <= k <= |xs|
        && (forall j :: 0 <= j < k ==> HealthyAt(p, xs, j) && xs[j].proofValid)
        ensures At(p, xs, k).state == Anchored
      {
        assert forall j :: 0 <= j < k ==> CalmAt(p, xs, j);
        BoundedRecovery(p, xs, 0, k);
      }
    } else {
      var k := p.maxSuspiciousTime + p.hysteresisWait + 2;
      var xs := Steady(Input(Green(p, p.minAnchorPeers), true), k);
      assert forall j :: 0 <= j < k ==> HealthyAt(p, xs, j) && xs[j].proofValid;
      GreenFlaps(p, k, k);
    }
  }

  lemma {:induction false} LockedAhead(p: Params, xs: seq<Input>, i: nat, k: nat)
    requires p.Sized() && i <= k <= |xs| && k <= i + p.hysteresisWait + 1
    requires At(p, xs, i).state == Sovereign
    ensures WithdrawLocked(At(p, xs, k).state)
    ensures At(p, xs, k).state == Recovering ==> k > i && At(p, xs, k).safeBlocks <= k - i - 1
    decreases k
  {
    if i < k {
      LockedAhead(p, xs, i, k - 1);
      AlwaysInRange(p, xs, k - 1);
    }
  }

  /** Every SOVEREIGN block opens at least HysteresisWait + 2 consecutive locked blocks. */
  lemma MinimumLockout(p: Params, xs: seq<Input>, i: nat)
    requires p.Sized() && i <= |xs|
    requires At(p, xs, i).state == Sovereign
    ensures forall k :: i <= k < i + p.hysteresisWait + 2 && k <= |xs| ==> WithdrawLocked(At(p, xs, k).state)
  {
    forall k | i <= k < i + p.hysteresisWait + 2 && k <= |xs| ensures WithdrawLocked(At(p, xs, k).state) {
      LockedAhead(p, xs, i, k);
    }
  }
}
