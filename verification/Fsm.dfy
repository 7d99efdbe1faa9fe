/** Unsigned 64-bit arithmetic as the source performs it: addition and doubling wrap. */
module Uint64 {

  const MAX: nat := 0xFFFF_FFFF_FFFF_FFFF
  const SIZE: nat := 0x1_0000_0000_0000_0000
  const HALF: nat := 0x8000_0000_0000_0000

  function Inc(x: nat): nat {
    if x == MAX then 0 else x + 1
  }

  function Double(x: nat): nat {
    (2 * x) % SIZE
  }

  function Min(x: int, y: int): int {
    if x < y then x else y
  }

  function Max(x: int, y: int): int {
    if x < y then y else x
  }
}

/** The adaptive circuit-breaker: parameters, sensor predicates, the transition
    function and the five hysteresis counters. */
module Fsm {
  import opened Uint64

  /** The source keeps the state as a string; any other text is `Unknown`. */
  datatype State = Anchored | Suspicious | Sovereign | Recovering | Unknown(text: string)

  predicate WithdrawLocked(s: State) {
    s == Sovereign || s == Recovering
  }

  datatype Params = Params(
    suspiciousThreshold: nat,
    sovereignThreshold: nat,
    daThreshold: nat,
    hysteresisWait: nat,
    minPeers: nat,
    minSubnetDiversity: nat,
    minAnchorPeers: nat,
    maxChurnRate: nat,
    minAvgTenure: nat,
    maxPeerLatency: nat,
    maxSuspiciousTime: nat,
    maxIgnoreRounds: nat,
    downHysteresisThreshold: nat,
    maxDownHysteresisThreshold: nat,
    suspiciousHysteresisWait: nat,
    kDeepFinality: nat,
    maxUnprovenTailBlocks: nat,
    maxPeersPerSubnet: nat,
    maxCensorshipRounds: nat)
  {
    /** The genesis check on parameters. */
    predicate Valid() {
      && kDeepFinality != 0
      && suspiciousThreshold > Inc(kDeepFinality)
      && sovereignThreshold > Inc(kDeepFinality)
      && sovereignThreshold > suspiciousThreshold
      && daThreshold != 0
      && maxPeersPerSubnet != 0
      && maxDownHysteresisThreshold >= downHysteresisThreshold
      && maxCensorshipRounds > maxIgnoreRounds
    }

    /** Parameters small enough that no counter increment can wrap. */
    predicate Sized() {
      && hysteresisWait < HALF
      && maxSuspiciousTime < HALF
      && suspiciousHysteresisWait < HALF
      && downHysteresisThreshold < HALF
      && maxDownHysteresisThreshold <= HALF
      && maxIgnoreRounds < HALF
    }

    /** Healthy blocks that end a SUSPICIOUS stay; a zero setting still needs one. */
    function ExitWait(): nat {
      Max(suspiciousHysteresisWait, 1)
    }

    /** Unhealthy blocks that end an ANCHORED stay; a zero setting still needs one. */
    function DemoteAfter(): nat {
      Max(downHysteresisThreshold, 1)
    }
  }

  datatype Metrics = Metrics(
    btcGap: nat,
    isBtcSpvFailed: bool,
    daGap: nat,
    isDasFailed: bool,
    isAttestationFailed: bool,
    subnetDiversity: nat,
    activeAnchors: nat,
    cleanPeers: nat,
    peerChurnRate: nat,
    avgPeerTenure: nat,
    peerLatency: nat)

  predicate IsBTCGapSuspicious(m: Metrics, p: Params) {
    p.suspiciousThreshold <= m.btcGap < p.sovereignThreshold
  }

  predicate IsBTCGapSovereign(m: Metrics, p: Params) {
    m.btcGap >= p.sovereignThreshold
  }

  predicate IsBTCHealthy(m: Metrics, p: Params) {
    !IsBTCGapSuspicious(m, p) && !IsBTCGapSovereign(m, p) && !m.isBtcSpvFailed
  }

  predicate IsDAHealthy(m: Metrics, p: Params) {
    m.daGap < p.daThreshold && !m.isDasFailed && !m.isAttestationFailed
  }

  predicate IsP2PQualityHealthy(m: Metrics, p: Params) {
    && m.subnetDiversity >= p.minSubnetDiversity
    && m.activeAnchors >= p.minAnchorPeers
    && m.cleanPeers >= p.minPeers
    && m.peerChurnRate <= p.maxChurnRate
    && m.avgPeerTenure >= p.minAvgTenure
    && m.peerLatency <= p.maxPeerLatency
  }

  predicate IsCritical(m: Metrics, p: Params, suspiciousDuration: nat) {
    || IsBTCGapSovereign(m, p)
    || m.isBtcSpvFailed
    || m.activeAnchors == 0
    || suspiciousDuration >= p.maxSuspiciousTime
  }

  predicate IsWarning(m: Metrics, p: Params) {
    IsBTCGapSuspicious(m, p) || !IsDAHealthy(m, p) || !IsP2PQualityHealthy(m, p)
  }

  predicate IsHealthy(m: Metrics, p: Params) {
    && !IsBTCGapSovereign(m, p)
    && !IsBTCGapSuspicious(m, p)
    && !m.isBtcSpvFailed
    && IsDAHealthy(m, p)
    && IsP2PQualityHealthy(m, p)
  }

  /** What remains of the doubling loop with `left` iterations to go. */
  function Backoff(effective: nat, left: nat, cap: nat): nat
    decreases left
  {
    if left == 0 then Min(effective, cap)
    else if effective >= cap then cap
    else Backoff(Double(effective), left - 1, cap)
  }

  function EffectiveThreshold(failedRecoveryAttempts: nat, p: Params): nat {
    Backoff(p.downHysteresisThreshold, failedRecoveryAttempts, p.maxDownHysteresisThreshold)
  }

  /** The doubling loop as the source runs it. */
  method EffectiveDownHysteresisThreshold(failedRecoveryAttempts: nat, p: Params) returns (effective: nat)
    ensures effective == EffectiveThreshold(failedRecoveryAttempts, p)
  {
    effective := p.downHysteresisThreshold;
    for i := 0 to failedRecoveryAttempts
      invariant Backoff(effective, failedRecoveryAttempts - i, p.maxDownHysteresisThreshold)
             == EffectiveThreshold(failedRecoveryAttempts, p)
    {
      if effective >= p.maxDownHysteresisThreshold {
        return p.maxDownHysteresisThreshold;
      }
      effective := Double(effective);
    }
    if effective > p.maxDownHysteresisThreshold {
      return p.maxDownHysteresisThreshold;
    }
  }

  /** The committed state of the breaker: the FSM state and its five counters. */
  datatype Machine = Machine(
    state: State,
    safeBlocks: nat,
    suspiciousDuration: nat,
    suspiciousSafeBlocks: nat,
    unhealthyStreak: nat,
    failedRecoveryAttempts: nat)

  const Genesis: Machine := Machine(Anchored, 0, 0, 0, 0, 0)

  /** What one block feeds the breaker: a sensor snapshot and the proof flag. */
  datatype Input = Input(metrics: Metrics, proofValid: bool)

  function CalculateNextState(m: Machine, x: Input, p: Params): State {
    var critical := IsCritical(x.metrics, p, m.suspiciousDuration);
    var warning := IsWarning(x.metrics, p);
    var healthy := IsHealthy(x.metrics, p);
    match m.state
    case Anchored =>
      if critical then Sovereign
      else if warning then
        if Inc(m.unhealthyStreak) >= p.downHysteresisThreshold then Suspicious else Anchored
      else Anchored
    case Suspicious =>
      if critical then Sovereign
      else if healthy then
        if Inc(m.suspiciousSafeBlocks) >= p.suspiciousHysteresisWait then Anchored else Suspicious
      else Suspicious
    case Sovereign =>
      if healthy then Recovering else Sovereign
    case Recovering =>
      if critical then Sovereign
      else if !healthy then
        if Inc(m.unhealthyStreak) >= EffectiveThreshold(m.failedRecoveryAttempts, p) then Sovereign else Recovering
      else if m.safeBlocks == p.hysteresisWait && x.proofValid then Anchored
      else Recovering
    case Unknown(_) => m.state
  }

  /** The rule shared by both leaky counters: up one with a cap, down one to zero. */
  function Leak(counter: nat, healthy: bool, cap: nat): nat {
    if healthy then
      if Inc(counter) > cap then cap else Inc(counter)
    else if counter == 0 then 0 else counter - 1
  }

  function NextSafeBlocks(current: State, target: State, safeBlocks: nat, healthy: bool, p: Params): nat {
    if target != Recovering || current != Recovering then 0
    else Leak(safeBlocks, healthy, p.hysteresisWait)
  }

  function NextSuspiciousSafeBlocks(current: State, target: State, counter: nat, healthy: bool, p: Params): nat {
    if target != Suspicious || current != Suspicious then 0
    else Leak(counter, healthy, p.suspiciousHysteresisWait)
  }

  function NextUnhealthyStreak(current: State, target: State, streak: nat, healthy: bool): nat {
    if current == target && (current == Anchored || current == Recovering) && !healthy then Inc(streak) else 0
  }

  function NextFailedRecoveryAttempts(current: State, target: State, attempts: nat, p: Params): nat {
    if current == Recovering && target == Sovereign then
      if EffectiveThreshold(attempts, p) >= p.maxDownHysteresisThreshold then attempts else Inc(attempts)
    else if current == Recovering && target == Anchored then 0
    else attempts
  }

  function NextSuspiciousDuration(target: State, duration: nat, p: Params): nat {
    if target != Suspicious then 0
    else
      var cap := Inc(p.maxSuspiciousTime);
      if Inc(duration) > cap then cap else Inc(duration)
  }

  /** The counters' update once a target state and a health flag are fixed. */
  function Enter(m: Machine, target: State, healthy: bool, p: Params): Machine {
    Machine(
      target,
      NextSafeBlocks(m.state, target, m.safeBlocks, healthy, p),
      NextSuspiciousDuration(target, m.suspiciousDuration, p),
      NextSuspiciousSafeBlocks(m.state, target, m.suspiciousSafeBlocks, healthy, p),
      NextUnhealthyStreak(m.state, target, m.unhealthyStreak, healthy),
      NextFailedRecoveryAttempts(m.state, target, m.failedRecoveryAttempts, p))
  }

  /** One block of the simple local machine. */
  function Step(m: Machine, x: Input, p: Params): Machine {
    Enter(m, CalculateNextState(m, x, p), IsHealthy(x.metrics, p), p)
  }

  /** The machine after the first `i` blocks of a run from genesis. */
  function At(p: Params, xs: seq<Input>, i: nat): Machine
    requires i <= |xs|
  {
    if i == 0 then Genesis else Step(At(p, xs, i - 1), xs[i - 1], p)
  }

  /** The two-predicate form of the streak update in the TLA+ model. */
  function SpecUnhealthyStreak(m: Machine, x: Input, p: Params): nat {
    var target := CalculateNextState(m, x, p);
    var critical := IsCritical(x.metrics, p, m.suspiciousDuration);
    if || (m.state == Anchored && target == Anchored && IsWarning(x.metrics, p) && !critical)
       || (m.state == Recovering && target == Recovering && !IsHealthy(x.metrics, p) && !critical)
    then Inc(m.unhealthyStreak) else 0
  }

  /** Below the critical line a warning is exactly the absence of health. */
  lemma WarningIsUnhealthy(m: Metrics, p: Params, duration: nat)
    requires !IsCritical(m, p, duration)
    ensures IsWarning(m, p) <==> !IsHealthy(m, p)
  {
  }

  /** The single agreed health flag drives the streak exactly as the model's two
      predicates do, on every step from every machine. */
  lemma StreakMatchesSpec(m: Machine, x: Input, p: Params)
    ensures Step(m, x, p).unhealthyStreak == SpecUnhealthyStreak(m, x, p)
  {
    if !IsCritical(x.metrics, p, m.suspiciousDuration) {
      WarningIsUnhealthy(x.metrics, p, m.suspiciousDuration);
    }
  }
}
