/** The leaky counters: what they measure about a stay, when they let the breaker
    leave SUSPICIOUS or RECOVERING, and when the documented "consecutive healthy
    blocks" reading of them is true. */
module Leaky {
  import opened Uint64
  import opened Fsm
  import opened Runs

  /** Healthy minus unhealthy blocks in the block range [a, b). */
  function Balance(p: Params, xs: seq<Input>, a: nat, b: nat): int
    requires a <= b <= |xs|
    decreases b
  {
    if a == b then 0
    else Balance(p, xs, a, b - 1) + (if HealthyAt(p, xs, b - 1) then 1 else -1)
  }

  /** `m` is the greatest balance over the suffixes of the block range [s, n). */
  ghost predicate IsMaxBalance(p: Params, xs: seq<Input>, s: nat, n: nat, m: int)
    requires s <= n <= |xs|
  {
    && (exists a :: s <= a <= n && Balance(p, xs, a, n) == m)
    && (forall a :: s <= a <= n ==> Balance(p, xs, a, n) <= m)
  }

  /** Extending the range by one block moves the maximum up by one, or down by one to zero. */
  lemma MaxBalanceStep(p: Params, xs: seq<Input>, s: nat, n: nat, m: int)
    requires s <= n < |xs| && IsMaxBalance(p, xs, s, n, m)
    ensures IsMaxBalance(p, xs, s, n + 1, if HealthyAt(p, xs, n) then m + 1 else Max(m - 1, 0))
  {
    var d := if HealthyAt(p, xs, n) then 1 else -1;
    forall a | s <= a <= n ensures Balance(p, xs, a, n + 1) == Balance(p, xs, a, n) + d {
    }
    assert Balance(p, xs, n, n) == 0;
    assert Balance(p, xs, n + 1, n + 1) == 0;
    var best :| s <= best <= n && Balance(p, xs, best, n) == m;
    var m' := if HealthyAt(p, xs, n) then m + 1 else Max(m - 1, 0);
    var best' := if m + d < 0 then n + 1 else best;
    assert s <= best' <= n + 1 && Balance(p, xs, best', n + 1) == m';
    var n' := n + 1;
    forall a | s <= a <= n' ensures Balance(p, xs, a, n') <= m' {
      if a <= n {
        assert Balance(p, xs, a, n') == Balance(p, xs, a, n) + d;
      }
    }
  }

  lemma MaxBalanceUnique(p: Params, xs: seq<Input>, s: nat, n: nat, m: int, m': int)
    requires s <= n <= |xs|
    requires IsMaxBalance(p, xs, s, n, m) && IsMaxBalance(p, xs, s, n, m')
    ensures m == m'
  {
  }

  /** One more block of a SUSPICIOUS stay: the cap is never what stops the counter. */
  lemma StayMovesCounter(p: Params, m: Machine, x: Input)
    requires p.Sized() && InRange(m, p)
    ensures var m' := Step(m, x, p);
            m'.state == Suspicious ==>
              m'.suspiciousSafeBlocks
              == if m.state != Suspicious then 0
                 else if IsHealthy(x.metrics, p) then m.suspiciousSafeBlocks + 1
                 else Max(m.suspiciousSafeBlocks - 1, 0)
  {
  }

  /** suspicious_safe_blocks is the greatest healthy-minus-unhealthy count over the suffixes
      of the current SUSPICIOUS stay after its entry block. */
  lemma {:induction false} LeakyCounterIdentity(p: Params, xs: seq<Input>, n: nat)
    requires p.Sized() && n <= |xs|
    requires At(p, xs, n).state == Suspicious
    ensures IsMaxBalance(p, xs, StayStart(p, xs, n), n, At(p, xs, n).suspiciousSafeBlocks)
    ensures At(p, xs, n).suspiciousSafeBlocks < At(p, xs, n).suspiciousDuration
  {
    AlwaysInRange(p, xs, n);
    AlwaysInRange(p, xs, n - 1);
    StayMovesCounter(p, At(p, xs, n - 1), xs[n - 1]);
    if At(p, xs, n - 1).state == Suspicious {
      LeakyCounterIdentity(p, xs, n - 1);
      MaxBalanceStep(p, xs, StayStart(p, xs, n), n - 1, At(p, xs, n - 1).suspiciousSafeBlocks);
    } else {
      assert StayStart(p, xs, n) == n;
      assert Balance(p, xs, n, n) == 0;
    }
  }

  lemma ExitStep(p: Params, m: Machine, x: Input)
    requires p.Sized() && InRange(m, p) && m.state == Suspicious
    ensures Step(m, x, p).state == Anchored
       <==> !IsCritical(x.metrics, p, m.suspiciousDuration) && IsHealthy(x.metrics, p)
            && m.suspiciousSafeBlocks + 1 == p.ExitWait()
  {
  }

  /** SUSPICIOUS returns to ANCHORED exactly on the non-critical block that brings the
      greatest suffix balance of the stay to the configured wait. */
  lemma SuspiciousExitExactly(p: Params, xs: seq<Input>, n: nat)
    requires p.Sized() && n < |xs|
    requires At(p, xs, n).state == Suspicious
    ensures At(p, xs, n + 1).state == Anchored
       <==> !CriticalAt(p, xs, n) && IsMaxBalance(p, xs, StayStart(p, xs, n), n + 1, p.ExitWait())
  {
    LeakyCounterIdentity(p, xs, n);
    AlwaysInRange(p, xs, n);
    var s, m := StayStart(p, xs, n), At(p, xs, n).suspiciousSafeBlocks;
    MaxBalanceStep(p, xs, s, n, m);
    var m' := if HealthyAt(p, xs, n) then m + 1 else Max(m - 1, 0);
    if IsMaxBalance(p, xs, s, n + 1, p.ExitWait()) {
      MaxBalanceUnique(p, xs, s, n + 1, m', p.ExitWait());
    }
    ExitStep(p, At(p, xs, n), xs[n]);
  }

  lemma StayMovesSafe(p: Params, m: Machine, x: Input)
    requires p.Sized() && InRange(m, p)
    ensures var m' := Step(m, x, p);
            m'.state == Recovering ==>
              m'.safeBlocks
              <= if m.state != Recovering then 0
                 else if IsHealthy(x.metrics, p) then m.safeBlocks + 1
                 else Max(m.safeBlocks - 1, 0)
  {
  }

  /** A balance that covers the counter can be moved past one more block. */
  lemma EarnedStep(p: Params, xs: seq<Input>, a: nat, n: nat, safe: nat, safe': nat) returns (a': nat)
    requires a <= n < |xs| && Balance(p, xs, a, n) >= safe
    requires safe' <= if HealthyAt(p, xs, n) then safe + 1 else Max(safe - 1, 0)
    ensures a <= a' <= n + 1 && Balance(p, xs, a', n + 1) >= safe'
  {
    a' := if HealthyAt(p, xs, n) || safe > 0 then a else n + 1;
  }

  /** In RECOVERING safe_blocks never overstates the stay: some suffix of it has at least
      that balance, and the stay is at least that long. */
  lemma {:induction false} SafeBlocksEarned(p: Params, xs: seq<Input>, n: nat) returns (a: nat)
    requires p.Sized() && n <= |xs|
    requires At(p, xs, n).state == Recovering
    ensures StayStart(p, xs, n) <= a <= n
    ensures Balance(p, xs, a, n) >= At(p, xs, n).safeBlocks
    ensures n - StayStart(p, xs, n) >= At(p, xs, n).safeBlocks
  {
    AlwaysInRange(p, xs, n);
    AlwaysInRange(p, xs, n - 1);
    StayMovesSafe(p, At(p, xs, n - 1), xs[n - 1]);
    if At(p, xs, n - 1).state == Recovering {
      a := SafeBlocksEarned(p, xs, n - 1);
      a := EarnedStep(p, xs, a, n - 1, At(p, xs, n - 1).safeBlocks, At(p, xs, n).safeBlocks);
    } else {
      a := n;
    }
  }

  /** Each RECOVERING to ANCHORED step follows at least HysteresisWait + 1 RECOVERING blocks,
      some suffix of which has a healthy-minus-unhealthy count of at least HysteresisWait. */
  lemma RecoveryEarned(p: Params, xs: seq<Input>, n: nat) returns (a: nat)
    requires p.Sized() && n < |xs|
    requires At(p, xs, n).state == Recovering && At(p, xs, n + 1).state == Anchored
    ensures StayStart(p, xs, n) <= a <= n && Balance(p, xs, a, n) >= p.hysteresisWait
    ensures n - StayStart(p, xs, n) + 1 >= p.hysteresisWait + 1
    ensures HealthyAt(p, xs, n) && !CriticalAt(p, xs, n) && xs[n].proofValid
    ensures At(p, xs, n).safeBlocks == p.hysteresisWait
  {
    a := SafeBlocksEarned(p, xs, n);
    assert At(p, xs, n + 1) == Step(At(p, xs, n), xs[n], p);
  }

  /** The suffix of the stay from block `a` on ends with a balance of at least `v`, and no shorter one
      falls more than HysteresisWait short of that. */
  predicate Sustains(p: Params, xs: seq<Input>, a: nat, n: nat, v: int)
    requires a <= n <= |xs|
  {
    && Balance(p, xs, a, n) >= v
    && (forall b :: a <= b <= n ==> Balance(p, xs, b, n) >= v - p.hysteresisWait)
  }

  ghost predicate Sustained(p: Params, xs: seq<Input>, s: nat, n: nat, v: int)
    requires s <= n <= |xs|
  {
    exists a :: s <= a <= n && Sustains(p, xs, a, n, v)
  }

  lemma SafeBlocksMove(p: Params, m: Machine, x: Input)
    requires p.Sized() && InRange(m, p)
    ensures var m' := Step(m, x, p);
            m'.state == Recovering ==>
              m'.safeBlocks
              == if m.state != Recovering then 0
                 else Max(Min(m.safeBlocks + (if IsHealthy(x.metrics, p) then 1 else -1), p.hysteresisWait), 0)
  {
  }

  lemma SustainsStep(p: Params, xs: seq<Input>, a: nat, n: nat, n': nat, v: int)
    requires a <= n < |xs| && n' == n + 1
    ensures var d := if HealthyAt(p, xs, n) then 1 else -1;
            Sustains(p, xs, a, n', v) <==> Sustains(p, xs, a, n, v - d) && v <= p.hysteresisWait
  {
    var d := if HealthyAt(p, xs, n) then 1 else -1;
    assert forall b :: a <= b <= n ==> Balance(p, xs, b, n') == Balance(p, xs, b, n) + d;
    assert Balance(p, xs, n', n') == 0;
    if Sustains(p, xs, a, n', v) {
      assert Balance(p, xs, n', n') >= v - p.hysteresisWait;
      forall b | a <= b <= n ensures Balance(p, xs, b, n) >= v - d - p.hysteresisWait {
        assert Balance(p, xs, b, n') >= v - p.hysteresisWait;
      }
    }
    if Sustains(p, xs, a, n, v - d) && v <= p.hysteresisWait {
      forall b | a <= b <= n' ensures Balance(p, xs, b, n') >= v - p.hysteresisWait {
        if b <= n {
          assert Balance(p, xs, b, n) >= v - d - p.hysteresisWait;
        }
      }
    }
  }

  /** One more block moves what is sustained as it moves the counter. */
  lemma SustainedStep(p: Params, xs: seq<Input>, s: nat, n: nat, n': nat, v: int)
    requires s <= n < |xs| && n' == n + 1
    ensures var d := if HealthyAt(p, xs, n) then 1 else -1;
            Sustained(p, xs, s, n', v) <==> v <= 0 || (Sustained(p, xs, s, n, v - d) && v <= p.hysteresisWait)
  {
    var d := if HealthyAt(p, xs, n) then 1 else -1;
    assert Balance(p, xs, n', n') == 0;
    assert v <= 0 <==> Sustains(p, xs, n', n', v);
    if Sustained(p, xs, s, n', v) {
      var a :| s <= a <= n' && Sustains(p, xs, a, n', v);
      if a <= n {
        SustainsStep(p, xs, a, n, n', v);
      }
    }
    if Sustained(p, xs, s, n, v - d) && v <= p.hysteresisWait {
      var a :| s <= a <= n && Sustains(p, xs, a, n, v - d);
      SustainsStep(p, xs, a, n, n', v);
    }
  }

  lemma SafeBlocksStep(p: Params, xs: seq<Input>, s: nat, n: nat, n': nat, v: int)
    requires p.Sized() && s <= n < |xs| && n' == n + 1
    requires At(p, xs, n).state == Recovering && At(p, xs, n').state == Recovering
    requires var d := if HealthyAt(p, xs, n) then 1 else -1;
             At(p, xs, n).safeBlocks >= v - d <==> Sustained(p, xs, s, n, v - d)
    ensures At(p, xs, n').safeBlocks >= v <==> Sustained(p, xs, s, n', v)
  {
    AlwaysInRange(p, xs, n);
    SafeBlocksMove(p, At(p, xs, n), xs[n]);
    SustainedStep(p, xs, s, n, n', v);
  }

  /** safe_blocks in closed form: in RECOVERING it is the greatest `v` that some suffix of the stay
      sustains. */
  lemma {:induction false} SafeBlocksExactly(p: Params, xs: seq<Input>, n: nat, v: int)
    requires p.Sized() && n <= |xs|
    requires At(p, xs, n).state == Recovering
    ensures At(p, xs, n).safeBlocks >= v <==> Sustained(p, xs, StayStart(p, xs, n), n, v)
    decreases n
  {
    var k := n - 1;
    if At(p, xs, k).state == Recovering {
      SafeBlocksExactly(p, xs, k, v - (if HealthyAt(p, xs, k) then 1 else -1));
      SafeBlocksStep(p, xs, StayStart(p, xs, k), k, n, v);
    } else {
      AlwaysInRange(p, xs, n - 1);
      SafeBlocksMove(p, At(p, xs, n - 1), xs[n - 1]);
      assert StayStart(p, xs, n) == n && Balance(p, xs, n, n) == 0;
      assert v <= 0 <==> Sustains(p, xs, n, n, v);
    }
  }

  /** RECOVERING returns to ANCHORED exactly on a healthy, non-critical, proven block after which some
      suffix of the stay has a balance of at least HysteresisWait and no shorter one a negative balance. */
  lemma RecoveryExitExactly(p: Params, xs: seq<Input>, n: nat)
    requires p.Sized() && n < |xs|
    requires At(p, xs, n).state == Recovering
    ensures At(p, xs, n + 1).state == Anchored
       <==> && !CriticalAt(p, xs, n) && HealthyAt(p, xs, n) && xs[n].proofValid
            && Sustained(p, xs, StayStart(p, xs, n), n, p.hysteresisWait)
  {
    AlwaysInRange(p, xs, n);
    SafeBlocksExactly(p, xs, n, p.hysteresisWait);
    assert At(p, xs, n + 1) == Step(At(p, xs, n), xs[n], p);
  }

  /** The exit from SUSPICIOUS happens only while the stay is short of its time limit, so it
      needs a wait below MaxSuspiciousTime. */
  lemma ExitNeedsShortWait(p: Params, xs: seq<Input>, n: nat)
    requires p.Sized() && n < |xs|
    requires At(p, xs, n).state == Suspicious && At(p, xs, n + 1).state == Anchored
    ensures p.ExitWait() <= At(p, xs, n).suspiciousDuration < p.maxSuspiciousTime
    ensures At(p, xs, n).suspiciousSafeBlocks == p.ExitWait() - 1
  {
    LeakyCounterIdentity(p, xs, n);
    AlwaysInRange(p, xs, n);
    assert At(p, xs, n + 1) == Step(At(p, xs, n), xs[n], p);
  }

  /** A non-critical snapshot that is healthy, and one that only warns. */
  function Calm(p: Params): Input {
    Input(Green(p, Max(p.minAnchorPeers, 1)), false)
  }

  function Noisy(p: Params): Input {
    Calm(p).(metrics := Calm(p).metrics.(btcGap := p.suspiciousThreshold))
  }

  /** Enough noise to enter SUSPICIOUS, then `k` calm blocks. */
  predicate Scripted(p: Params, xs: seq<Input>, k: nat) {
    && p.DemoteAfter() + k <= |xs|
    && (forall i :: 0 <= i < p.DemoteAfter() ==> xs[i] == Noisy(p))
    && (forall i :: p.DemoteAfter() <= i < p.DemoteAfter() + k ==> xs[i] == Calm(p))
  }

  lemma {:induction false} NoiseAbsorbed(p: Params, xs: seq<Input>, k: nat, i: nat)
    requires p.Valid() && p.Sized() && p.maxSuspiciousTime >= 1 && Scripted(p, xs, k)
    requires i < p.DemoteAfter()
    ensures At(p, xs, i) == Genesis.(unhealthyStreak := i)
  {
    if i > 0 {
      NoiseAbsorbed(p, xs, k, i - 1);
      assert xs[i - 1] == Noisy(p);
    }
  }

  lemma NoisyDemotes(p: Params)
    requires p.Valid() && p.Sized() && p.maxSuspiciousTime >= 1
    ensures Step(Genesis.(unhealthyStreak := p.DemoteAfter() - 1), Noisy(p), p) == Machine(Suspicious, 0, 1, 0, 0, 0)
  {
  }

  lemma CalmStep(p: Params, duration: nat, safe: nat)
    requires p.Valid() && p.Sized() && duration < p.maxSuspiciousTime && safe < p.ExitWait()
    ensures Step(Machine(Suspicious, 0, duration, safe, 0, 0), Calm(p), p)
         == if safe + 1 == p.ExitWait() then Genesis else Machine(Suspicious, 0, duration + 1, safe + 1, 0, 0)
  {
  }

  lemma NoisyStep(p: Params, duration: nat, safe: nat)
    requires p.Valid() && p.Sized() && duration < p.maxSuspiciousTime && safe < p.ExitWait()
    ensures Step(Machine(Suspicious, 0, duration, safe, 0, 0), Noisy(p), p)
         == Machine(Suspicious, 0, duration + 1, Max(safe - 1, 0), 0, 0)
  {
  }

  lemma {:induction false} CalmCounted(p: Params, xs: seq<Input>, k: nat, i: nat)
    requires p.Valid() && p.Sized() && p.ExitWait() < p.maxSuspiciousTime && Scripted(p, xs, k)
    requires i <= k && i < p.ExitWait()
    ensures At(p, xs, p.DemoteAfter() + i) == Machine(Suspicious, 0, i + 1, i, 0, 0)
  {
    var j := p.DemoteAfter() + i;
    if i == 0 {
      NoiseAbsorbed(p, xs, k, j - 1);
      assert xs[j - 1] == Noisy(p);
      NoisyDemotes(p);
    } else {
      CalmCounted(p, xs, k, i - 1);
      assert xs[j - 1] == Calm(p);
      CalmStep(p, i, i - 1);
    }
  }

  ghost predicate ExitsAt(p: Params, xs: seq<Input>, n: nat)
    requires n < |xs|
  {
    At(p, xs, n).state == Suspicious && At(p, xs, n + 1).state == Anchored
  }

  /** Noise into SUSPICIOUS, then calm out of it. */
  lemma ShortestExit(p: Params) returns (xs: seq<Input>, n: nat)
    requires p.Valid() && p.Sized() && p.ExitWait() < p.maxSuspiciousTime
    ensures n < |xs| && ExitsAt(p, xs, n)
  {
    var d, w := p.DemoteAfter(), p.ExitWait();
    xs, n := seq(d + w, i => if i < d then Noisy(p) else Calm(p)), d + w - 1;
    assert Scripted(p, xs, w);
    CalmCounted(p, xs, w, w - 1);
    assert xs[n] == Calm(p);
    CalmStep(p, w, w - 1);
    assert At(p, xs, n + 1) == Step(At(p, xs, n), xs[n], p);
  }

  /** Under valid parameters SUSPICIOUS can ever return to ANCHORED if and only if the wait
      is below MaxSuspiciousTime. */
  lemma ExitPossibleWhen(p: Params)
    requires p.Valid() && p.Sized()
    ensures (exists xs: seq<Input>, n: nat :: n < |xs| && ExitsAt(p, xs, n))
       <==> p.ExitWait() < p.maxSuspiciousTime
  {
    if p.ExitWait() < p.maxSuspiciousTime {
      var xs, n := ShortestExit(p);
    }
    forall xs: seq<Input>, n: nat | n < |xs| && ExitsAt(p, xs, n)
      ensures p.ExitWait() < p.maxSuspiciousTime
    {
      ExitNeedsShortWait(p, xs, n);
    }
  }

  /** The last SuspiciousHysteresisWait blocks up to and including block `n` are all healthy
      and belong to the stay. */
  predicate ConsecutiveAt(p: Params, xs: seq<Input>, n: nat)
    requires n < |xs|
  {
    && p.suspiciousHysteresisWait <= n + 1 - StayStart(p, xs, n)
    && (forall j :: n + 1 - p.suspiciousHysteresisWait <= j <= n ==> HealthyAt(p, xs, j))
  }

  lemma {:induction false} BalanceBound(p: Params, xs: seq<Input>, a: nat, b: nat)
    requires a <= b <= |xs|
    ensures Balance(p, xs, a, b) <= b - a
    ensures (b - a - Balance(p, xs, a, b)) % 2 == 0
    ensures Balance(p, xs, a, b) == b - a ==> forall j :: a <= j < b ==> HealthyAt(p, xs, j)
    decreases b
  {
    if a < b {
      BalanceBound(p, xs, a, b - 1);
    }
  }

  /** The counter stands one short of a wait of at least two only just after a healthy block. */
  lemma BrinkIsHealthy(p: Params, xs: seq<Input>, n: nat)
    requires p.Sized() && 1 <= n <= |xs|
    requires At(p, xs, n).state == Suspicious
    requires p.ExitWait() >= 2 && At(p, xs, n).suspiciousSafeBlocks == p.ExitWait() - 1
    ensures HealthyAt(p, xs, n - 1)
  {
    AlwaysInRange(p, xs, n - 1);
    assert At(p, xs, n) == Step(At(p, xs, n - 1), xs[n - 1], p);
  }

  /** A stay too short to leak ends in healthy blocks only. */
  lemma ShortStayIsHealthy(p: Params, xs: seq<Input>, n: nat, w: nat)
    requires p.Sized() && n <= |xs| && w >= 1
    requires At(p, xs, n).state == Suspicious && At(p, xs, n).suspiciousSafeBlocks == w - 1
    requires n - StayStart(p, xs, n) <= w
    ensures n - StayStart(p, xs, n) >= w - 1
    ensures forall j :: n + 1 - w <= j < n ==> HealthyAt(p, xs, j)
  {
    LeakyCounterIdentity(p, xs, n);
    var a :| StayStart(p, xs, n) <= a <= n && Balance(p, xs, a, n) == w - 1;
    BalanceBound(p, xs, a, n);
  }

  lemma ExitIsHealthy(p: Params, xs: seq<Input>, n: nat)
    requires n < |xs| && ExitsAt(p, xs, n)
    ensures HealthyAt(p, xs, n)
  {
    assert At(p, xs, n + 1) == Step(At(p, xs, n), xs[n], p);
  }

  /** Where the wait is at most two, or the time limit leaves no room for a leak, an exit is
      preceded by that many consecutive healthy blocks. */
  lemma ConsecutiveHolds(p: Params, xs: seq<Input>, n: nat)
    requires p.Sized() && n < |xs| && ExitsAt(p, xs, n)
    requires p.suspiciousHysteresisWait <= 2 || p.maxSuspiciousTime <= p.suspiciousHysteresisWait + 2
    ensures ConsecutiveAt(p, xs, n)
  {
    ExitIsHealthy(p, xs, n);
    ExitNeedsShortWait(p, xs, n);
    DurationCountsStay(p, xs, n);
    if p.suspiciousHysteresisWait == 2 {
      BrinkIsHealthy(p, xs, n);
    } else if p.suspiciousHysteresisWait > 2 {
      ShortStayIsHealthy(p, xs, n, p.suspiciousHysteresisWait);
    }
  }

  /** Noise, then one calm block short of the exit, one noisy block, and two calm ones. */
  function LeakyScript(p: Params): seq<Input> {
    var d, w := p.DemoteAfter(), p.suspiciousHysteresisWait;
    seq(d + w + 2, i => if 0 <= i < d || i == d + w - 1 then Noisy(p) else Calm(p))
  }

  /** Otherwise some run leaves SUSPICIOUS two blocks after an unhealthy one. */
  lemma ConsecutiveFails(p: Params)
    requires p.Valid() && p.Sized()
    requires p.suspiciousHysteresisWait > 2 && p.maxSuspiciousTime > p.suspiciousHysteresisWait + 2
    ensures var xs, n := LeakyScript(p), p.DemoteAfter() + p.suspiciousHysteresisWait + 1;
            ExitsAt(p, xs, n) && !ConsecutiveAt(p, xs, n)
  {
    var d, w, xs := p.DemoteAfter(), p.suspiciousHysteresisWait, LeakyScript(p);
    assert Scripted(p, xs, w - 1);
    CalmCounted(p, xs, w - 1, w - 1);
    NoisyStep(p, w, w - 1);
    CalmStep(p, w + 1, w - 2);
    CalmStep(p, w + 2, w - 1);
    assert At(p, xs, d + w) == Machine(Suspicious, 0, w + 1, w - 2, 0, 0);
    assert At(p, xs, d + w + 1) == Machine(Suspicious, 0, w + 2, w - 1, 0, 0);
    assert At(p, xs, d + w + 2) == Genesis;
    assert !HealthyAt(p, xs, d + w - 1);
  }

  /** The documented claim that leaving SUSPICIOUS takes SuspiciousHysteresisWait consecutive
      healthy blocks holds on all runs if and only if the wait is at most two or exceeds
      MaxSuspiciousTime - 3. */
  lemma ConsecutiveExactWhen(p: Params)
    requires p.Valid() && p.Sized()
    ensures (forall xs: seq<Input>, n: nat :: n < |xs| && ExitsAt(p, xs, n) ==> ConsecutiveAt(p, xs, n))
       <==> p.suspiciousHysteresisWait <= 2 || p.maxSuspiciousTime <= p.suspiciousHysteresisWait + 2
  {
    if p.suspiciousHysteresisWait <= 2 || p.maxSuspiciousTime <= p.suspiciousHysteresisWait + 2 {
      forall xs: seq<Input>, n: nat | n < |xs| && ExitsAt(p, xs, n) ensures ConsecutiveAt(p, xs, n) {
        ConsecutiveHolds(p, xs, n);
      }
    } else {
      ConsecutiveFails(p);
    }
  }

  /** The last HysteresisWait blocks up to and including block `n` are all healthy and belong
      to the RECOVERING stay. */
  predicate SustainedAt(p: Params, xs: seq<Input>, n: nat)
    requires n < |xs|
  {
    && p.hysteresisWait <= n + 1 - StayStart(p, xs, n)
    && (forall j :: n + 1 - p.hysteresisWait <= j <= n ==> HealthyAt(p, xs, j))
  }

  ghost predicate ReanchorsAt(p: Params, xs: seq<Input>, n: nat)
    requires n < |xs|
  {
    At(p, xs, n).state == Recovering && At(p, xs, n + 1).state == Anchored
  }

  /** RECOVERING never absorbs an unhealthy block. */
  predicate NeverAbsorbs(p: Params) {
    p.downHysteresisThreshold == 0 || p.maxDownHysteresisThreshold <= 1 || p.maxSuspiciousTime == 0
  }

  lemma {:induction false} ZeroNeverDoubles(n: nat, cap: nat)
    ensures Backoff(0, n, cap) == 0
    decreases n
  {
    if n > 0 && cap > 0 {
      ZeroNeverDoubles(n - 1, cap);
    }
  }

  lemma StayNeedsHealth(p: Params, m: Machine, x: Input)
    requires p.Sized() && NeverAbsorbs(p) && InRange(m, p)
    requires m.state == Recovering && CalculateNextState(m, x, p) == Recovering
    ensures IsHealthy(x.metrics, p)
  {
    ZeroNeverDoubles(m.failedRecoveryAttempts, p.maxDownHysteresisThreshold);
    CappedBackoff(p.downHysteresisThreshold, m.failedRecoveryAttempts, p.maxDownHysteresisThreshold);
  }

  lemma StayBlockIsHealthy(p: Params, xs: seq<Input>, j: nat)
    requires p.Sized() && NeverAbsorbs(p) && j < |xs|
    requires At(p, xs, j).state == Recovering && At(p, xs, j + 1).state == Recovering
    ensures HealthyAt(p, xs, j)
  {
    AlwaysInRange(p, xs, j);
    StayNeedsHealth(p, At(p, xs, j), xs[j]);
  }

  lemma StayIsHealthy(p: Params, xs: seq<Input>, n: nat)
    requires p.Sized() && NeverAbsorbs(p) && n <= |xs|
    requires At(p, xs, n).state == Recovering
    ensures forall j :: StayStart(p, xs, n) <= j < n ==> HealthyAt(p, xs, j)
  {
    forall j | StayStart(p, xs, n) <= j < n ensures HealthyAt(p, xs, j) {
      var k := j + 1;
      assert At(p, xs, j).state == Recovering && At(p, xs, k).state == Recovering;
      StayBlockIsHealthy(p, xs, j);
    }
  }

  /** A full counter of at least one stands only just after a healthy block. */
  lemma FullIsHealthy(p: Params, xs: seq<Input>, n: nat)
    requires p.Sized() && 1 <= n <= |xs|
    requires At(p, xs, n).state == Recovering
    requires p.hysteresisWait >= 1 && At(p, xs, n).safeBlocks == p.hysteresisWait
    ensures HealthyAt(p, xs, n - 1)
  {
    AlwaysInRange(p, xs, n - 1);
    assert At(p, xs, n) == Step(At(p, xs, n - 1), xs[n - 1], p);
  }

  lemma SustainedHolds(p: Params, xs: seq<Input>, n: nat)
    requires p.Sized() && n < |xs| && ReanchorsAt(p, xs, n)
    requires p.hysteresisWait <= 2 || NeverAbsorbs(p)
    ensures SustainedAt(p, xs, n)
  {
    var _ := RecoveryEarned(p, xs, n);
    if p.hysteresisWait == 2 {
      FullIsHealthy(p, xs, n);
    } else if p.hysteresisWait > 2 {
      StayIsHealthy(p, xs, n);
    }
  }

  function Recovery(safe: nat, attempts: nat): Machine {
    Machine(Recovering, safe, 0, 0, 0, attempts)
  }

  function Proved(x: Input): Input {
    x.(proofValid := true)
  }

  /** One more block at the end of a run. */
  lemma Extend(p: Params, xs: seq<Input>, x: Input)
    ensures At(p, xs + [x], |xs| + 1) == Step(At(p, xs, |xs|), x, p)
  {
    AtPrefix(p, xs, [x], |xs|);
  }

  lemma {:induction false} ClimbTo(p: Params, xs: seq<Input>, attempts: nat, k: nat) returns (ys: seq<Input>)
    requires p.Valid() && p.Sized() && p.maxSuspiciousTime >= 1 && k <= p.hysteresisWait
    requires At(p, xs, |xs|) == Recovery(0, attempts)
    ensures |ys| == |xs| + k
    ensures At(p, ys, |ys|) == Recovery(k, attempts)
  {
    if k == 0 {
      ys := xs;
    } else {
      var zs := ClimbTo(p, xs, attempts, k - 1);
      ys := zs + [Proved(Calm(p))];
      Extend(p, zs, Proved(Calm(p)));
    }
  }

  function Locked(attempts: nat): Machine {
    Machine(Sovereign, 0, 0, 0, 0, attempts)
  }

  function Eclipse(p: Params): Input {
    Calm(p).(metrics := Calm(p).metrics.(activeAnchors := 0))
  }

  lemma DownAndUp(p: Params, attempts: nat)
    requires p.Valid() && p.Sized()
    ensures Step(Genesis, Eclipse(p), p) == Locked(0)
    ensures Step(Locked(attempts), Calm(p), p) == Recovery(0, attempts)
  {
  }

  lemma FirstRegression(p: Params)
    requires p.Valid() && p.Sized() && p.downHysteresisThreshold == 1 && p.maxDownHysteresisThreshold >= 2
    ensures Step(Recovery(0, 0), Noisy(p), p) == Locked(1)
    ensures EffectiveThreshold(1, p) == 2
  {
    assert Backoff(1, 1, p.maxDownHysteresisThreshold) == Backoff(Double(1), 0, p.maxDownHysteresisThreshold);
  }

  /** A run that reaches RECOVERING with a demotion threshold of at least two. */
  lemma ReachTolerant(p: Params) returns (xs: seq<Input>, attempts: nat)
    requires p.Valid() && p.Sized() && !NeverAbsorbs(p)
    ensures At(p, xs, |xs|) == Recovery(0, attempts)
    ensures EffectiveThreshold(attempts, p) >= 2
  {
    DownAndUp(p, 0);
    Extend(p, [], Eclipse(p));
    xs, attempts := [Eclipse(p)], 0;
    if p.downHysteresisThreshold == 1 {
      FirstRegression(p);
      DownAndUp(p, 1);
      Extend(p, xs, Calm(p));
      xs := xs + [Calm(p)];
      Extend(p, xs, Noisy(p));
      xs, attempts := xs + [Noisy(p)], 1;
    }
    Extend(p, xs, Calm(p));
    xs := xs + [Calm(p)];
  }

  /** A leak from the ceiling, the climb back, and the step home. */
  lemma LeakAndReturn(p: Params, attempts: nat)
    requires p.Valid() && p.Sized() && p.maxSuspiciousTime >= 1 && p.hysteresisWait >= 1
    requires EffectiveThreshold(attempts, p) >= 2
    ensures var full, y := Recovery(p.hysteresisWait, attempts), Proved(Calm(p));
            && Step(Step(full, Noisy(p), p), y, p) == full
            && Step(full, y, p).state == Anchored
  {
  }

  /** From the ceiling: one noisy block, two calm ones. */
  lemma NoisyReturn(p: Params, full: seq<Input>, attempts: nat) returns (xs: seq<Input>)
    requires p.Valid() && p.Sized() && p.maxSuspiciousTime >= 1 && p.hysteresisWait >= 1
    requires EffectiveThreshold(attempts, p) >= 2
    requires At(p, full, |full|) == Recovery(p.hysteresisWait, attempts)
    ensures xs == full + [Noisy(p), Proved(Calm(p)), Proved(Calm(p))]
    ensures At(p, xs, |full| + 2).state == Recovering && At(p, xs, |full| + 3).state == Anchored
  {
    var x, y := Noisy(p), Proved(Calm(p));
    LeakAndReturn(p, attempts);
    Extend(p, full, x);
    Extend(p, full + [x], y);
    Extend(p, full + [x] + [y], y);
    xs := full + [x] + [y] + [y];
    AtPrefix(p, full + [x] + [y], [y], |full| + 2);
    assert xs == full + [x, y, y];
  }

  /** Otherwise some run re-anchors two blocks after an unhealthy one. */
  lemma SustainedFails(p: Params) returns (xs: seq<Input>, n: nat)
    requires p.Valid() && p.Sized()
    requires p.hysteresisWait > 2 && !NeverAbsorbs(p)
    ensures n < |xs| && ReanchorsAt(p, xs, n) && !SustainedAt(p, xs, n)
  {
    var start, attempts := ReachTolerant(p);
    var full := ClimbTo(p, start, attempts, p.hysteresisWait);
    xs := NoisyReturn(p, full, attempts);
    n := |full| + 2;
    assert xs[n - 2] == Noisy(p) && !HealthyAt(p, xs, n - 2);
  }

  /** The documented claim that RECOVERING to ANCHORED takes HysteresisWait consecutive healthy
      blocks holds on all runs if and only if the wait is at most two or RECOVERING can never
      absorb an unhealthy block. */
  lemma SustainedExactWhen(p: Params)
    requires p.Valid() && p.Sized()
    ensures (forall xs: seq<Input>, n: nat :: n < |xs| && ReanchorsAt(p, xs, n) ==> SustainedAt(p, xs, n))
       <==> p.hysteresisWait <= 2 || NeverAbsorbs(p)
  {
    if p.hysteresisWait <= 2 || NeverAbsorbs(p) {
      forall xs: seq<Input>, n: nat | n < |xs| && ReanchorsAt(p, xs, n) ensures SustainedAt(p, xs, n) {
        SustainedHolds(p, xs, n);
      }
    } else {
      var xs, n := SustainedFails(p);
    }
  }
}
