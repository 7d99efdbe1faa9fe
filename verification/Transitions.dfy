/** The successor relation of the breaker: what each block can do from each state, and which
    changes of state any run can make at all. */
module Transitions {
  import opened Uint64
  import opened BackoffLaws
  import opened Fsm
  import opened Runs
  import opened Leaky

  /** The changes of state the parameters leave open. Only the two lockouts that need no grace
      period, and the way back up from SOVEREIGN, are open under all parameters. */
  predicate Edge(p: Params, s: State, t: State) {
    match (s, t)
    case (Anchored, Suspicious) => p.maxSuspiciousTime >= 1
    case (Anchored, Sovereign) => true
    case (Suspicious, Anchored) => p.ExitWait() < p.maxSuspiciousTime
    case (Suspicious, Sovereign) => p.maxSuspiciousTime >= 1
    case (Sovereign, Recovering) => true
    case (Recovering, Anchored) => p.maxSuspiciousTime >= 1
    case (Recovering, Sovereign) => true
    case _ => false
  }

  /** Consecutive unhealthy blocks that RECOVERING takes to fall back after the given number of failed
      recoveries: the base threshold doubled for each of them, up to the cap, and at least one. */
  function ToleranceAfter(p: Params, regressions: nat): int {
    Max(Min(p.downHysteresisThreshold * Pow2(regressions), p.maxDownHysteresisThreshold), 1)
  }

  /** What block `n` does, in terms of the history alone: exactly which blocks lead from each state to
      each other one. */
  lemma SuccessorExactly(p: Params, xs: seq<Input>, n: nat)
    requires p.Sized() && n < |xs|
    ensures var m, t, critical := At(p, xs, n), At(p, xs, n + 1).state, CriticalAt(p, xs, n);
            var s, tail := StayStart(p, xs, n), TrailingUnhealthy(p, xs, StayStart(p, xs, n), n + 1);
            match m.state
            case Anchored =>
              && t != Recovering
              && (t == Sovereign <==> critical)
              && (t == Suspicious <==> !critical && tail == p.DemoteAfter())
            case Suspicious =>
              && t != Recovering
              && (t == Sovereign <==> critical)
              && (t == Anchored <==> !critical && IsMaxBalance(p, xs, s, n + 1, p.ExitWait()))
            case Sovereign =>
              && (t == Recovering <==> HealthyAt(p, xs, n))
              && (t != Recovering ==> t == Sovereign)
            case Recovering =>
              && t != Suspicious
              && (t == Sovereign <==> critical || tail == ToleranceAfter(p, Regressions(p, xs, n)))
              && (t == Anchored <==>
                    !critical && HealthyAt(p, xs, n) && xs[n].proofValid && Sustained(p, xs, s, n, p.hysteresisWait))
            case Unknown(_) => false
  {
    AlwaysInRange(p, xs, n);
    assert At(p, xs, n + 1) == Step(At(p, xs, n), xs[n], p);
    match At(p, xs, n).state
    case Anchored => AnchoredOrRecovering(p, xs, n);
    case Recovering =>
      AnchoredOrRecovering(p, xs, n);
      RecoveryExitExactly(p, xs, n);
      ThresholdExactly(p, xs, n);
    case Suspicious => SuspiciousExitExactly(p, xs, n);
    case Sovereign =>
  }

  lemma AnchoredOrRecovering(p: Params, xs: seq<Input>, n: nat)
    requires p.Sized() && n < |xs|
    requires At(p, xs, n).state == Anchored || At(p, xs, n).state == Recovering
    ensures CriticalAt(p, xs, n) ==> At(p, xs, n + 1).state == Sovereign
    ensures !CriticalAt(p, xs, n) ==>
              (At(p, xs, n + 1).state == (if At(p, xs, n).state == Anchored then Suspicious else Sovereign)
               <==> TrailingUnhealthy(p, xs, StayStart(p, xs, n), n + 1) == Patience(At(p, xs, n), p))
  {
    if !CriticalAt(p, xs, n) {
      DemotionTiming(p, xs, n);
    } else {
      CriticalEscalates(p, xs, n);
    }
  }

  ghost predicate Changes(p: Params, xs: seq<Input>, n: nat, s: State, t: State)
    requires n < |xs|
  {
    At(p, xs, n).state == s && At(p, xs, n + 1).state == t
  }

  /** Some run from genesis makes this change of state. */
  ghost predicate Occurs(p: Params, s: State, t: State) {
    exists xs: seq<Input>, n: nat :: n < |xs| && Changes(p, xs, n, s, t)
  }

  lemma OnlyEdges(p: Params, xs: seq<Input>, n: nat, s: State, t: State)
    requires p.Valid() && p.Sized() && n < |xs| && s != t && Changes(p, xs, n, s, t)
    ensures Edge(p, s, t)
  {
    SuccessorExactly(p, xs, n);
    AlwaysInRange(p, xs, n);
    AlwaysInRange(p, xs, n + 1);
    if s == Suspicious && t == Anchored {
      ExitNeedsShortWait(p, xs, n);
    }
  }

  /** A run one block longer makes the change its last block makes. */
  lemma OccursNext(p: Params, xs: seq<Input>, x: Input)
    ensures Occurs(p, At(p, xs, |xs|).state, Step(At(p, xs, |xs|), x, p).state)
  {
    Extend(p, xs, x);
    AtPrefix(p, xs, [x], |xs|);
    assert Changes(p, xs + [x], |xs|, At(p, xs, |xs|).state, Step(At(p, xs, |xs|), x, p).state);
  }

  lemma LocksOccur(p: Params)
    requires p.Valid() && p.Sized()
    ensures Occurs(p, Anchored, Sovereign) && Occurs(p, Sovereign, Recovering) && Occurs(p, Recovering, Sovereign)
  {
    DownAndUp(p, 0);
    OccursNext(p, [], Eclipse(p));
    Extend(p, [], Eclipse(p));
    OccursNext(p, [Eclipse(p)], Calm(p));
    Extend(p, [Eclipse(p)], Calm(p));
    OccursNext(p, [Eclipse(p), Calm(p)], Eclipse(p));
    assert [Eclipse(p)] + [Calm(p)] == [Eclipse(p), Calm(p)];
  }

  /** Noise, one block short of SUSPICIOUS. */
  lemma Brink(p: Params) returns (xs: seq<Input>)
    requires p.Valid() && p.Sized() && p.maxSuspiciousTime >= 1
    ensures At(p, xs, |xs|) == Genesis.(unhealthyStreak := p.DemoteAfter() - 1)
  {
    var d := p.DemoteAfter();
    xs := Steady(Noisy(p), d - 1);
    assert Scripted(p, xs + [Noisy(p)], 0);
    NoiseAbsorbed(p, xs + [Noisy(p)], 0, d - 1);
    AtPrefix(p, xs, [Noisy(p)], d - 1);
  }

  lemma GraceOccurs(p: Params)
    requires p.Valid() && p.Sized() && p.maxSuspiciousTime >= 1
    ensures Occurs(p, Anchored, Suspicious) && Occurs(p, Suspicious, Sovereign)
  {
    var xs := Brink(p);
    NoisyDemotes(p);
    OccursNext(p, xs, Noisy(p));
    Extend(p, xs, Noisy(p));
    OccursNext(p, xs + [Noisy(p)], Eclipse(p));
  }

  lemma HomeOccurs(p: Params)
    requires p.Valid() && p.Sized() && p.maxSuspiciousTime >= 1
    ensures Occurs(p, Recovering, Anchored)
  {
    DownAndUp(p, 0);
    Extend(p, [], Eclipse(p));
    Extend(p, [Eclipse(p)], Calm(p));
    var ys := ClimbTo(p, [Eclipse(p)] + [Calm(p)], 0, p.hysteresisWait);
    OccursNext(p, ys, Proved(Calm(p)));
  }

  /** The successor relation, both ways: under valid parameters the changes of state that some run
      makes are exactly the open ones. */
  lemma EdgesExactly(p: Params, s: State, t: State)
    requires p.Valid() && p.Sized() && s != t
    ensures Occurs(p, s, t) <==> Edge(p, s, t)
  {
    forall xs: seq<Input>, n: nat | n < |xs| && Changes(p, xs, n, s, t) ensures Edge(p, s, t) {
      OnlyEdges(p, xs, n, s, t);
    }
    if Edge(p, s, t) {
      LocksOccur(p);
      if p.maxSuspiciousTime >= 1 {
        GraceOccurs(p);
        HomeOccurs(p);
      }
      if s == Suspicious && t == Anchored {
        ExitPossibleWhen(p);
        var xs: seq<Input>, n: nat :| n < |xs| && ExitsAt(p, xs, n);
        assert Changes(p, xs, n, s, t);
      }
    }
  }
}
