/** The exponential backoff of the RECOVERING demotion threshold: closed form,
    the exact point where the doubling wraps, and its behaviour over runs. */
module BackoffLaws {
  import opened Uint64
  import opened Fsm

  function Pow2(n: nat): nat {
    if n == 0 then 1 else 2 * Pow2(n - 1)
  }

  /** `d` doubled `n` times in unbounded integers. */
  function Scaled(d: nat, n: nat): nat {
    if n == 0 then d else 2 * Scaled(d, n - 1)
  }

  lemma {:induction false} ScaledIsProduct(d: nat, n: nat)
    ensures Scaled(d, n) == d * Pow2(n)
  {
    if n > 0 {
      ScaledIsProduct(d, n - 1);
    }
  }

  /** No multiple of `d` that the loop doubles lies in the upper half of the word. */
  ghost predicate DoublingFits(d: nat, cap: nat) {
    forall j: nat :: Scaled(d, j) < cap ==> Scaled(d, j) < HALF
  }

  lemma {:induction false} ScaledStep(d: nat, n: nat)
    ensures Scaled(d, n + 1) == 2 * Scaled(d, n) == Scaled(2 * d, n)
  {
    if n > 0 {
      ScaledStep(d, n - 1);
    }
  }

  lemma {:induction false} ScaledGrows(d: nat, i: nat, j: nat)
    requires i <= j
    ensures Scaled(d, i) <= Scaled(d, j)
    decreases j - i
  {
    if i < j {
      ScaledStep(d, i);
      ScaledGrows(d, i + 1, j);
    }
  }

  lemma {:induction false} ScaledOutgrows(d: nat, n: nat)
    requires d >= 1
    ensures Scaled(d, n) > n
  {
    if n > 0 {
      ScaledOutgrows(d, n - 1);
      ScaledStep(d, n - 1);
    }
  }

  lemma DoubleExact(x: nat)
    requires x < HALF
    ensures Double(x) == 2 * x
  {
  }

  lemma FitsDoubled(d: nat, cap: nat)
    requires DoublingFits(d, cap)
    ensures DoublingFits(2 * d, cap)
  {
    forall j: nat | Scaled(2 * d, j) < cap ensures Scaled(2 * d, j) < HALF {
      ScaledStep(d, j);
      assert Scaled(d, j + 1) < HALF;
    }
  }

  /** The first doubling of a positive `d` that reaches the upper half of the word. */
  function FirstHigh(d: nat): nat
    requires d >= 1
    decreases HALF - d
  {
    if d >= HALF then d else FirstHigh(2 * d)
  }

  lemma {:induction false} FirstHighReached(d: nat) returns (j: nat)
    requires d >= 1
    ensures FirstHigh(d) == Scaled(d, j) >= HALF
    ensures forall i :: 0 <= i < j ==> Scaled(d, i) < HALF
    decreases HALF - d
  {
    if d >= HALF {
      j := 0;
    } else {
      var k := FirstHighReached(2 * d);
      j := k + 1;
      ScaledStep(d, k);
      forall i | 0 <= i < j ensures Scaled(d, i) < HALF {
        if i > 0 {
          ScaledStep(d, i - 1);
        }
      }
    }
  }

  lemma {:induction false} ScaledZero(n: nat)
    ensures Scaled(0, n) == 0
  {
    if n > 0 {
      ScaledZero(n - 1);
    }
  }

  /** No doubling wraps exactly when the cap is at most the first doubling that reaches 2^63. */
  lemma FitsExactly(d: nat, cap: nat)
    ensures DoublingFits(d, cap) <==> d == 0 || cap <= FirstHigh(d)
  {
    if d == 0 {
      forall j: nat ensures Scaled(0, j) < HALF {
        ScaledZero(j);
      }
    } else {
      var k := FirstHighReached(d);
      forall j: nat | cap <= FirstHigh(d) && Scaled(d, j) < cap ensures Scaled(d, j) < HALF {
        if j >= k {
          ScaledGrows(d, k, j);
        }
      }
    }
  }

  /** A cap of at most 2^63 rules wrapping out whatever the threshold. */
  lemma HalfFits(d: nat, cap: nat)
    requires cap <= HALF
    ensures DoublingFits(d, cap)
  {
  }

  /** Without wrap-around the loop is the capped exponential. */
  lemma {:induction false} BackoffIsCappedExponential(d: nat, n: nat, cap: nat)
    requires DoublingFits(d, cap)
    ensures Backoff(d, n, cap) == Min(Scaled(d, n), cap)
    decreases n
  {
    if n > 0 && d < cap {
      assert Scaled(d, 0) < HALF;
      DoubleExact(d);
      FitsDoubled(d, cap);
      BackoffIsCappedExponential(2 * d, n - 1, cap);
      ScaledStep(d, n - 1);
    } else {
      ScaledGrows(d, 0, n);
    }
  }

  /** Skipping `j` doublings none of which wraps or reaches the cap. */
  lemma {:induction false} BackoffSkips(d: nat, j: nat, n: nat, cap: nat)
    requires j <= n
    requires Scaled(d, j) < cap && Scaled(d, j) < SIZE
    ensures Backoff(d, n, cap) == Backoff(Scaled(d, j), n - j, cap)
    decreases j
  {
    if j > 0 {
      BackoffSkips(d, j - 1, n, cap);
      DoubleExact(Scaled(d, j - 1));
    }
  }

  /** Where the loop wraps it returns less than both the cap and the exponential. */
  lemma WrapBreaksBackoff(d: nat, cap: nat, j: nat)
    requires cap < SIZE
    requires HALF <= Scaled(d, j) < cap
    ensures Backoff(d, j + 1, cap) != Min(Scaled(d, j + 1), cap)
  {
    BackoffSkips(d, j, j + 1, cap);
    ScaledStep(d, j);
    var e := Scaled(d, j);
    assert Double(e) == 2 * e - SIZE;
    assert Backoff(e, 1, cap) == Backoff(Double(e), 0, cap);
  }

  /** The loop computes min(d * 2^n, cap) for every n exactly when no doubled value lies in the upper
      half of the 64-bit range below the cap; that is, exactly when the threshold is zero or the cap is
      at most its first doubling that reaches 2^63. */
  lemma BackoffExactWhen(d: nat, cap: nat)
    requires cap < SIZE
    ensures (forall n: nat :: Backoff(d, n, cap) == Min(Scaled(d, n), cap)) <==> DoublingFits(d, cap)
    ensures DoublingFits(d, cap) <==> d == 0 || cap <= FirstHigh(d)
    ensures cap <= HALF ==> DoublingFits(d, cap)
  {
    FitsExactly(d, cap);
    if DoublingFits(d, cap) {
      forall n: nat ensures Backoff(d, n, cap) == Min(Scaled(d, n), cap) {
        BackoffIsCappedExponential(d, n, cap);
      }
    } else {
      var j: nat :| Scaled(d, j) < cap && Scaled(d, j) >= HALF;
      WrapBreaksBackoff(d, cap, j);
    }
  }

  /** An input the loop gets wrong: one doubling from 2^63 under a cap above it. */
  lemma BackoffWrapExample()
    ensures Backoff(HALF, 1, HALF + 1) == 0
    ensures Min(Scaled(HALF, 1), HALF + 1) == HALF + 1
  {
    ScaledStep(HALF, 0);
    assert Scaled(HALF, 0) == HALF;
    assert Backoff(HALF, 1, HALF + 1) == Backoff(Double(HALF), 0, HALF + 1);
  }

  lemma ThresholdGrows(p: Params, a: nat, b: nat)
    requires p.Sized() && a <= b
    ensures EffectiveThreshold(a, p) <= EffectiveThreshold(b, p)
  {
    HalfFits(p.downHysteresisThreshold, p.maxDownHysteresisThreshold);
    BackoffIsCappedExponential(p.downHysteresisThreshold, a, p.maxDownHysteresisThreshold);
    BackoffIsCappedExponential(p.downHysteresisThreshold, b, p.maxDownHysteresisThreshold);
    ScaledGrows(p.downHysteresisThreshold, a, b);
  }

  /** `n` doublings are still needed: one fewer leaves the threshold below its cap. */
  predicate Needed(p: Params, n: nat) {
    n == 0 || Scaled(p.downHysteresisThreshold, n - 1) < p.maxDownHysteresisThreshold
  }

  lemma NeededBelowCap(p: Params, n: nat)
    requires p.downHysteresisThreshold >= 1 && Needed(p, n)
    ensures n <= p.maxDownHysteresisThreshold
  {
    if n > 0 {
      ScaledOutgrows(p.downHysteresisThreshold, n - 1);
    }
  }

  /** One block keeps the count of failed recoveries needed, and lowers it only on success. */
  lemma AttemptsStep(p: Params, m: Machine, x: Input)
    requires p.Sized() && p.downHysteresisThreshold >= 1
    requires Needed(p, m.failedRecoveryAttempts)
    ensures Needed(p, Step(m, x, p).failedRecoveryAttempts)
    ensures m.failedRecoveryAttempts <= Step(m, x, p).failedRecoveryAttempts
            || (m.state == Recovering && Step(m, x, p).state == Anchored)
  {
    var n := m.failedRecoveryAttempts;
    NeededBelowCap(p, n);
    HalfFits(p.downHysteresisThreshold, p.maxDownHysteresisThreshold);
    BackoffIsCappedExponential(p.downHysteresisThreshold, n, p.maxDownHysteresisThreshold);
  }

  lemma {:induction false} AttemptsNeeded(p: Params, xs: seq<Input>, i: nat)
    requires p.Sized() && p.downHysteresisThreshold >= 1
    requires i <= |xs|
    ensures Needed(p, At(p, xs, i).failedRecoveryAttempts)
  {
    if i > 0 {
      AttemptsNeeded(p, xs, i - 1);
      AttemptsStep(p, At(p, xs, i - 1), xs[i - 1]);
    }
  }

  /** In every run the count of failed recoveries never exceeds any number of
      doublings that already reaches the cap, in particular the least one. */
  lemma AttemptsBounded(p: Params, xs: seq<Input>, i: nat, n: nat)
    requires p.Sized() && p.downHysteresisThreshold >= 1
    requires i <= |xs|
    requires Scaled(p.downHysteresisThreshold, n) >= p.maxDownHysteresisThreshold
    ensures At(p, xs, i).failedRecoveryAttempts <= n
  {
    AttemptsNeeded(p, xs, i);
    var a := At(p, xs, i).failedRecoveryAttempts;
    if a > n {
      ScaledGrows(p.downHysteresisThreshold, n, a - 1);
    }
  }

  ghost predicate RecoversAt(p: Params, xs: seq<Input>, k: nat)
    requires k < |xs|
  {
    At(p, xs, k).state == Recovering && At(p, xs, k + 1).state == Anchored
  }

  lemma {:induction false} AttemptsNeverFall(p: Params, xs: seq<Input>, i: nat, j: nat)
    requires p.Sized() && p.downHysteresisThreshold >= 1
    requires i <= j <= |xs|
    requires forall k :: i <= k < j ==> !RecoversAt(p, xs, k)
    ensures At(p, xs, i).failedRecoveryAttempts <= At(p, xs, j).failedRecoveryAttempts
    decreases j
  {
    if i < j {
      AttemptsNeverFall(p, xs, i, j - 1);
      AttemptsNeeded(p, xs, j - 1);
      AttemptsStep(p, At(p, xs, j - 1), xs[j - 1]);
      assert !RecoversAt(p, xs, j - 1);
    }
  }

  /** Between two successful recoveries the demotion threshold never falls. */
  lemma ThresholdNeverFalls(p: Params, xs: seq<Input>, i: nat, j: nat)
    requires p.Sized() && p.downHysteresisThreshold >= 1
    requires i <= j <= |xs|
    requires forall k :: i <= k < j ==> !RecoversAt(p, xs, k)
    ensures EffectiveThreshold(At(p, xs, i).failedRecoveryAttempts, p)
         <= EffectiveThreshold(At(p, xs, j).failedRecoveryAttempts, p)
  {
    AttemptsNeverFall(p, xs, i, j);
    ThresholdGrows(p, At(p, xs, i).failedRecoveryAttempts, At(p, xs, j).failedRecoveryAttempts);
  }

  /** Recoveries that failed since the last one that succeeded: the RECOVERING to SOVEREIGN steps after
      the last RECOVERING to ANCHORED one, read off the states alone. */
  function Regressions(p: Params, xs: seq<Input>, i: nat): nat
    requires i <= |xs|
  {
    if i == 0 then 0
    else if At(p, xs, i - 1).state == Recovering && At(p, xs, i).state == Anchored then 0
    else Regressions(p, xs, i - 1)
         + (if At(p, xs, i - 1).state == Recovering && At(p, xs, i).state == Sovereign then 1 else 0)
  }

  /** `n` is the least number of doublings that reaches the cap. */
  predicate LeastReaching(p: Params, n: nat) {
    Scaled(p.downHysteresisThreshold, n) >= p.maxDownHysteresisThreshold && Needed(p, n)
  }

  /** The threshold is still below its cap exactly after fewer doublings than the least that reach it. */
  lemma BelowCapExactly(p: Params, a: nat, n: nat)
    requires p.Sized() && p.downHysteresisThreshold >= 1 && LeastReaching(p, n)
    ensures EffectiveThreshold(a, p) >= p.maxDownHysteresisThreshold <==> a >= n
    ensures n <= HALF
  {
    HalfFits(p.downHysteresisThreshold, p.maxDownHysteresisThreshold);
    BackoffIsCappedExponential(p.downHysteresisThreshold, a, p.maxDownHysteresisThreshold);
    NeededBelowCap(p, n);
    if a >= n {
      ScaledGrows(p.downHysteresisThreshold, n, a);
    } else {
      ScaledGrows(p.downHysteresisThreshold, a, n - 1);
    }
  }

  lemma AttemptsMove(p: Params, m: Machine, x: Input, n: nat)
    requires p.Sized() && p.downHysteresisThreshold >= 1 && LeastReaching(p, n)
    requires m.failedRecoveryAttempts <= n
    ensures var m' := Step(m, x, p);
            m'.failedRecoveryAttempts
            == if m.state == Recovering && m'.state == Anchored then 0
               else if m.state == Recovering && m'.state == Sovereign then Min(m.failedRecoveryAttempts + 1, n)
               else m.failedRecoveryAttempts
  {
    BelowCapExactly(p, m.failedRecoveryAttempts, n);
  }

  /** In every run the failed-recovery count is exactly the number of regressions since the last
      success, stopping at the least number of doublings that reaches the cap. */
  lemma {:induction false} AttemptsExactly(p: Params, xs: seq<Input>, i: nat, n: nat)
    requires p.Sized() && p.downHysteresisThreshold >= 1 && LeastReaching(p, n)
    requires i <= |xs|
    ensures At(p, xs, i).failedRecoveryAttempts == Min(Regressions(p, xs, i), n)
  {
    if i > 0 {
      AttemptsExactly(p, xs, i - 1, n);
      AttemptsMove(p, At(p, xs, i - 1), xs[i - 1], n);
    }
  }

  lemma {:induction false} LeastExists(p: Params, k: nat) returns (n: nat)
    requires Scaled(p.downHysteresisThreshold, k) >= p.maxDownHysteresisThreshold
    ensures LeastReaching(p, n)
  {
    if Needed(p, k) {
      n := k;
    } else {
      n := LeastExists(p, k - 1);
    }
  }

  /** The backoff over runs: the effective demotion threshold is the base threshold doubled once for
      every recovery that failed since the last success, up to the cap. */
  lemma ThresholdExactly(p: Params, xs: seq<Input>, i: nat)
    requires p.Sized() && i <= |xs|
    ensures EffectiveThreshold(At(p, xs, i).failedRecoveryAttempts, p)
         == Min(p.downHysteresisThreshold * Pow2(Regressions(p, xs, i)), p.maxDownHysteresisThreshold)
  {
    var d, cap, r := p.downHysteresisThreshold, p.maxDownHysteresisThreshold, Regressions(p, xs, i);
    HalfFits(d, cap);
    BackoffIsCappedExponential(d, At(p, xs, i).failedRecoveryAttempts, cap);
    ScaledIsProduct(d, r);
    if d == 0 {
      ScaledZero(At(p, xs, i).failedRecoveryAttempts);
    } else {
      ScaledOutgrows(d, cap);
      var n := LeastExists(p, cap);
      AttemptsExactly(p, xs, i, n);
      if r > n {
        ScaledGrows(d, n, r);
      }
    }
  }
}
