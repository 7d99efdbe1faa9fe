/** Many validators with their own readings, any proposer, and the chain they commit. */
module Chain {
  import opened Fsm
  import opened Runs
  import opened Leaky
  import opened KeeperStore
  import opened Proposals

  type Validator = nat

  datatype Network = Network(params: Params, power: map<Validator, nat>, honest: set<Validator>, initialHeight: nat) {
    /** Less than a third of the voting power is faulty. */
    ghost predicate Sound() {
      && params.Sized()
      && initialHeight >= 1
      && honest <= power.Keys
      && 3 * Weight(power, power.Keys - honest) < Weight(power, power.Keys)
    }
  }

  /** One validator's acceptance: its readings and the round at which it validated. */
  datatype Vote = Vote(readings: Readings, round: nat)

  /** A decided block with the votes behind it, its incoming root and the messages it delivers. */
  datatype Decision = Decision(txs: seq<Tx>, votes: map<Validator, Vote>, root: Bytes, msgs: seq<Msg>)

  ghost function Weight(power: map<Validator, nat>, vs: set<Validator>): nat {
    if vs == {} then 0
    else
      var v :| v in vs;
      (if v in power then power[v] else 0) + Weight(power, vs - {v})
  }

  lemma {:induction false} WeightRemove(power: map<Validator, nat>, vs: set<Validator>, v: Validator)
    requires v in vs
    ensures Weight(power, vs) == (if v in power then power[v] else 0) + Weight(power, vs - {v})
    decreases vs
  {
    var u :| u in vs && Weight(power, vs) == (if u in power then power[u] else 0) + Weight(power, vs - {u});
    if u != v {
      WeightRemove(power, vs - {u}, v);
      WeightRemove(power, vs - {v}, u);
      assert vs - {u} - {v} == vs - {v} - {u};
    }
  }

  lemma {:induction false} WeightSplit(power: map<Validator, nat>, vs: set<Validator>, part: set<Validator>)
    ensures Weight(power, vs) == Weight(power, vs * part) + Weight(power, vs - part)
    decreases vs
  {
    if vs == {} {
      assert vs * part == {} && vs - part == {};
    } else {
      var v :| v in vs;
      WeightRemove(power, vs, v);
      WeightSplit(power, vs - {v}, part);
      if v in part {
        assert vs * part - {v} == (vs - {v}) * part && vs - part == (vs - {v}) - part;
        WeightRemove(power, vs * part, v);
      } else {
        assert vs * part == (vs - {v}) * part && vs - part - {v} == (vs - {v}) - part;
        WeightRemove(power, vs - part, v);
      }
    }
  }

  lemma WeightMonotone(power: map<Validator, nat>, small: set<Validator>, large: set<Validator>)
    requires small <= large
    ensures Weight(power, small) <= Weight(power, large)
  {
    WeightSplit(power, large, small);
    assert large * small == small;
  }

  function HonestVoters(net: Network, d: Decision): set<Validator> {
    d.votes.Keys * net.honest
  }

  ghost predicate VoteHolds(net: Network, st: Store, d: Decision, height: nat, v: Validator)
    requires v in d.votes
  {
    Accepts(st, d.votes[v].readings, d.votes[v].round, height, d.txs, net.params)
  }

  /** A block decided on a store: more than two thirds of the power voted for it, and every
      honest voter had accepted it. Nothing is assumed of the proposer or of faulty voters. */
  ghost predicate Decided(net: Network, st: Store, d: Decision, height: nat) {
    && d.votes.Keys <= net.power.Keys
    && 3 * Weight(net.power, d.votes.Keys) > 2 * Weight(net.power, net.power.Keys)
    && (forall v :: v in HonestVoters(net, d) ==> VoteHolds(net, st, d, height, v))
    && |d.root| == 32
  }

  function Height(net: Network, i: nat): nat {
    net.initialHeight + i
  }

  function ContextAt(net: Network, ds: seq<Decision>, i: nat): BlockContext
    requires i < |ds|
  {
    BlockContext(Height(net, i), ds[i].root)
  }

  /** The committed store after the first `i` blocks. */
  ghost function StoreAt(net: Network, ds: seq<Decision>, i: nat): Store
    requires i <= |ds|
  {
    if i == 0 then Empty
    else
      var st, d := StoreAt(net, ds, i - 1), ds[i - 1];
      DeliverAll(PreBlock(st, d.txs, ContextAt(net, ds, i - 1), net.params), d.msgs)
  }

  ghost predicate LegalAt(net: Network, ds: seq<Decision>, i: nat)
    requires i < |ds|
  {
    Decided(net, StoreAt(net, ds, i), ds[i], Height(net, i))
  }

  /** A run of decided blocks. */
  ghost predicate Legal(net: Network, ds: seq<Decision>) {
    net.Sound() && forall i :: 0 <= i < |ds| ==> LegalAt(net, ds, i)
  }

  ghost function StateAt(net: Network, ds: seq<Decision>, i: nat): State
    requires i <= |ds|
  {
    StoreAt(net, ds, i).machine.state
  }

  /** Quorum overlap: the honest voters behind a decided block hold more than a third. */
  lemma HonestThird(net: Network, st: Store, d: Decision, height: nat)
    requires net.Sound() && Decided(net, st, d, height)
    ensures 3 * Weight(net.power, HonestVoters(net, d)) > Weight(net.power, net.power.Keys)
    ensures HonestVoters(net, d) != {}
  {
    WeightSplit(net.power, d.votes.Keys, net.honest);
    WeightMonotone(net.power, d.votes.Keys - net.honest, net.power.Keys - net.honest);
  }

  lemma {:induction false} DeliverKeeps(st: Store, msgs: seq<Msg>)
    ensures var st' := DeliverAll(st, msgs);
            && st'.machine == st.machine
            && st'.hBtcCurrent == st.hBtcCurrent
            && st'.hBtcSubmitted == st.hBtcSubmitted
            && st'.txIgnoredRounds == st.txIgnoredRounds
            && st.forcedTxQueue <= st'.forcedTxQueue
  {
    if msgs != [] {
      DeliverKeeps(st, msgs[..|msgs| - 1]);
    }
  }

  /** What validator `v` would feed its own copy of the breaker at block `i`. */
  ghost function OwnInput(net: Network, ds: seq<Decision>, i: nat, v: Validator): Input
    requires i < |ds| && v in ds[i].votes
  {
    var st := StoreAt(net, ds, i);
    Input(Sensed(st, ds[i].votes[v].readings, Height(net, i), net.params), ProofFlag(st, net.params))
  }

  /** `v` is an honest voter whose own local step gives the machine block `i` committed. */
  ghost predicate Backs(net: Network, ds: seq<Decision>, i: nat, v: Validator)
    requires i < |ds|
  {
    && v in HonestVoters(net, ds[i])
    && StoreAt(net, ds, i + 1).machine == Step(StoreAt(net, ds, i).machine, OwnInput(net, ds, i, v), net.params)
  }

  lemma HonestVoterBacks(net: Network, ds: seq<Decision>, i: nat, v: Validator)
    requires Legal(net, ds) && i < |ds| && v in HonestVoters(net, ds[i])
    ensures Backs(net, ds, i, v)
  {
    var st, d := StoreAt(net, ds, i), ds[i];
    assert LegalAt(net, ds, i);
    assert VoteHolds(net, st, d, Height(net, i), v);
    CommitIsLocalStep(st, d.votes[v].readings, d.votes[v].round, d.txs, ContextAt(net, ds, i), net.params);
    DeliverKeeps(PreBlock(st, d.txs, ContextAt(net, ds, i), net.params), d.msgs);
  }

  /** Honest validators with more than a third of the power computed each committed machine
      from their own readings. */
  lemma BackedByThird(net: Network, ds: seq<Decision>, i: nat)
    requires Legal(net, ds) && i < |ds|
    ensures 3 * Weight(net.power, set v | v in HonestVoters(net, ds[i]) && Backs(net, ds, i, v))
              > Weight(net.power, net.power.Keys)
  {
    assert LegalAt(net, ds, i);
    HonestThird(net, StoreAt(net, ds, i), ds[i], Height(net, i));
    forall v | v in HonestVoters(net, ds[i]) ensures Backs(net, ds, i, v) {
      HonestVoterBacks(net, ds, i, v);
    }
    assert (set v | v in HonestVoters(net, ds[i]) && Backs(net, ds, i, v)) == HonestVoters(net, ds[i]);
  }

  /** `x` is what some honest voter behind block `i` sensed, with the refreshed proof flag. */
  ghost predicate Endorsed(net: Network, ds: seq<Decision>, i: nat, x: Input)
    requires i < |ds|
  {
    exists v :: v in HonestVoters(net, ds[i]) && x == OwnInput(net, ds, i, v)
  }

  /** After `i` blocks the committed machine is the local run's. */
  ghost predicate Tracks(net: Network, ds: seq<Decision>, xs: seq<Input>, i: nat)
    requires i <= |ds| && i <= |xs|
  {
    StoreAt(net, ds, i).machine == At(net.params, xs, i)
  }

  lemma ChooseBacker(net: Network, ds: seq<Decision>, i: nat) returns (v: Validator)
    requires Legal(net, ds) && i < |ds|
    ensures Backs(net, ds, i, v) && Endorsed(net, ds, i, OwnInput(net, ds, i, v))
  {
    assert LegalAt(net, ds, i);
    HonestThird(net, StoreAt(net, ds, i), ds[i], Height(net, i));
    v :| v in HonestVoters(net, ds[i]);
    HonestVoterBacks(net, ds, i, v);
  }

  lemma EndorsedStep(net: Network, ds: seq<Decision>, i: nat, x: Input)
    requires Legal(net, ds) && i < |ds| && Endorsed(net, ds, i, x)
    ensures StoreAt(net, ds, i + 1).machine == Step(StoreAt(net, ds, i).machine, x, net.params)
  {
    var v :| v in HonestVoters(net, ds[i]) && x == OwnInput(net, ds, i, v);
    HonestVoterBacks(net, ds, i, v);
  }

  /** Inputs that honest voters sensed drive the local machine through the committed states. */
  lemma {:induction false} EndorsedTracks(net: Network, ds: seq<Decision>, xs: seq<Input>, i: nat)
    requires Legal(net, ds) && i <= |xs| <= |ds|
    requires forall j :: 0 <= j < |xs| ==> Endorsed(net, ds, j, xs[j])
    ensures Tracks(net, ds, xs, i)
  {
    if i > 0 {
      EndorsedTracks(net, ds, xs, i - 1);
      EndorsedStep(net, ds, i - 1, xs[i - 1]);
    }
  }

  lemma {:induction false} EndorsedInputs(net: Network, ds: seq<Decision>, n: nat) returns (xs: seq<Input>)
    requires Legal(net, ds) && n <= |ds|
    ensures |xs| == n && forall i :: 0 <= i < n ==> Endorsed(net, ds, i, xs[i])
  {
    if n == 0 {
      xs := [];
    } else {
      var ys := EndorsedInputs(net, ds, n - 1);
      var v := ChooseBacker(net, ds, n - 1);
      xs := ys + [OwnInput(net, ds, n - 1, v)];
    }
  }

  /** The committed chain refines the local machine: for every run of decided blocks there are
      inputs, each sensed by an honest voter of its block, on which the local machine's run is
      exactly the committed states and counters. */
  lemma ChainRefinesLocal(net: Network, ds: seq<Decision>) returns (xs: seq<Input>)
    requires Legal(net, ds)
    ensures |xs| == |ds|
    ensures forall i :: 0 <= i < |ds| ==> Endorsed(net, ds, i, xs[i])
    ensures forall i :: 0 <= i <= |ds| ==> Tracks(net, ds, xs, i)
  {
    xs := EndorsedInputs(net, ds, |ds|);
    forall i | 0 <= i <= |ds| ensures Tracks(net, ds, xs, i) {
      EndorsedTracks(net, ds, xs, i);
    }
  }

  /** Block `i` carries no withdrawal. */
  predicate WithdrawalFree(ds: seq<Decision>, i: nat)
    requires i < |ds|
  {
    |ds[i].txs| > 0 && forall tx :: tx in ds[i].txs[1..] ==> !ContainsWithdrawal(tx)
  }

  /** A block that commits a locked state carries no withdrawal. */
  lemma LockedBlockIsFree(net: Network, ds: seq<Decision>, i: nat)
    requires Legal(net, ds) && i < |ds|
    requires WithdrawLocked(StateAt(net, ds, i + 1))
    ensures WithdrawalFree(ds, i)
  {
    assert LegalAt(net, ds, i);
    HonestThird(net, StoreAt(net, ds, i), ds[i], Height(net, i));
    var v :| v in HonestVoters(net, ds[i]);
    assert VoteHolds(net, StoreAt(net, ds, i), ds[i], Height(net, i), v);
    DeliverKeeps(PreBlock(StoreAt(net, ds, i), ds[i].txs, ContextAt(net, ds, i), net.params), ds[i].msgs);
  }

  /** Minimum lockout: every committed SOVEREIGN block starts at least HysteresisWait + 2
      consecutive committed blocks without a withdrawal. */
  lemma WithdrawalLockout(net: Network, ds: seq<Decision>, i: nat)
    requires Legal(net, ds) && i < |ds|
    requires StateAt(net, ds, i + 1) == Sovereign
    ensures forall j :: i <= j < i + net.params.hysteresisWait + 2 && j < |ds| ==> WithdrawalFree(ds, j)
  {
    var xs := ChainRefinesLocal(net, ds);
    assert Tracks(net, ds, xs, i + 1);
    MinimumLockout(net.params, xs, i + 1);
    forall j | i <= j < i + net.params.hysteresisWait + 2 && j < |ds| ensures WithdrawalFree(ds, j) {
      assert WithdrawLocked(At(net.params, xs, j + 1).state);
      assert Tracks(net, ds, xs, j + 1);
      LockedBlockIsFree(net, ds, j);
    }
  }

  /** The decided proposal of block `i` calls the block healthy. */
  predicate HealthyBlock(ds: seq<Decision>, i: nat)
    requires i < |ds|
  {
    ds[i].txs != [] && ds[i].txs[0].Extended? && ds[i].txs[0].ext.healthy
  }

  /** Healthy minus unhealthy committed blocks in the block range [a, b). */
  function CommittedBalance(ds: seq<Decision>, a: nat, b: nat): int
    requires a <= b <= |ds|
    decreases b
  {
    if a == b then 0 else CommittedBalance(ds, a, b - 1) + (if HealthyBlock(ds, b - 1) then 1 else -1)
  }

  /** The committed health flag is the one an honest voter sensed. */
  lemma HealthAgreed(net: Network, ds: seq<Decision>, i: nat, x: Input)
    requires Legal(net, ds) && i < |ds| && Endorsed(net, ds, i, x)
    ensures HealthyBlock(ds, i) <==> IsHealthy(x.metrics, net.params)
  {
    var v :| v in HonestVoters(net, ds[i]) && x == OwnInput(net, ds, i, v);
    assert LegalAt(net, ds, i);
    assert VoteHolds(net, StoreAt(net, ds, i), ds[i], Height(net, i), v);
  }

  lemma {:induction false} BalanceAgreed(net: Network, ds: seq<Decision>, xs: seq<Input>, a: nat, b: nat)
    requires Legal(net, ds) && |xs| == |ds| && a <= b <= |ds|
    requires forall j :: 0 <= j < |ds| ==> Endorsed(net, ds, j, xs[j])
    ensures CommittedBalance(ds, a, b) == Balance(net.params, xs, a, b)
    decreases b
  {
    if a < b {
      BalanceAgreed(net, ds, xs, a, b - 1);
      HealthAgreed(net, ds, b - 1, xs[b - 1]);
    }
  }

  /** Earned recovery: each committed step from RECOVERING to ANCHORED is a healthy block, and follows
      at least HysteresisWait + 1 committed RECOVERING blocks, at the end of which the committed healthy
      blocks outnumber the unhealthy ones by HysteresisWait or more. */
  lemma CommittedRecoveryEarned(net: Network, ds: seq<Decision>, i: nat) returns (a: nat)
    requires Legal(net, ds) && i < |ds|
    requires StateAt(net, ds, i) == Recovering && StateAt(net, ds, i + 1) == Anchored
    ensures HealthyBlock(ds, i)
    ensures i >= net.params.hysteresisWait + 1
    ensures forall k :: i - net.params.hysteresisWait <= k <= i ==> StateAt(net, ds, k) == Recovering
    ensures a <= i && CommittedBalance(ds, a, i) >= net.params.hysteresisWait
    ensures forall k :: a <= k <= i ==> StateAt(net, ds, k) == Recovering
  {
    var xs := ChainRefinesLocal(net, ds);
    assert Tracks(net, ds, xs, i) && Tracks(net, ds, xs, i + 1);
    a := RecoveryEarned(net.params, xs, i);
    BalanceAgreed(net, ds, xs, a, i);
    HealthAgreed(net, ds, i, xs[i]);
    var s := StayStart(net.params, xs, i);
    assert At(net.params, xs, 0).state == Anchored;
    forall k | s <= k <= i ensures StateAt(net, ds, k) == Recovering {
      assert Tracks(net, ds, xs, k);
    }
  }
}
