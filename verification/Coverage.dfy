/** Scripted runs of the chain: what the ledger's results can and cannot rely on. A one-validator
    network shows that re-anchoring by proof happens, and that the guarantee of coverage by proofs holds
    of all runs only under parameters where no run re-anchors. */
module Coverage {
  import opened Uint64
  import opened Fsm
  import opened Receipts
  import opened KeeperStore
  import opened Proposals
  import opened Chain
  import opened Ledger

  /** Valid parameters whose limits lie well within the 64-bit range. */
  predicate Ordinary(p: Params) {
    && p.Valid() && p.Sized()
    && p.hysteresisWait < HALF / 4 && p.daThreshold < HALF && p.kDeepFinality < HALF / 2
  }

  function Zeros(n: nat): Bytes {
    seq(n, _ => 0)
  }

  /** In the scripted runs every block has the same root. */
  function Root(): Bytes {
    Zeros(32)
  }

  /** A proof from that root to itself. */
  function SelfProof(): Msg {
    SubmitRecoveryProof(Zeros(PUBLIC_INPUTS), true)
  }

  function Solo(p: Params): Network {
    Network(p, map[0 := 1], {0}, 1)
  }

  lemma SoloSound(p: Params)
    requires p.Sized()
    ensures Solo(p).Sound()
    ensures Weight(Solo(p).power, {0}) == 1
  {
    WeightRemove(Solo(p).power, {0}, 0);
    assert {0} - {0} == {};
    assert Solo(p).power.Keys == {0};
  }

  function Peers(p: Params): P2PSnapshot {
    P2PSnapshot(p.minSubnetDiversity, Max(p.minAnchorPeers, 1), p.minPeers, 0, p.minAvgTenure, 0)
  }

  /** Healthy readings, or an outage of both Bitcoin and DA. */
  function View(p: Params, up: bool, height: nat): Readings {
    if up then Readings(ChainTip(1), LiveDa(false, true, Some(height)), Peers(p), false, true, true, None, None)
    else Readings(Unreachable, FixedDa(false, false, false), Peers(p), false, true, true, None, None)
  }

  ghost function ScriptedExt(st: Store, p: Params, up: bool, height: nat): ExtendedProposal {
    var target := Expected(st, View(p, up, height), height, p);
    ExtendedProposal(
      target,
      IsHealthy(Sensed(st, View(p, up, height), height, p), p),
      DaReceipt(height, true),
      BtcReceipt(1, ExpectedBlockHash(1)),
      if target == Recovering && st.machine.safeBlocks == p.hysteresisWait then [0] else [])
  }

  /** The store is one the script works on. */
  predicate Fit(st: Store, height: nat) {
    && !st.machine.state.Unknown? && st.machine.suspiciousDuration == 0 && st.machine.state != Suspicious
    && st.forcedTxQueue == {} && st.hBtcAnchored <= 1 && st.hEngramVerified < height < HALF
  }

  lemma Outage(st: Store, p: Params, height: nat)
    requires Fit(st, height)
    ensures var m := Sensed(st, View(p, false, height), height, p);
            IsBTCGapSovereign(m, p) && !IsBTCHealthy(m, p) && !IsDAHealthy(m, p) && !IsHealthy(m, p)
    ensures Expected(st, View(p, false, height), height, p) == Sovereign
  {
  }

  lemma AllGreen(st: Store, p: Params, height: nat)
    requires Fit(st, height) && Ordinary(p)
    ensures var m := Sensed(st, View(p, true, height), height, p);
            IsHealthy(m, p) && IsBTCHealthy(m, p) && IsDAHealthy(m, p)
            && (p.maxSuspiciousTime >= 1 ==> !IsCritical(m, p, st.machine.suspiciousDuration))
  {
  }

  lemma ScriptedReceipts(st: Store, p: Params, up: bool, height: nat)
    requires Fit(st, height) && (up ==> Ordinary(p))
    ensures ReceiptsHold(Refresh(st, View(p, up, height), height, p), ScriptedExt(st, p, up, height), 0, p)
  {
    var b, ext := Refresh(st, View(p, up, height), height, p), ScriptedExt(st, p, up, height);
    if up {
      DaWindow(ext.daReceipt, ext.fsmState, IsDAHealthy(b.metrics, p), b.hEngramCurrent, p.daThreshold, 0);
      BtcWindow(ext.btcReceipt, ext.fsmState, IsBTCHealthy(b.metrics, p), b.hBtcCurrent, b.hBtcAnchored,
                0, p.kDeepFinality);
    } else {
      Outage(st, p, height);
    }
  }

  lemma ScriptedAccepted(st: Store, p: Params, up: bool, height: nat)
    requires Fit(st, height) && (up ==> Ordinary(p))
    ensures Accepts(st, View(p, up, height), 0, height, [Extended(ScriptedExt(st, p, up, height))], p)
  {
    ScriptedReceipts(st, p, up, height);
    assert [Extended(ScriptedExt(st, p, up, height))][1..] == [];
  }

  /** The next decided block of the script. */
  ghost function Block(st: Store, p: Params, up: bool, height: nat, msgs: seq<Msg>): Decision {
    Decision([Extended(ScriptedExt(st, p, up, height))], map[0 := Vote(View(p, up, height), 0)], Root(), msgs)
  }

  /** What the block leaves behind before its messages. */
  ghost function Committed(st: Store, p: Params, up: bool, height: nat): Store {
    Commit(st, ScriptedExt(st, p, up, height), BlockContext(height, Root()), p)
  }

  /** The store after a scripted run. */
  ghost function Last(p: Params, ds: seq<Decision>): Store {
    StoreAt(Solo(p), ds, |ds|)
  }

  lemma {:induction false} StorePrefix(net: Network, ds: seq<Decision>, es: seq<Decision>, i: nat)
    requires ds <= es && i <= |ds|
    ensures StoreAt(net, es, i) == StoreAt(net, ds, i)
  {
    if i > 0 {
      StorePrefix(net, ds, es, i - 1);
    }
  }

  lemma {:induction false} IntervalPrefix(net: Network, ds: seq<Decision>, es: seq<Decision>, i: nat)
    requires ds <= es && i <= |ds|
    ensures IntervalAt(net, es, i) == IntervalAt(net, ds, i)
  {
    if i > 0 {
      var k := i - 1;
      IntervalPrefix(net, ds, es, k);
      StorePrefix(net, ds, es, k);
      assert IntervalAt(net, ds, i)
          == AfterBlock(IntervalAt(net, ds, k), StoreAt(net, ds, k), ds[k], ContextAt(net, ds, k), net.params);
    }
  }

  /** A scripted run that can be extended. */
  ghost predicate Ready(p: Params, ds: seq<Decision>) {
    Legal(Solo(p), ds) && Fit(Last(p, ds), |ds| + 1)
  }

  lemma BlockDecided(st: Store, p: Params, up: bool, height: nat, msgs: seq<Msg>)
    requires p.Sized() && Fit(st, height) && (up ==> Ordinary(p))
    ensures Decided(Solo(p), st, Block(st, p, up, height, msgs), height)
  {
    SoloSound(p);
    ScriptedAccepted(st, p, up, height);
    assert Block(st, p, up, height, msgs).votes.Keys == {0} == Solo(p).power.Keys;
  }

  lemma StillLegal(net: Network, ds: seq<Decision>, d: Decision)
    requires Legal(net, ds) && Decided(net, StoreAt(net, ds, |ds|), d, Height(net, |ds|))
    ensures Legal(net, ds + [d])
  {
    forall i | 0 <= i < |ds + [d]| ensures LegalAt(net, ds + [d], i) {
      StorePrefix(net, ds, ds + [d], i);
      if i < |ds| {
        assert LegalAt(net, ds, i);
      }
    }
  }

  /** Without messages a block moves the interval as its commit does. */
  lemma IntervalGrows(net: Network, ds: seq<Decision>, d: Decision)
    requires d.msgs == []
    ensures var es, ctx := ds + [d], BlockContext(Height(net, |ds|), d.root);
            IntervalAt(net, es, |es|)
            == OnCommit(IntervalAt(net, ds, |ds|), StateAt(net, ds, |ds|), StateAt(net, es, |es|), ctx)
  {
    StorePrefix(net, ds, ds + [d], |ds|);
    IntervalPrefix(net, ds, ds + [d], |ds|);
  }

  /** One more block of the script. */
  lemma Grow(p: Params, ds: seq<Decision>, up: bool, msgs: seq<Msg>) returns (es: seq<Decision>)
    requires p.Sized() && Ready(p, ds) && (up ==> Ordinary(p))
    ensures es == ds + [Block(Last(p, ds), p, up, |ds| + 1, msgs)]
    ensures Legal(Solo(p), es)
    ensures StoreAt(Solo(p), es, |ds|) == Last(p, ds)
    ensures Last(p, es) == DeliverAll(Committed(Last(p, ds), p, up, |ds| + 1), msgs)
  {
    var net, st := Solo(p), Last(p, ds);
    var d := Block(st, p, up, |ds| + 1, msgs);
    es := ds + [d];
    BlockDecided(st, p, up, |ds| + 1, msgs);
    StillLegal(net, ds, d);
    StorePrefix(net, ds, ds + [d], |ds|);
    assert PreBlock(st, d.txs, ContextAt(net, es, |ds|), p) == Committed(st, p, up, |ds| + 1);
  }

  lemma DownStep(st: Store, p: Params, height: nat)
    requires Fit(st, height) && height + 1 < HALF
    requires st.machine.state == Anchored || st.machine.state == Sovereign
    ensures var next := Committed(st, p, false, height);
            && Fit(next, height + 1) && next.machine.state == Sovereign
            && next.hBtcCurrent == st.hBtcCurrent && next.hBtcSubmitted == st.hBtcSubmitted
            && next.realProofSubmittedHeight == st.realProofSubmittedHeight
            && next.headerHistory == st.headerHistory[height := Header(Sovereign, true, Root())]
            && next.lastAnchoredRoot == if st.machine.state == Anchored then Some(Root()) else st.lastAnchoredRoot
  {
    Outage(st, p, height);
  }

  /** A green block on the way from SOVEREIGN to the ceiling. */
  lemma UpStep(st: Store, p: Params, height: nat)
    requires Fit(st, height) && height + 1 < HALF && Ordinary(p) && p.maxSuspiciousTime >= 1
    requires st.machine.state == Sovereign
             || (st.machine.state == Recovering && st.machine.safeBlocks < p.hysteresisWait)
    ensures var next := Committed(st, p, true, height);
            && Fit(next, height + 1) && next.machine.state == Recovering
            && next.machine.safeBlocks == (if st.machine.state == Sovereign then 0 else st.machine.safeBlocks + 1)
            && next.hBtcCurrent == st.hBtcCurrent && next.realProofSubmittedHeight == st.realProofSubmittedHeight
            && next.headerHistory == st.headerHistory[height := Header(Recovering, true, Root())]
            && next.lastAnchoredRoot == st.lastAnchoredRoot
  {
    AllGreen(st, p, height);
  }

  /** A green block at the ceiling: home with the flag, a claim without it. */
  lemma CeilingStep(st: Store, p: Params, height: nat)
    requires Fit(st, height) && height + 1 < HALF && Ordinary(p) && p.maxSuspiciousTime >= 1
    requires st.machine.state == Recovering && st.machine.safeBlocks == p.hysteresisWait
    ensures var next := Committed(st, p, true, height);
            && Fit(next, height + 1) && next.hBtcAnchored == 1
            && if ProofFlag(st, p) then
                 && next.machine.state == Anchored && next.headerHistory == map[]
                 && next.hBtcCurrent == 1 && next.realProofSubmittedHeight == 0
               else
                 && next.machine.state == Recovering && next.machine.safeBlocks == p.hysteresisWait
                 && next.hBtcSubmitted == st.hBtcCurrent
                 && next.realProofSubmittedHeight == st.realProofSubmittedHeight
  {
    AllGreen(st, p, height);
  }

  /** Every block so far has been proven. */
  ghost predicate AllProven(p: Params, ds: seq<Decision>) {
    && Ready(p, ds)
    && Last(p, ds).headerHistory == map[]
    && Last(p, ds).lastAnchoredRoot == Some(Root())
    && Last(p, ds).realProofSubmittedHeight == |ds|
  }

  /** A proof of the only tracked header. */
  lemma ProveTip(st: Store, height: nat, header: Header)
    requires st.headerHistory == map[height := header] && header.stateRoot == Root()
    requires st.lastAnchoredRoot == Some(Root())
    ensures DeliverAll(st, [SelfProof()]) == st.(headerHistory := map[], realProofSubmittedHeight := height)
  {
    assert Zeros(PUBLIC_INPUTS)[0..32] == Root() && Zeros(PUBLIC_INPUTS)[32..64] == Root();
    assert Matching(st, Root()) == {height};
    assert PrunedUpTo(st.headerHistory, height) == map[];
    assert [SelfProof()][..0] == [];
    assert DeliverAll(st, [SelfProof()]) == Deliver(st, SelfProof());
  }

  /** An outage, its block proven at once. */
  lemma Opening(p: Params) returns (ds: seq<Decision>)
    requires p.Sized()
    ensures |ds| == 1 && AllProven(p, ds) && Last(p, ds).machine.state == Sovereign
    ensures ds[0].msgs == [SelfProof()]
  {
    SoloSound(p);
    assert Legal(Solo(p), []);
    ds := Grow(p, [], false, [SelfProof()]);
    DownStep(Empty, p, 1);
    ProveTip(Committed(Empty, p, false, 1), 1, Header(Sovereign, true, Root()));
  }

  /** The real-proof half of the flag on a store with one tracked header. */
  lemma FlagOfTip(st: Store, p: Params, height: nat, header: Header)
    requires st.headerHistory == map[height := header] && 1 <= st.realProofSubmittedHeight <= height < SIZE
    ensures RealProofValid(st, p) <==> height - st.realProofSubmittedHeight <= p.maxUnprovenTailBlocks
  {
    assert height in st.headerHistory.Keys;
    assert Tip(st) == Some(height);
  }

  /** A proof that reaches the tip is accepted, and still the flag is down, under all parameters. */
  lemma TipProofFails(p: Params) returns (ds: seq<Decision>)
    requires p.Sized()
    ensures Legal(Solo(p), ds) && ds != [] && ds[|ds| - 1].msgs == [SelfProof()]
    ensures Last(p, ds).realProofSubmittedHeight == Height(Solo(p), |ds| - 1)
    ensures !RealProofValid(Last(p, ds), p)
  {
    ds := Opening(p);
  }

  /** A legal run, of sensible length, with the real-proof half of the flag up at its block `i`. */
  ghost predicate FlaggedByProof(p: Params, net: Network, ds: seq<Decision>, i: nat) {
    && net.params == p && Legal(net, ds) && Height(net, |ds|) <= SIZE
    && i <= |ds| && RealProofValid(StoreAt(net, ds, i), p)
  }

  /** The real-proof half of the flag is ever up exactly when MaxUnprovenTailBlocks is at least one. */
  lemma RealProofPossibleWhen(p: Params)
    requires p.Sized()
    ensures (exists net, ds, i :: FlaggedByProof(p, net, ds, i)) <==> p.maxUnprovenTailBlocks >= 1
  {
    forall net, ds, i | FlaggedByProof(p, net, ds, i) ensures p.maxUnprovenTailBlocks >= 1 {
      RealProofExactly(net, ds, i);
    }
    if p.maxUnprovenTailBlocks >= 1 {
      var ds := Opening(p);
      var st := Last(p, ds);
      DownStep(st, p, 2);
      var es := Grow(p, ds, false, []);
      assert Last(p, es) == Committed(st, p, false, 2);
      FlagOfTip(Last(p, es), p, 2, Header(Sovereign, true, Root()));
      assert FlaggedByProof(p, Solo(p), es, |es|);
    }
  }

  /** The way up with every block proven, until one block short of the ceiling. */
  lemma {:induction false} ProvenAscent(p: Params, k: nat) returns (ds: seq<Decision>)
    requires Ordinary(p) && p.maxSuspiciousTime >= 1 && k <= p.hysteresisWait
    ensures |ds| == k + 1 && AllProven(p, ds)
    ensures var m := Last(p, ds).machine;
            if k == 0 then m.state == Sovereign else m.state == Recovering && m.safeBlocks == k - 1
  {
    if k == 0 {
      ds := Opening(p);
    } else {
      var cs := ProvenAscent(p, k - 1);
      var st := Last(p, cs);
      UpStep(st, p, k + 1);
      ds := Grow(p, cs, true, [SelfProof()]);
      ProveTip(Committed(st, p, true, k + 1), k + 1, Header(Recovering, true, Root()));
    }
  }

  /** The chain stands at the ceiling with the real-proof half of the flag up. */
  lemma ProvenCeiling(p: Params) returns (ds: seq<Decision>)
    requires Ordinary(p) && p.maxSuspiciousTime >= 1 && p.maxUnprovenTailBlocks >= 1
    ensures |ds| == p.hysteresisWait + 2 && Ready(p, ds)
    ensures Last(p, ds).machine.state == Recovering && Last(p, ds).machine.safeBlocks == p.hysteresisWait
    ensures RealProofValid(Last(p, ds), p)
  {
    var cs := ProvenAscent(p, p.hysteresisWait);
    var st := Last(p, cs);
    UpStep(st, p, |cs| + 1);
    ds := Grow(p, cs, true, []);
    FlagOfTip(Last(p, ds), p, |ds|, Header(Recovering, true, Root()));
  }

  /** A re-anchoring in a legal run of sensible length. */
  ghost predicate ReturnsHome(p: Params, net: Network, ds: seq<Decision>, i: nat) {
    && net.params == p && Legal(net, ds) && Height(net, |ds|) <= SIZE
    && i < |ds| && Reanchors(net, ds, i)
  }

  /** From the ceiling with the flag up, one green block home. */
  lemma StepHome(p: Params, cs: seq<Decision>) returns (ds: seq<Decision>)
    requires Ordinary(p) && p.maxSuspiciousTime >= 1 && Ready(p, cs) && |cs| + 2 < HALF
    requires Last(p, cs).machine.state == Recovering && Last(p, cs).machine.safeBlocks == p.hysteresisWait
    requires ProofFlag(Last(p, cs), p)
    ensures |ds| == |cs| + 1 && ds[..|cs|] == cs && ds[|cs|].msgs == []
    ensures Ready(p, ds) && ReturnsHome(p, Solo(p), ds, |cs|)
    ensures Last(p, ds).machine.state == Anchored && Last(p, ds).headerHistory == map[]
    ensures Last(p, ds).hBtcCurrent == 1 && Last(p, ds).realProofSubmittedHeight == 0
  {
    CeilingStep(Last(p, cs), p, |cs| + 1);
    ds := Grow(p, cs, true, []);
    assert StateAt(Solo(p), ds, |cs|) == Recovering && StateAt(Solo(p), ds, |cs| + 1) == Anchored;
  }

  /** A first re-anchoring, by proof. */
  lemma ProvenReturn(p: Params) returns (ds: seq<Decision>)
    requires Ordinary(p) && p.maxSuspiciousTime >= 1 && p.maxUnprovenTailBlocks >= 1
    ensures |ds| == p.hysteresisWait + 3 && Ready(p, ds)
    ensures ReturnsHome(p, Solo(p), ds, |ds| - 1)
    ensures Last(p, ds).machine.state == Anchored && Last(p, ds).headerHistory == map[]
    ensures Last(p, ds).hBtcCurrent == 1 && Last(p, ds).realProofSubmittedHeight == 0
    ensures IntervalAt(Solo(p), ds, |ds|).Idle?
  {
    var cs := ProvenCeiling(p);
    ds := StepHome(p, cs);
    assert ds == cs + [ds[|cs|]];
    IntervalGrows(Solo(p), cs, ds[|cs|]);
  }

  /** A locked interval in which no proof has been accepted, after a re-anchoring at checkpoint 1. */
  ghost predicate Unproven(p: Params, ds: seq<Decision>) {
    && Ready(p, ds)
    && Last(p, ds).hBtcCurrent == 1 && Last(p, ds).realProofSubmittedHeight == 0
    && IntervalAt(Solo(p), ds, |ds|).Open? && IntervalAt(Solo(p), ds, |ds|).log == []
  }

  lemma UnprovenGrows(p: Params, cs: seq<Decision>) returns (ds: seq<Decision>)
    requires Ordinary(p) && Unproven(p, cs)
    requires var next := Committed(Last(p, cs), p, true, |cs| + 1);
             && Fit(next, |cs| + 2) && WithdrawLocked(next.machine.state)
             && next.hBtcCurrent == 1 && next.realProofSubmittedHeight == 0
    requires WithdrawLocked(Last(p, cs).machine.state)
    ensures |ds| == |cs| + 1 && Unproven(p, ds)
    ensures Last(p, ds) == Committed(Last(p, cs), p, true, |cs| + 1)
  {
    ds := Grow(p, cs, true, []);
    IntervalGrows(Solo(p), cs, ds[|cs|]);
  }

  lemma UnprovenOpening(p: Params) returns (ds: seq<Decision>)
    requires Ordinary(p) && p.maxSuspiciousTime >= 1 && p.maxUnprovenTailBlocks >= 1
    ensures |ds| == p.hysteresisWait + 4 && Unproven(p, ds) && Last(p, ds).machine.state == Sovereign
  {
    var cs := ProvenReturn(p);
    DownStep(Last(p, cs), p, |cs| + 1);
    ds := Grow(p, cs, false, []);
    IntervalGrows(Solo(p), cs, ds[|cs|]);
  }

  /** The second way up, without a proof. */
  lemma {:induction false} UnprovenAscent(p: Params, k: nat) returns (ds: seq<Decision>)
    requires Ordinary(p) && p.maxSuspiciousTime >= 1 && p.maxUnprovenTailBlocks >= 1 && k <= p.hysteresisWait + 1
    ensures |ds| == p.hysteresisWait + 4 + k && Unproven(p, ds)
    ensures var m := Last(p, ds).machine;
            if k == 0 then m.state == Sovereign else m.state == Recovering && m.safeBlocks == k - 1
  {
    if k == 0 {
      ds := UnprovenOpening(p);
    } else {
      var cs := UnprovenAscent(p, k - 1);
      UpStep(Last(p, cs), p, |cs| + 1);
      ds := UnprovenGrows(p, cs);
    }
  }

  /** At the ceiling without a proof, a claim alone raises the flag. */
  lemma ClaimedCeiling(p: Params) returns (ds: seq<Decision>)
    requires Ordinary(p) && p.maxSuspiciousTime >= 1 && p.maxUnprovenTailBlocks >= 1
    ensures |ds| <= 2 * p.hysteresisWait + 6 && Unproven(p, ds)
    ensures Last(p, ds).machine.state == Recovering && Last(p, ds).machine.safeBlocks == p.hysteresisWait
    ensures ProofFlag(Last(p, ds), p)
  {
    ds := UnprovenAscent(p, p.hysteresisWait + 1);
    if !ProofFlag(Last(p, ds), p) {
      var cs := ds;
      CeilingStep(Last(p, cs), p, |cs| + 1);
      ds := UnprovenGrows(p, cs);
    }
  }

  /** Accepted proofs cover all but the allowed tail of the interval that block `i` ends. */
  ghost predicate Covered(net: Network, ds: seq<Decision>, i: nat)
    requires i < |ds|
  {
    i > 0 && CoveredUpTo(IntervalAt(net, ds, i), Height(net, i) - 1, StoreAt(net, ds, i).lastAnchoredRoot,
                         net.params.maxUnprovenTailBlocks)
  }

  /** A re-anchoring with no proof at all. */
  lemma UnprovenReturn(p: Params) returns (ds: seq<Decision>)
    requires Ordinary(p) && p.maxSuspiciousTime >= 1 && p.maxUnprovenTailBlocks >= 1
    ensures ds != [] && ReturnsHome(p, Solo(p), ds, |ds| - 1) && !Covered(Solo(p), ds, |ds| - 1)
    ensures IntervalAt(Solo(p), ds, |ds| - 1).Open? && IntervalAt(Solo(p), ds, |ds| - 1).log == []
  {
    var cs := ClaimedCeiling(p);
    ds := StepHome(p, cs);
    assert ds == cs + [ds[|cs|]];
    IntervalPrefix(Solo(p), cs, ds, |cs|);
  }

  lemma HomeIsUncritical(net: Network, ds: seq<Decision>, i: nat)
    requires Legal(net, ds) && i < |ds| && Reanchors(net, ds, i)
    ensures net.params.maxSuspiciousTime >= 1
  {
    var v := ChooseBacker(net, ds, i);
    assert !IsCritical(OwnInput(net, ds, i, v).metrics, net.params, StoreAt(net, ds, i).machine.suspiciousDuration);
  }

  /** The first re-anchoring needs a SUSPICIOUS block and an unproven tail in the parameters. */
  lemma FirstHomeNeeds(net: Network, ds: seq<Decision>, i: nat)
    requires Legal(net, ds) && Height(net, |ds|) <= SIZE && i < |ds| && Reanchors(net, ds, i)
    requires forall j :: 0 <= j < i ==> !Reanchors(net, ds, j)
    ensures net.params.maxUnprovenTailBlocks >= 1 && net.params.maxSuspiciousTime >= 1
  {
    HomeIsUncritical(net, ds, i);
    HeuristicNeedsHistory(net, ds, i);
    DecidedFollows(net, ds, i);
    RealProofExactly(net, ds, i);
  }

  lemma {:induction false} HomeNeeds(net: Network, ds: seq<Decision>, i: nat)
    requires Legal(net, ds) && Height(net, |ds|) <= SIZE && i < |ds| && Reanchors(net, ds, i)
    ensures net.params.maxUnprovenTailBlocks >= 1 && net.params.maxSuspiciousTime >= 1
  {
    if j: nat :| j < i && Reanchors(net, ds, j) {
      HomeNeeds(net, ds, j);
    } else {
      FirstHomeNeeds(net, ds, i);
    }
  }

  /** Some run re-anchors exactly when the parameters leave a SUSPICIOUS block and an unproven tail. */
  lemma ReanchoringPossibleWhen(p: Params)
    requires Ordinary(p)
    ensures (exists net, ds, i :: ReturnsHome(p, net, ds, i))
       <==> p.maxUnprovenTailBlocks >= 1 && p.maxSuspiciousTime >= 1
  {
    if p.maxUnprovenTailBlocks >= 1 && p.maxSuspiciousTime >= 1 {
      var ds := ProvenReturn(p);
    } else {
      forall net, ds, i ensures !ReturnsHome(p, net, ds, i) {
        if ReturnsHome(p, net, ds, i) {
          HomeNeeds(net, ds, i);
        }
      }
    }
  }

  /** The documented claim that returning to ANCHORED takes a valid proof holds of every re-anchoring of
      every run exactly under the parameters where no run re-anchors at all. */
  lemma CoverageExactWhen(p: Params)
    requires Ordinary(p)
    ensures (forall net, ds, i :: ReturnsHome(p, net, ds, i) ==> Covered(net, ds, i))
       <==> p.maxUnprovenTailBlocks == 0 || p.maxSuspiciousTime == 0
  {
    if p.maxUnprovenTailBlocks == 0 || p.maxSuspiciousTime == 0 {
      forall net, ds, i ensures !ReturnsHome(p, net, ds, i) {
        if ReturnsHome(p, net, ds, i) {
          HomeNeeds(net, ds, i);
        }
      }
    } else {
      var ds := UnprovenReturn(p);
    }
  }
}
