/** Building and validating proposals from a validator's own sensor readings. */
module Proposals {
  import opened Fsm
  import opened Receipts
  import opened KeeperStore

  /** The Bitcoin sensor: a fixed gap without a live source, or one poll of bitcoind. */
  datatype BtcSource = FixedGap(gap: nat) | Unreachable | HeightError | ChainTip(height: nat)

  /** The DA sensor: fixed flags without a live source, or one look at the publisher. */
  datatype DaSource =
    | FixedDa(available: bool, dasFailed: bool, attestationFailed: bool)
    | LiveDa(failed: bool, probeHealthy: bool, verified: Option<nat>)

  datatype P2PSnapshot = P2PSnapshot(
    subnetDiversity: nat, activeAnchors: nat, cleanPeers: nat, churnRate: nat, avgTenure: nat, latency: nat)

  /** One validator's view while it handles one proposal. `anchorHolds` is the outcome of
      re-verifying the committed anchor, `claimHolds` that of verifying the proposal's anchor. */
  datatype Readings = Readings(
    btc: BtcSource,
    da: DaSource,
    p2p: P2PSnapshot,
    anchorWired: bool,
    anchorHolds: bool,
    claimHolds: bool,
    confirmedAnchor: Option<nat>,
    publishedHeight: Option<nat>)

  function Gap(current: nat, reached: nat): nat {
    if current <= reached then 0 else current - reached
  }

  /** btc_gap, the SPV failure flag, and the Bitcoin height the branch store then holds. */
  function BtcGapMetric(st: Store, rd: Readings, p: Params): (nat, bool, nat) {
    match rd.btc
    case FixedGap(gap) => (gap, false, st.hBtcCurrent)
    case Unreachable => (p.sovereignThreshold, false, st.hBtcCurrent)
    case HeightError => (p.sovereignThreshold, false, st.hBtcCurrent)
    case ChainTip(h) =>
      (Gap(h, st.hBtcAnchored), rd.anchorWired && st.hBtcAnchored > 0 && !rd.anchorHolds, h)
  }

  /** da_gap, the two failure flags, and the Engram height the branch store then holds. */
  function DaGapMetric(st: Store, rd: Readings, height: nat, p: Params): (nat, bool, bool, nat) {
    match rd.da
    case FixedDa(available, das, att) =>
      (if available && !das && !att then 0 else p.daThreshold, das, att, st.hEngramCurrent)
    case LiveDa(failed, probe, verified) =>
      var down := failed || !probe;
      (Gap(height, if verified.Some? then verified.value else 0), down, down, height)
  }

  function Sensed(st: Store, rd: Readings, height: nat, p: Params): Metrics {
    var (btcGap, spvFailed, _) := BtcGapMetric(st, rd, p);
    var (daGap, das, att, _) := DaGapMetric(st, rd, height, p);
    Metrics(btcGap, spvFailed, daGap, das, att,
            rd.p2p.subnetDiversity, rd.p2p.activeAnchors, rd.p2p.cleanPeers,
            rd.p2p.churnRate, rd.p2p.avgTenure, rd.p2p.latency)
  }

  /** The discarded copy of the store a proposal handler works on. */
  ghost function Refresh(st: Store, rd: Readings, height: nat, p: Params): Store {
    st.(
      hBtcCurrent := BtcGapMetric(st, rd, p).2,
      hEngramCurrent := DaGapMetric(st, rd, height, p).3,
      reanchoringProofValid := ProofFlag(st, p),
      metrics := Sensed(st, rd, height, p))
  }

  /** What the handler feeds the breaker on the refreshed copy. */
  function FsmInput(st: Store): Input {
    Input(st.metrics, st.reanchoringProofValid)
  }

  /** The local machine's block on a store: only the FSM state and counters move. */
  function BeginBlock(st: Store, p: Params): Store {
    st.(machine := Step(st.machine, FsmInput(st), p))
  }

  /** The state a validator expects next, from its own readings. */
  ghost function Expected(st: Store, rd: Readings, height: nat, p: Params): State {
    CalculateNextState(st.machine, FsmInput(Refresh(st, rd, height, p)), p)
  }

  /** The Bitcoin height an honest proposer claims: its own confirmed anchor when newer and
      not above the tip it sees. */
  function ClaimedAnchor(branch: Store, rd: Readings): nat {
    if rd.anchorWired && rd.confirmedAnchor.Some?
       && branch.hBtcAnchored < rd.confirmedAnchor.value <= branch.hBtcCurrent
    then rd.confirmedAnchor.value else branch.hBtcAnchored
  }

  function ClaimedPublication(branch: Store, rd: Readings): nat {
    if rd.publishedHeight.Some? && rd.publishedHeight.value > branch.hEngramVerified
    then rd.publishedHeight.value else branch.hEngramVerified
  }

  /** The transactions left after withdrawals are dropped. */
  function WithoutWithdrawals(txs: seq<Tx>): (kept: seq<Tx>)
    ensures forall tx :: tx in kept <==> tx in txs && !ContainsWithdrawal(tx)
  {
    if txs == [] then []
    else
      var rest := WithoutWithdrawals(txs[..|txs| - 1]);
      if ContainsWithdrawal(txs[|txs| - 1]) then rest else rest + [txs[|txs| - 1]]
  }

  function Selected(target: State, mempool: seq<Tx>): seq<Tx> {
    if WithdrawLocked(target) then WithoutWithdrawals(mempool) else mempool
  }

  function ProposalOn(branch: Store, rd: Readings, p: Params): ExtendedProposal {
    var target := CalculateNextState(branch.machine, FsmInput(branch), p);
    var published, anchor := ClaimedPublication(branch, rd), ClaimedAnchor(branch, rd);
    var atCeiling := target == Recovering && branch.machine.safeBlocks == p.hysteresisWait;
    ExtendedProposal(
      target,
      IsHealthy(branch.metrics, p),
      DaReceipt(published, published > 0),
      BtcReceipt(anchor, ExpectedBlockHash(anchor)),
      if atCeiling && published > 0 && published > branch.hEngramVerified && branch.lastAnchoredRoot.Some?
      then branch.lastAnchoredRoot.value else [])
  }

  /** The block an honest proposer builds from its mempool. */
  ghost function Prepare(st: Store, rd: Readings, height: nat, mempool: seq<Tx>, p: Params): seq<Tx> {
    var ext := ProposalOn(Refresh(st, rd, height, p), rd, p);
    [Extended(ext)] + Selected(ext.fsmState, mempool)
  }

  predicate Overdue(st: Store, tx: Tx, p: Params) {
    tx in st.forcedTxQueue && IgnoredRounds(st, tx) >= p.maxIgnoreRounds
  }

  /** Some forced transaction has been ignored too long and is missing again. */
  predicate Censors(st: Store, txs: seq<Tx>, p: Params) {
    exists tx :: tx in st.forcedTxQueue && Overdue(st, tx, p) && tx !in txs
  }

  predicate ReceiptsHold(branch: Store, ext: ExtendedProposal, round: nat, p: Params) {
    && VerifyDaReceipt(ext.daReceipt, ext.fsmState, IsDAHealthy(branch.metrics, p),
                       branch.hEngramCurrent, p.daThreshold, round)
    && VerifyBtcReceipt(ext.btcReceipt, ext.fsmState, IsBTCHealthy(branch.metrics, p),
                        branch.hBtcCurrent, branch.hBtcAnchored, round, p.kDeepFinality)
  }

  predicate AnchorClaimHolds(branch: Store, ext: ExtendedProposal, rd: Readings) {
    rd.anchorWired && ext.btcReceipt.checkpointBlockHeight > branch.hBtcAnchored ==> rd.claimHolds
  }

  predicate WithdrawalsBarred(ext: ExtendedProposal, txs: seq<Tx>) {
    WithdrawLocked(ext.fsmState) ==> forall tx :: tx in txs ==> !ContainsWithdrawal(tx)
  }

  predicate VerifyZkProofFlag(zkProofRef: Bytes, receipt: DaReceipt, hEngramVerified: nat) {
    |zkProofRef| > 0 && receipt.attestation && receipt.publishedBlockHeight > hEngramVerified
  }

  predicate ProofReferenceHolds(branch: Store, ext: ExtendedProposal, p: Params) {
    if ext.fsmState == Recovering && branch.machine.safeBlocks == p.hysteresisWait
    then VerifyZkProofFlag(ext.zkProofRef, ext.daReceipt, branch.hEngramVerified)
    else |ext.zkProofRef| == 0
  }

  /** Validation on the refreshed copy. */
  predicate AcceptsOn(branch: Store, rd: Readings, round: nat, ext: ExtendedProposal, txs: seq<Tx>, p: Params) {
    && !(round < p.maxCensorshipRounds && Censors(branch, txs, p))
    && ext.fsmState == CalculateNextState(branch.machine, FsmInput(branch), p)
    && ext.healthy == IsHealthy(branch.metrics, p)
    && ReceiptsHold(branch, ext, round, p)
    && AnchorClaimHolds(branch, ext, rd)
    && WithdrawalsBarred(ext, txs)
    && ProofReferenceHolds(branch, ext, p)
  }

  /** A validator's verdict on a proposed block. */
  ghost predicate Accepts(st: Store, rd: Readings, round: nat, height: nat, txs: seq<Tx>, p: Params) {
    && txs != []
    && txs[0].Extended?
    && AcceptsOn(Refresh(st, rd, height, p), rd, round, txs[0].ext, txs[1..], p)
  }

  /** Heights and limits at which the signed height arithmetic gives both windows exactly. */
  predicate InReach(branch: Store, round: nat, p: Params) {
    && Legible(DaMark(branch.hEngramCurrent, p.daThreshold, round))
    && Legible(BtcMark(branch.hBtcCurrent, p.kDeepFinality, round))
  }

  /** While withdrawals are locked the store holds a non-empty root to re-anchor from. */
  predicate Rooted(st: Store) {
    WithdrawLocked(st.machine.state) ==> st.lastAnchoredRoot.Some? && |st.lastAnchoredRoot.value| > 0
  }

  lemma ReceiptsWiden(branch: Store, ext: ExtendedProposal, round: nat, later: nat, p: Params)
    requires round <= later && InReach(branch, round, p) && InReach(branch, later, p)
    requires ReceiptsHold(branch, ext, round, p)
    ensures ReceiptsHold(branch, ext, later, p)
  {
    var da, btc := IsDAHealthy(branch.metrics, p), IsBTCHealthy(branch.metrics, p);
    var engram, tip, anchored := branch.hEngramCurrent, branch.hBtcCurrent, branch.hBtcAnchored;
    DaWindow(ext.daReceipt, ext.fsmState, da, engram, p.daThreshold, round);
    DaWindow(ext.daReceipt, ext.fsmState, da, engram, p.daThreshold, later);
    BtcWindow(ext.btcReceipt, ext.fsmState, btc, tip, anchored, round, p.kDeepFinality);
    BtcWindow(ext.btcReceipt, ext.fsmState, btc, tip, anchored, later, p.kDeepFinality);
  }

  /** With store, readings and proposal fixed, acceptance at one round is acceptance at every
      later round. */
  lemma AcceptanceMonotone(st: Store, rd: Readings, round: nat, later: nat, height: nat, txs: seq<Tx>, p: Params)
    requires round <= later
    requires InReach(Refresh(st, rd, height, p), round, p) && InReach(Refresh(st, rd, height, p), later, p)
    requires Accepts(st, rd, round, height, txs, p)
    ensures Accepts(st, rd, later, height, txs, p)
  {
    ReceiptsWiden(Refresh(st, rd, height, p), txs[0].ext, round, later, p);
  }

  /** While the next state is locked, an overdue queued withdrawal makes every proposal
      unacceptable at each round below MaxCensorshipRounds. */
  lemma OverdueWithdrawalBlocks(st: Store, rd: Readings, round: nat, height: nat, txs: seq<Tx>, p: Params, tx: Tx)
    requires WithdrawLocked(Expected(st, rd, height, p))
    requires Overdue(st, tx, p) && ContainsWithdrawal(tx)
    requires round < p.maxCensorshipRounds
    ensures !Accepts(st, rd, round, height, txs, p)
  {
    assert Overdue(Refresh(st, rd, height, p), tx, p);
  }

  /** A validator's verdict does not depend on the sensor snapshot or the proof flag left in the
      committed store: both come from its own refresh. */
  lemma VerdictIgnoresStoredSensors(st: Store, rd: Readings, round: nat, height: nat, txs: seq<Tx>, p: Params,
                                    metrics: Metrics, flag: bool)
    ensures Accepts(st, rd, round, height, txs, p)
       <==> Accepts(st.(metrics := metrics, reanchoringProofValid := flag), rd, round, height, txs, p)
  {
    var other := st.(metrics := metrics, reanchoringProofValid := flag);
    assert other.headerHistory == st.headerHistory;
    assert Tip(other) == Tip(st);
    assert Refresh(other, rd, height, p) == Refresh(st, rd, height, p);
  }

  /** The proof flag does not depend on the Bitcoin height a refresh stores. */
  lemma FlagIgnoresHeight(st: Store, height: nat, p: Params)
    ensures ProofFlag(st.(hBtcCurrent := height), p) == ProofFlag(st, p)
  {
    assert st.(hBtcCurrent := height).headerHistory == st.headerHistory;
    assert Tip(st.(hBtcCurrent := height)) == Tip(st);
  }

  lemma FlagIgnoresQueue(st: Store, queue: set<Tx>, counts: map<Tx, nat>, p: Params)
    ensures ProofFlag(st.(forcedTxQueue := queue, txIgnoredRounds := counts), p) == ProofFlag(st, p)
  {
    var other := st.(forcedTxQueue := queue, txIgnoredRounds := counts);
    assert other.headerHistory == st.headerHistory;
    assert Tip(other) == Tip(st);
  }

  /** From MaxCensorshipRounds on, the forced queue has no say: the verdict is the one on the
      same store with any other queue and counters. */
  lemma QueueWaived(st: Store, rd: Readings, round: nat, height: nat, txs: seq<Tx>, p: Params,
                    queue: set<Tx>, counts: map<Tx, nat>)
    requires round >= p.maxCensorshipRounds
    ensures Accepts(st, rd, round, height, txs, p)
       <==> Accepts(st.(forcedTxQueue := queue, txIgnoredRounds := counts), rd, round, height, txs, p)
  {
    FlagIgnoresQueue(st, queue, counts, p);
    var other := st.(forcedTxQueue := queue, txIgnoredRounds := counts);
    assert Refresh(other, rd, height, p)
        == Refresh(st, rd, height, p).(forcedTxQueue := queue, txIgnoredRounds := counts);
  }

  /** An accepted proposal commits exactly the machine that the local step computes on the
      acceptor's own refreshed copy. */
  lemma CommitIsLocalStep(st: Store, rd: Readings, round: nat, txs: seq<Tx>, ctx: BlockContext, p: Params)
    requires Accepts(st, rd, round, ctx.height, txs, p)
    ensures PreBlock(st, txs, ctx, p).machine == BeginBlock(Refresh(st, rd, ctx.height, p), p).machine
    ensures PreBlock(st, txs, ctx, p).machine
         == Step(st.machine, Input(Sensed(st, rd, ctx.height, p), ProofFlag(st, p)), p)
  {
    PreBlockMachine(st, txs, ctx, p);
    var b, ext := Refresh(st, rd, ctx.height, p), txs[0].ext;
    assert ext.fsmState == CalculateNextState(b.machine, FsmInput(b), p);
    assert ext.healthy == IsHealthy(b.metrics, p);
  }
}
