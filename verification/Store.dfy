/** The replicated keeper store as a value, and the proposals that change it. */
module KeeperStore {
  import opened Uint64
  import opened Fsm
  import opened Receipts

  newtype byte = x: int | 0 <= x < 256

  type Bytes = seq<byte>

  datatype Option<+T> = None | Some(value: T)

  datatype ExtendedProposal = ExtendedProposal(
    fsmState: State,
    healthy: bool,
    daReceipt: DaReceipt,
    btcReceipt: BtcReceipt,
    zkProofRef: Bytes)

  /** A block's pseudo-transaction decodes to the proposal it was encoded from; `Garbled`
      carries the marker but no readable proposal, and `Plain` is any other transaction. */
  datatype Tx = Extended(ext: ExtendedProposal) | Garbled(text: string) | Plain(text: string)

  const WITHDRAWAL: string := "TX_WITHDRAWAL"

  predicate Contains(text: string, word: string) {
    exists i :: 0 <= i <= |text| && word <= text[i..]
  }

  predicate ContainsWithdrawal(tx: Tx) {
    match tx
    case Extended(e) =>
      || (e.fsmState.Unknown? && Contains(e.fsmState.text, WITHDRAWAL))
      || Contains(e.btcReceipt.checkpointBlockHash.tag, WITHDRAWAL)
    case Garbled(text) => Contains(text, WITHDRAWAL)
    case Plain(text) => Contains(text, WITHDRAWAL)
  }

  /** One block's entry in the re-anchoring witness. */
  datatype Header = Header(fsmState: State, withdrawalLocked: bool, stateRoot: Bytes)

  datatype Store = Store(
    machine: Machine,
    reanchoringProofValid: bool,
    metrics: Metrics,
    hBtcCurrent: nat,
    hBtcAnchored: nat,
    hBtcSubmitted: nat,
    hEngramCurrent: nat,
    hEngramVerified: nat,
    forcedTxQueue: set<Tx>,
    txIgnoredRounds: map<Tx, nat>,
    headerHistory: map<nat, Header>,
    lastAnchoredRoot: Option<Bytes>,
    realProofSubmittedHeight: nat)

  const NoMetrics: Metrics := Metrics(0, false, 0, false, false, 0, 0, 0, 0, 0, 0)

  /** The store of a default genesis. */
  const Empty: Store := Store(Genesis, false, NoMetrics, 0, 0, 0, 0, 0, {}, map[], map[], None, 0)

  function IgnoredRounds(st: Store, tx: Tx): nat {
    if tx in st.txIgnoredRounds then st.txIgnoredRounds[tx] else 0
  }

  /** `m` is the greatest element of a set of heights. */
  predicate IsMax(hs: set<nat>, m: nat) {
    m in hs && forall h :: h in hs ==> h <= m
  }

  predicate IsMin(hs: set<nat>, m: nat) {
    m in hs && forall h :: h in hs ==> m <= h
  }

  lemma {:induction false} MaxExists(hs: set<nat>) returns (m: nat)
    requires hs != {}
    ensures IsMax(hs, m)
  {
    m :| m in hs;
    if hs != {m} {
      var first, others := m, hs - {m};
      var rest := MaxExists(others);
      m := Max(first, rest);
      assert forall h :: h in hs ==> h == first || h in others;
    }
  }

  lemma {:induction false} MinExists(hs: set<nat>) returns (m: nat)
    requires hs != {}
    ensures IsMin(hs, m)
  {
    m :| m in hs;
    if hs != {m} {
      var first, others := m, hs - {m};
      var rest := MinExists(others);
      m := Min(first, rest);
      assert forall h :: h in hs ==> h == first || h in others;
    }
  }

  /** The highest tracked header, if any. */
  ghost function Tip(st: Store): (t: Option<nat>)
    ensures t.None? <==> st.headerHistory.Keys == {}
    ensures t.Some? ==> IsMax(st.headerHistory.Keys, t.value)
  {
    if st.headerHistory.Keys == {} then None
    else
      assert exists m :: IsMax(st.headerHistory.Keys, m) by {
        var m := MaxExists(st.headerHistory.Keys);
      }
      var m :| IsMax(st.headerHistory.Keys, m);
      Some(m)
  }

  predicate HeuristicValid(st: Store) {
    st.hBtcAnchored >= st.hBtcSubmitted && st.hBtcSubmitted > 0
  }

  /** The unsigned distance from the latest accepted proof to the tip, as the source computes it. */
  function TailLength(tip: nat, proof: nat): nat {
    (tip - proof) % SIZE
  }

  ghost predicate RealProofValid(st: Store, p: Params) {
    && st.realProofSubmittedHeight > 0
    && Tip(st).Some?
    && TailLength(Tip(st).value, st.realProofSubmittedHeight) <= p.maxUnprovenTailBlocks
  }

  /** The proof flag every validator derives from the committed store alone. */
  ghost predicate ProofFlag(st: Store, p: Params) {
    st.machine.state == Recovering && (HeuristicValid(st) || RealProofValid(st, p))
  }

  /** What the block header supplies: the height and the incoming app hash as a field element. */
  datatype BlockContext = BlockContext(height: nat, root: Bytes)

  /** A claimed proof is recorded as submitted at the stored Bitcoin height. */
  function MarkSubmitted(st: Store, ext: ExtendedProposal): Store {
    if ext.fsmState == Recovering && |ext.zkProofRef| > 0
    then st.(hBtcSubmitted := st.hBtcCurrent, reanchoringProofValid := false)
    else st
  }

  /** A successful recovery brings the stored sensors into line with the receipts. */
  function Resync(st: Store, current: State, ext: ExtendedProposal): Store {
    if current == Recovering && ext.fsmState == Anchored
    then st.(
      hBtcCurrent := ext.btcReceipt.checkpointBlockHeight,
      hEngramCurrent := ext.daReceipt.publishedBlockHeight,
      metrics := st.metrics.(isDasFailed := false, isAttestationFailed := false))
    else st
  }

  /** Receipts, the submission mark and the resynchronised sensors, on leaving `current`. */
  function CommitHeights(st: Store, current: State, ext: ExtendedProposal): Store {
    var received := st.(
      hBtcAnchored := ext.btcReceipt.checkpointBlockHeight,
      hEngramVerified := ext.daReceipt.publishedBlockHeight);
    Resync(MarkSubmitted(received, ext), current, ext)
  }

  /** The re-anchoring ledger, on leaving `current`. */
  function CommitLedger(st: Store, current: State, target: State, ctx: BlockContext): Store {
    st.(
      realProofSubmittedHeight :=
        if current == Recovering && target != Recovering then 0 else st.realProofSubmittedHeight,
      lastAnchoredRoot :=
        if WithdrawLocked(target) && !WithdrawLocked(current) then Some(ctx.root) else st.lastAnchoredRoot,
      headerHistory :=
        if WithdrawLocked(target) then st.headerHistory[ctx.height := Header(target, true, ctx.root)]
        else if WithdrawLocked(current) then map[]
        else st.headerHistory)
  }

  /** Everything a decided proposal writes, taken on trust from the proposal. */
  function Commit(st: Store, ext: ExtendedProposal, ctx: BlockContext, p: Params): Store {
    var current := st.machine.state;
    var entered := st.(machine := Enter(st.machine, ext.fsmState, ext.healthy, p));
    CommitLedger(CommitHeights(entered, current, ext), current, ext.fsmState, ctx)
  }

  /** Forced-inclusion bookkeeping of one finalized block. */
  function TrackForced(st: Store, txs: seq<Tx>, maxIgnoreRounds: nat): Store {
    if st.forcedTxQueue == {} then st
    else st.(forcedTxQueue := StillQueued(st, txs), txIgnoredRounds := Recounted(st, txs, maxIgnoreRounds))
  }

  /** A forced transaction leaves the queue once a block holds it. */
  function StillQueued(st: Store, txs: seq<Tx>): set<Tx> {
    set tx | tx in st.forcedTxQueue && tx !in txs
  }

  /** Every transaction left in the queue counts one more omission. */
  function Recounted(st: Store, txs: seq<Tx>, maxIgnoreRounds: nat): map<Tx, nat> {
    map tx | tx in st.txIgnoredRounds.Keys + st.forcedTxQueue && !(tx in st.forcedTxQueue && tx in txs)
      :: if tx in st.forcedTxQueue then NextIgnored(IgnoredRounds(st, tx), maxIgnoreRounds)
         else st.txIgnoredRounds[tx]
  }

  function NextIgnored(count: nat, maxIgnoreRounds: nat): nat {
    if Inc(count) > Inc(maxIgnoreRounds) then Inc(maxIgnoreRounds) else Inc(count)
  }

  /** What a finalized block does to the committed store before its transactions run. */
  function PreBlock(st: Store, txs: seq<Tx>, ctx: BlockContext, p: Params): Store {
    var tracked := TrackForced(st, txs, p.maxIgnoreRounds);
    if txs != [] && txs[0].Extended? then Commit(tracked, txs[0].ext, ctx, p) else tracked
  }

  lemma PreBlockMachine(st: Store, txs: seq<Tx>, ctx: BlockContext, p: Params)
    requires txs != [] && txs[0].Extended?
    ensures PreBlock(st, txs, ctx, p).machine == Enter(st.machine, txs[0].ext.fsmState, txs[0].ext.healthy, p)
  {
    var tracked := TrackForced(st, txs, p.maxIgnoreRounds);
    assert tracked.machine == st.machine;
    assert Commit(tracked, txs[0].ext, ctx, p).machine == Enter(st.machine, txs[0].ext.fsmState, txs[0].ext.healthy, p);
  }

  /** The tracked heights whose header carries a state root. */
  ghost function Matching(st: Store, root: Bytes): set<nat> {
    set h | h in st.headerHistory && st.headerHistory[h].stateRoot == root
  }

  const PUBLIC_INPUTS: nat := 96

  /** Messages a block's transactions deliver; `proved` is the verdict of the proof checker and
      `decodes` that of the transaction decoder. */
  datatype Msg =
    | SubmitRecoveryProof(publicInputs: Bytes, proved: bool)
    | SubmitForcedTx(tx: Tx, decodes: bool)
    | InjectFault(inputs: Option<Metrics>)

  ghost predicate ProofAccepted(st: Store, publicInputs: Bytes, proved: bool) {
    && proved
    && |publicInputs| == PUBLIC_INPUTS
    && st.lastAnchoredRoot == Some(publicInputs[0..32])
    && Matching(st, publicInputs[32..64]) != {}
  }

  /** The height an accepted proof moves the checkpoint to. */
  ghost function CheckpointHeight(st: Store, root: Bytes): (h: nat)
    requires Matching(st, root) != {}
    ensures IsMin(Matching(st, root), h)
  {
    assert exists h :: IsMin(Matching(st, root), h) by {
      var h := MinExists(Matching(st, root));
    }
    var h :| IsMin(Matching(st, root), h);
    h
  }

  function PrunedUpTo(headers: map<nat, Header>, height: nat): map<nat, Header> {
    map h | h in headers && h > height :: headers[h]
  }

  ghost function AfterProof(st: Store, publicInputs: Bytes, proved: bool): Store {
    if !ProofAccepted(st, publicInputs, proved) then st
    else
      var h := CheckpointHeight(st, publicInputs[32..64]);
      st.(
        lastAnchoredRoot := Some(publicInputs[32..64]),
        headerHistory := PrunedUpTo(st.headerHistory, h),
        realProofSubmittedHeight := h)
  }

  ghost function Deliver(st: Store, msg: Msg): Store {
    match msg
    case SubmitRecoveryProof(inputs, proved) => AfterProof(st, inputs, proved)
    case SubmitForcedTx(tx, decodes) => if decodes then st.(forcedTxQueue := st.forcedTxQueue + {tx}) else st
    case InjectFault(inputs) => if inputs.Some? then st.(metrics := inputs.value) else st
  }

  ghost function DeliverAll(st: Store, msgs: seq<Msg>): Store {
    if msgs == [] then st else Deliver(DeliverAll(st, msgs[..|msgs| - 1]), msgs[|msgs| - 1])
  }
}
