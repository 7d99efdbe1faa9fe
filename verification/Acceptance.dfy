/** What an accepted block means, whoever proposed it; what an honest proposer puts into one; and what a
    decided block leaves in the store. */
module Acceptance {
  import opened Uint64
  import opened Fsm
  import opened Receipts
  import opened KeeperStore
  import opened Proposals
  import opened ReadingLaws
  import opened SensorBundle
  import opened Chain
  import opened Ledger

  /** The Bitcoin tip a validator goes by: the one it saw, or the stored one. */
  function TipSeen(st: Store, rd: Readings): nat {
    if rd.btc.ChainTip? then rd.btc.height else st.hBtcCurrent
  }

  /** The Engram height a validator goes by: the chain's with a live DA source, or the stored one. */
  function HeightSeen(st: Store, rd: Readings, height: nat): nat {
    if rd.da.LiveDa? then height else st.hEngramCurrent
  }

  /** Limits at which the signed arithmetic gives both receipt windows exactly. */
  predicate Reaches(st: Store, rd: Readings, round: nat, height: nat, p: Params) {
    && Legible(DaMark(HeightSeen(st, rd, height), p.daThreshold, round))
    && Legible(BtcMark(TipSeen(st, rd), p.kDeepFinality, round))
  }

  lemma ReachesIsInReach(st: Store, rd: Readings, round: nat, height: nat, p: Params)
    ensures Reaches(st, rd, round, height, p) <==> InReach(Refresh(st, rd, height, p), round, p)
    ensures Refresh(st, rd, height, p).hBtcCurrent == TipSeen(st, rd)
    ensures Refresh(st, rd, height, p).hEngramCurrent == HeightSeen(st, rd, height)
  {
    SensedBitcoin(st, rd, height, p);
    SensedDa(st, rd, height, p);
  }

  /** RECOVERING at its ceiling. */
  predicate AtCeiling(st: Store, target: State, p: Params) {
    target == Recovering && st.machine.safeBlocks == p.hysteresisWait
  }

  /** Everything acceptance checks, on the store and the readings: no overdue forced transaction is left
      out while that is checked; state and health are the validator's own; claimed receipts are fresh where
      the state or the sensor demands it; a new anchor verifies; nothing is withdrawn while locked; and a
      proof is referred to exactly at the ceiling, and then with DA progress. */
  lemma AcceptedExactly(st: Store, rd: Readings, round: nat, height: nat, ext: ExtendedProposal, inner: seq<Tx>,
                        p: Params)
    requires Reaches(st, rd, round, height, p)
    ensures
      var m, s := Sensed(st, rd, height, p), ext.fsmState;
      Accepts(st, rd, round, height, [Extended(ext)] + inner, p)
      <==>
      && (round < p.maxCensorshipRounds ==>
            forall tx :: tx in st.forcedTxQueue && IgnoredRounds(st, tx) >= p.maxIgnoreRounds ==> tx in inner)
      && s == Expected(st, rd, height, p)
      && ext.healthy == IsHealthy(m, p)
      && (s == Anchored || s == Recovering || IsDAHealthy(m, p) ==>
            DaFresh(ext.daReceipt, HeightSeen(st, rd, height), p.daThreshold, round))
      && (s == Anchored || s == Recovering || IsBTCHealthy(m, p) ==>
            BtcFresh(ext.btcReceipt, TipSeen(st, rd), st.hBtcAnchored, round, p.kDeepFinality))
      && (rd.anchorWired && ext.btcReceipt.checkpointBlockHeight > st.hBtcAnchored ==> rd.claimHolds)
      && (s == Sovereign || s == Recovering ==> forall tx :: tx in inner ==> !ContainsWithdrawal(tx))
      && (if AtCeiling(st, s, p)
          then ext.zkProofRef != [] && ext.daReceipt.attestation
               && ext.daReceipt.publishedBlockHeight > st.hEngramVerified
          else ext.zkProofRef == [])
  {
    ReachesIsInReach(st, rd, round, height, p);
    var b := Refresh(st, rd, height, p);
    assert ([Extended(ext)] + inner)[1..] == inner;
    DaWindow(ext.daReceipt, ext.fsmState, IsDAHealthy(b.metrics, p), b.hEngramCurrent, p.daThreshold, round);
    BtcWindow(ext.btcReceipt, ext.fsmState, IsBTCHealthy(b.metrics, p), b.hBtcCurrent, b.hBtcAnchored,
              round, p.kDeepFinality);
    assert Censors(b, inner, p)
      <==> exists tx :: tx in st.forcedTxQueue && IgnoredRounds(st, tx) >= p.maxIgnoreRounds && tx !in inner by {
      assert forall tx :: Overdue(b, tx, p) <==> tx in st.forcedTxQueue && IgnoredRounds(st, tx) >= p.maxIgnoreRounds;
    }
  }

  /** A proof reference in an accepted block, for all limits: it is there exactly at the ceiling, and then
      the block brings an attested publication above the committed one. */
  lemma ReferenceExactly(st: Store, rd: Readings, round: nat, height: nat, txs: seq<Tx>, p: Params)
    requires Accepts(st, rd, round, height, txs, p)
    ensures var ext := txs[0].ext;
            && (ext.zkProofRef != [] <==> AtCeiling(st, ext.fsmState, p))
            && (ext.zkProofRef != [] ==>
                  ext.daReceipt.attestation && ext.daReceipt.publishedBlockHeight > st.hEngramVerified)
  {
  }

  /** The anchor an honest proposer claims. */
  function OwnAnchor(st: Store, rd: Readings): nat {
    if rd.anchorWired && rd.confirmedAnchor.Some? && st.hBtcAnchored < rd.confirmedAnchor.value <= TipSeen(st, rd)
    then rd.confirmedAnchor.value else st.hBtcAnchored
  }

  /** The publication an honest proposer claims. */
  function OwnPublication(st: Store, rd: Readings): nat {
    Max(st.hEngramVerified, if rd.publishedHeight == None then 0 else rd.publishedHeight.value)
  }

  /** The block an honest proposer builds. It claims its own confirmed anchor exactly when its tracker is
      wired and that anchor is above the committed one and not above the tip; it claims the higher of the
      committed publication and its own; it refers to the stored root exactly at the ceiling with a
      publication of its own above the committed one; and it leaves out nothing but withdrawals while
      locked, in order. */
  lemma HonestBlockExactly(st: Store, rd: Readings, height: nat, mempool: seq<Tx>, p: Params)
    ensures
      var txs := Prepare(st, rd, height, mempool, p);
      && |txs| >= 1 && txs[0].Extended?
      && var ext := txs[0].ext;
         var anchor, published := ext.btcReceipt.checkpointBlockHeight, ext.daReceipt.publishedBlockHeight;
         && ext.fsmState == Expected(st, rd, height, p)
         && ext.healthy == IsHealthy(Sensed(st, rd, height, p), p)
         && (anchor != st.hBtcAnchored
             <==> && rd.anchorWired && rd.confirmedAnchor.Some?
                  && st.hBtcAnchored < rd.confirmedAnchor.value <= TipSeen(st, rd))
         && (anchor != st.hBtcAnchored ==> rd.confirmedAnchor == Some(anchor))
         && ext.btcReceipt.checkpointBlockHash == BlockHash("BTC_BLOCK", anchor)
         && published >= st.hEngramVerified
         && (published > st.hEngramVerified
             <==> rd.publishedHeight.Some? && rd.publishedHeight.value > st.hEngramVerified)
         && (published > st.hEngramVerified ==> rd.publishedHeight == Some(published))
         && (ext.daReceipt.attestation <==> published >= 1)
         && (AtCeiling(st, ext.fsmState, p) && published > st.hEngramVerified && st.lastAnchoredRoot.Some?
             ==> ext.zkProofRef == st.lastAnchoredRoot.value)
         && (!AtCeiling(st, ext.fsmState, p) || published == st.hEngramVerified || st.lastAnchoredRoot.None?
             ==> ext.zkProofRef == [])
         && (!WithdrawLocked(ext.fsmState) ==> txs[1..] == mempool)
         && (WithdrawLocked(ext.fsmState) ==> txs[1..] == WithoutWithdrawals(mempool))
  {
    ReachesIsInReach(st, rd, 0, height, p);
    var b := Refresh(st, rd, height, p);
    var ext := ProposalOn(b, rd, p);
    assert Prepare(st, rd, height, mempool, p)[1..] == Selected(ext.fsmState, mempool);
  }

  /** What a validator's own trackers put into the block it builds: the tracker's last confirmed height
      exactly when there is one above the committed anchor and not above the tip, and the publisher's
      verified height exactly when there is one above the committed publication. */
  lemma TrackersClaimed(st: Store, t: Trackers, a: Answers, height: nat, mempool: seq<Tx>, p: Params)
    ensures
      var txs := Prepare(st, Read(t, a), height, mempool, p);
      && txs != [] && txs[0].Extended?
      && var ext := txs[0].ext;
         var anchor, published := ext.btcReceipt.checkpointBlockHeight, ext.daReceipt.publishedBlockHeight;
         var tip := if a.btc.ChainTip? then a.btc.height else st.hBtcCurrent;
         && (if t.anchor.Some? && t.anchor.value.hasConfirmed
                && st.hBtcAnchored < t.anchor.value.lastConfirmedHeight <= tip
             then anchor == t.anchor.value.lastConfirmedHeight else anchor == st.hBtcAnchored)
         && (if t.publisher.Some? && t.publisher.value.hasVerified
             then published == Max(st.hEngramVerified, t.publisher.value.verifiedHeight)
             else published == st.hEngramVerified)
  {
    HonestBlockExactly(st, Read(t, a), height, mempool, p);
  }

  /** What a validator's own trackers put into its snapshot, and into its verdict on a new anchor. */
  lemma TrackersSensed(st: Store, t: Trackers, a: Answers, round: nat, height: nat, txs: seq<Tx>, p: Params)
    ensures
      var m := Sensed(st, Read(t, a), height, p);
      && (m.isBtcSpvFailed <==> a.btc.ChainTip? && t.anchor.Some? && st.hBtcAnchored >= 1 && !a.anchorHolds)
      && (a.btc.ChainTip? ==> m.btcGap + st.hBtcAnchored == Max(a.btc.height, st.hBtcAnchored))
      && (t.publisher.Some? ==>
            var s := t.publisher.value;
            var reached := if s.hasVerified then s.verifiedHeight else 0;
            && m.daGap + reached == Max(height, reached)
            && (m.isDasFailed <==> s.lastSubmitFailed || !a.probeHealthy)
            && (m.isAttestationFailed <==> s.lastSubmitFailed || !a.probeHealthy))
      && (t.publisher.None? ==>
            && m.isDasFailed == a.dasFailed && m.isAttestationFailed == a.attestationFailed
            && m.daGap == (if a.available && !a.dasFailed && !a.attestationFailed then 0 else p.daThreshold))
      && m.activeAnchors == a.p2p.activeAnchors && m.cleanPeers == a.p2p.cleanPeers
    ensures Accepts(st, Read(t, a), round, height, txs, p) && t.anchor.Some? ==>
              txs[0].ext.btcReceipt.checkpointBlockHeight <= st.hBtcAnchored || a.claimHolds
  {
    SensedBitcoin(st, Read(t, a), height, p);
    SensedDa(st, Read(t, a), height, p);
    SensedPeers(st, Read(t, a), height, p);
  }

  /** Dropping withdrawals keeps what is left in order and in number. */
  lemma {:induction false} FilterKeepsOrder(xs: seq<Tx>, ys: seq<Tx>)
    ensures WithoutWithdrawals(xs + ys) == WithoutWithdrawals(xs) + WithoutWithdrawals(ys)
    ensures |xs| == 1 ==> WithoutWithdrawals(xs) == if ContainsWithdrawal(xs[0]) then [] else xs
  {
    if |xs| == 1 {
      assert xs[..0] == [] && WithoutWithdrawals([]) == [];
    }
    if ys == [] {
      assert xs + ys == xs;
    } else {
      var last := |ys| - 1;
      FilterKeepsOrder(xs, ys[..last]);
      assert (xs + ys)[..|xs + ys| - 1] == xs + ys[..last];
    }
  }

  /** A transaction carries a withdrawal exactly when its text contains the marker. */
  lemma WithdrawalExactly(text: string)
    ensures ContainsWithdrawal(Plain(text)) <==> exists before, after :: text == before + "TX_WITHDRAWAL" + after
    ensures ContainsWithdrawal(Garbled(text)) <==> ContainsWithdrawal(Plain(text))
  {
    if Contains(text, WITHDRAWAL) {
      var i :| 0 <= i <= |text| && WITHDRAWAL <= text[i..];
      assert text == text[..i] + "TX_WITHDRAWAL" + text[i + |WITHDRAWAL|..];
    }
    forall before: string, after: string | text == before + "TX_WITHDRAWAL" + after
      ensures Contains(text, WITHDRAWAL)
    {
      var i := |before|;
      assert text[i..] == "TX_WITHDRAWAL" + after;
    }
  }

  lemma RecoveringComesFromLocked(m: Machine, x: Input, p: Params)
    ensures CalculateNextState(m, x, p) == Recovering ==> WithdrawLocked(m.state)
  {
  }

  /** Proposal and validation agree. On the same store, readings and round, a validator accepts
      an honestly built proposal if and only if: below MaxCensorshipRounds no overdue forced
      transaction is left out; where receipts are required, the proposer's own publication and anchor (or
      the committed ones) are fresh; a newly claimed anchor verifies; and RECOVERING is not at its ceiling
      without a publication above the committed one, or without a root to re-anchor from. No other check
      can reject it. */
  lemma HonestProposalAccepted(st: Store, rd: Readings, round: nat, height: nat, mempool: seq<Tx>, p: Params)
    requires Reaches(st, rd, round, height, p)
    ensures
      var m, target := Sensed(st, rd, height, p), Expected(st, rd, height, p);
      var published, anchor := OwnPublication(st, rd), OwnAnchor(st, rd);
      Accepts(st, rd, round, height, Prepare(st, rd, height, mempool, p), p)
      <==>
      && (round < p.maxCensorshipRounds ==>
            forall tx :: tx in st.forcedTxQueue && IgnoredRounds(st, tx) >= p.maxIgnoreRounds ==>
              tx in mempool && !(WithdrawLocked(target) && ContainsWithdrawal(tx)))
      && (target == Anchored || target == Recovering || IsDAHealthy(m, p) ==>
            DaFresh(DaReceipt(published, published >= 1), HeightSeen(st, rd, height), p.daThreshold, round))
      && (target == Anchored || target == Recovering || IsBTCHealthy(m, p) ==>
            anchor <= TipSeen(st, rd) <= anchor + p.kDeepFinality + 2 + round)
      && (anchor != st.hBtcAnchored ==> rd.claimHolds)
      && !(AtCeiling(st, target, p) && (published == st.hEngramVerified || !Rooted(st)))
  {
    HonestBlockExactly(st, rd, height, mempool, p);
    var txs := Prepare(st, rd, height, mempool, p);
    var ext, inner := txs[0].ext, txs[1..];
    assert txs == [Extended(ext)] + inner;
    AcceptedExactly(st, rd, round, height, ext, inner, p);
    RecoveringComesFromLocked(st.machine, FsmInput(Refresh(st, rd, height, p)), p);
    assert forall tx :: tx in inner <==> tx in mempool && !(WithdrawLocked(ext.fsmState) && ContainsWithdrawal(tx));
  }

  /** What a decided proposal leaves in the store besides the machine and the ledger: the claimed heights
      become the committed ones; only a return to ANCHORED moves the current heights and lowers the DA
      flags; only a proof reference records a submission and lowers the proof flag. */
  lemma CommitRecords(st: Store, txs: seq<Tx>, ctx: BlockContext, p: Params)
    requires txs != [] && txs[0].Extended?
    ensures
      var ext, next := txs[0].ext, PreBlock(st, txs, ctx, p);
      var home := st.machine.state == Recovering && ext.fsmState == Anchored;
      var claims := ext.fsmState == Recovering && ext.zkProofRef != [];
      && next.machine.state == ext.fsmState
      && next.hBtcAnchored == ext.btcReceipt.checkpointBlockHeight
      && next.hEngramVerified == ext.daReceipt.publishedBlockHeight
      && next.hBtcCurrent == (if home then ext.btcReceipt.checkpointBlockHeight else st.hBtcCurrent)
      && next.hEngramCurrent == (if home then ext.daReceipt.publishedBlockHeight else st.hEngramCurrent)
      && next.metrics == (if home then st.metrics.(isDasFailed := false, isAttestationFailed := false) else st.metrics)
      && next.hBtcSubmitted == (if claims then st.hBtcCurrent else st.hBtcSubmitted)
      && next.reanchoringProofValid == (st.reanchoringProofValid && !claims)
  {
  }

  /** An honest proposer's block, once decided, commits its own confirmed anchor and publication. */
  lemma HonestBlockRecorded(st: Store, rd: Readings, mempool: seq<Tx>, ctx: BlockContext, p: Params)
    ensures var next := PreBlock(st, Prepare(st, rd, ctx.height, mempool, p), ctx, p);
            next.hBtcAnchored == OwnAnchor(st, rd) && next.hEngramVerified == OwnPublication(st, rd)
  {
    HonestBlockExactly(st, rd, ctx.height, mempool, p);
    CommitRecords(st, Prepare(st, rd, ctx.height, mempool, p), ctx, p);
  }

  lemma {:induction false} MessagesKeepHeights(st: Store, msgs: seq<Msg>)
    ensures var st' := DeliverAll(st, msgs);
            && st'.hBtcAnchored == st.hBtcAnchored && st'.hEngramVerified == st.hEngramVerified
            && st'.hEngramCurrent == st.hEngramCurrent && st'.reanchoringProofValid == st.reanchoringProofValid
  {
    if msgs != [] {
      MessagesKeepHeights(st, msgs[..|msgs| - 1]);
    }
  }

  /** Whoever proposed it, a decided block commits the heights it claims. */
  lemma DecidedHeights(net: Network, ds: seq<Decision>, i: nat)
    requires Legal(net, ds) && i < |ds|
    ensures ds[i].txs != [] && ds[i].txs[0].Extended?
    ensures StoreAt(net, ds, i + 1).hBtcAnchored == ds[i].txs[0].ext.btcReceipt.checkpointBlockHeight
    ensures StoreAt(net, ds, i + 1).hEngramVerified == ds[i].txs[0].ext.daReceipt.publishedBlockHeight
  {
    DecidedFollows(net, ds, i);
    CommitRecords(StoreAt(net, ds, i), ds[i].txs, ContextAt(net, ds, i), net.params);
    MessagesKeepHeights(PreBlock(StoreAt(net, ds, i), ds[i].txs, ContextAt(net, ds, i), net.params), ds[i].msgs);
  }

  /** Claims over runs: a decided block from any proposer refers to a proof exactly when it commits
      RECOVERING at the ceiling, and it then strictly raises the committed publication. */
  lemma ClaimsExactly(net: Network, ds: seq<Decision>, i: nat)
    requires Legal(net, ds) && i < |ds|
    ensures Claims(ds, i) <==> AtCeiling(StoreAt(net, ds, i), StateAt(net, ds, i + 1), net.params)
    ensures Claims(ds, i) ==> StoreAt(net, ds, i + 1).hEngramVerified > StoreAt(net, ds, i).hEngramVerified
  {
    var st, d := StoreAt(net, ds, i), ds[i];
    DecidedFollows(net, ds, i);
    DecidedHeights(net, ds, i);
    assert LegalAt(net, ds, i);
    HonestThird(net, st, d, Height(net, i));
    var v :| v in HonestVoters(net, d);
    assert VoteHolds(net, st, d, Height(net, i), v);
    ReferenceExactly(st, d.votes[v].readings, d.votes[v].round, Height(net, i), d.txs, net.params);
  }

  /** One honest voter that lost Bitcoin is enough: the block it voted for commits SOVEREIGN. */
  lemma LostBitcoinCommitsSovereign(net: Network, ds: seq<Decision>, i: nat, v: Validator)
    requires Legal(net, ds) && i < |ds| && net.params.Valid() && v in HonestVoters(net, ds[i])
    requires !StateAt(net, ds, i).Unknown?
    requires BitcoinLost(StoreAt(net, ds, i), ds[i].votes[v].readings, net.params)
    ensures StateAt(net, ds, i + 1) == Sovereign
  {
    assert LegalAt(net, ds, i);
    assert VoteHolds(net, StoreAt(net, ds, i), ds[i], Height(net, i), v);
    HonestVoterBacks(net, ds, i, v);
    LostBitcoinLocks(StoreAt(net, ds, i), ds[i].votes[v].readings, Height(net, i), net.params);
  }
}
