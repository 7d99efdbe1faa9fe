/** The forced-inclusion rules over the queue a store hands out. */
module Censorship {
  import opened Uint64
  import opened KeeperStore

  function Lookup(counts: map<Tx, nat>, tx: Tx): nat {
    if tx in counts then counts[tx] else 0
  }

  method IsCensoring(queue: seq<Tx>, ignored: map<Tx, nat>, included: set<Tx>, maxIgnoreRounds: nat)
    returns (censoring: bool)
    ensures censoring <==> exists tx :: tx in queue && Lookup(ignored, tx) >= maxIgnoreRounds && tx !in included
  {
    for i := 0 to |queue|
      invariant forall j :: 0 <= j < i ==> !(Lookup(ignored, queue[j]) >= maxIgnoreRounds && queue[j] !in included)
    {
      if Lookup(ignored, queue[i]) >= maxIgnoreRounds && queue[i] !in included {
        return true;
      }
    }
    return false;
  }

  /** A queued transaction's counter restarts when the block holds it and otherwise counts one
      more omission, stopping at one above the limit. */
  method NextIgnoredRounds(queue: seq<Tx>, current: map<Tx, nat>, included: set<Tx>, maxIgnoreRounds: nat)
    returns (next: map<Tx, nat>)
    ensures next.Keys == set tx | tx in queue
    ensures forall tx :: tx in next ==>
      next[tx] == if tx in included then 0 else NextIgnored(Lookup(current, tx), maxIgnoreRounds)
  {
    next := map[];
    for i := 0 to |queue|
      invariant next.Keys == set tx | tx in queue[..i]
      invariant forall tx :: tx in next ==>
        next[tx] == if tx in included then 0 else NextIgnored(Lookup(current, tx), maxIgnoreRounds)
    {
      var tx := queue[i];
      assert queue[..i + 1] == queue[..i] + [tx];
      if tx in included {
        next := next[tx := 0];
      } else {
        var count := Inc(Lookup(current, tx));
        if count > Inc(maxIgnoreRounds) {
          count := Inc(maxIgnoreRounds);
        }
        next := next[tx := count];
      }
    }
    assert queue[..|queue|] == queue;
  }
}

/** The keeper: the store's items as fields, and the handlers that update them in place. */
module KeeperClass {
  import opened Uint64
  import opened Fsm
  import opened Receipts
  import opened KeeperStore
  import opened Proposals
  import opened Censorship
  import opened SensorBundle

  /** A queue and counters updated entry by entry are the tracked ones. */
  lemma TrackedBy(st: Store, txs: seq<Tx>, included: set<Tx>, maxIgnoreRounds: nat, next: map<Tx, nat>,
                  queue: set<Tx>, counts: map<Tx, nat>)
    requires forall tx :: tx in included <==> tx in txs
    requires st.forcedTxQueue != {} && next.Keys == st.forcedTxQueue
    requires forall tx :: tx in next && tx !in included ==>
      next[tx] == NextIgnored(IgnoredRounds(st, tx), maxIgnoreRounds)
    requires queue == st.forcedTxQueue - (next.Keys * included)
    requires counts.Keys == st.txIgnoredRounds.Keys + next.Keys - (next.Keys * included)
    requires forall tx :: tx in counts ==> counts[tx] == if tx in next then next[tx] else st.txIgnoredRounds[tx]
    ensures TrackForced(st, txs, maxIgnoreRounds) == st.(forcedTxQueue := queue, txIgnoredRounds := counts)
  {
    assert queue == StillQueued(st, txs);
    assert counts.Keys == Recounted(st, txs, maxIgnoreRounds).Keys;
    assert counts == Recounted(st, txs, maxIgnoreRounds);
  }

  /** The first half of a refresh, read before the trackers are called: the Bitcoin tip and the flag. */
  ghost function BitcoinRefreshed(st: Store, rd: Readings, p: Params): Store {
    var tipped := st.(hBtcCurrent := BtcGapMetric(st, rd, p).2);
    tipped.(reanchoringProofValid := ProofFlag(tipped, p))
  }

  /** The second half, read after: DA, peers, and the snapshot itself. */
  function SnapshotStored(st: Store, btcGap: nat, spvFailed: bool, rd: Readings, height: nat, p: Params): Store {
    var (daGap, das, att, engramHeight) := DaGapMetric(st, rd, height, p);
    st.(hEngramCurrent := engramHeight,
        metrics := Metrics(btcGap, spvFailed, daGap, das, att,
                           rd.p2p.subnetDiversity, rd.p2p.activeAnchors, rd.p2p.cleanPeers,
                           rd.p2p.churnRate, rd.p2p.avgTenure, rd.p2p.latency))
  }

  /** The two halves make a refresh, though the trackers move between them. */
  lemma HalvesRefresh(st: Store, before: Readings, rd: Readings, height: nat, p: Params)
    requires before.btc == rd.btc && before.anchorWired == rd.anchorWired && before.anchorHolds == rd.anchorHolds
    ensures var (btcGap, spvFailed, _) := BtcGapMetric(st, before, p);
            SnapshotStored(BitcoinRefreshed(st, before, p), btcGap, spvFailed, rd, height, p)
            == Refresh(st, rd, height, p)
  {
    FlagIgnoresHeight(st, BtcGapMetric(st, before, p).2, p);
  }

  class Keeper {
    const p: Params

    var fsmState: State
    var safeBlocks: nat
    var suspiciousDuration: nat
    var suspiciousSafeBlocks: nat
    var unhealthyStreak: nat
    var failedRecoveryAttempts: nat
    var reanchoringProofValid: bool
    var metrics: Metrics
    var hBtcCurrent: nat
    var hBtcAnchored: nat
    var hBtcSubmitted: nat
    var hEngramCurrent: nat
    var hEngramVerified: nat
    var forcedTxQueue: set<Tx>
    var txIgnoredRounds: map<Tx, nat>
    var headerHistory: map<nat, Header>
    var lastAnchoredRoot: Option<Bytes>
    var realProofSubmittedHeight: nat

    function Breaker(): Machine
      reads this
    {
      Machine(fsmState, safeBlocks, suspiciousDuration, suspiciousSafeBlocks, unhealthyStreak, failedRecoveryAttempts)
    }

    /** The store these fields hold. */
    function View(): Store
      reads this
    {
      Store(Breaker(), reanchoringProofValid, metrics, hBtcCurrent, hBtcAnchored, hBtcSubmitted,
            hEngramCurrent, hEngramVerified, forcedTxQueue, txIgnoredRounds, headerHistory,
            lastAnchoredRoot, realProofSubmittedHeight)
    }

    /** A keeper over a copy of a store: genesis, or the branch a proposal handler discards. */
    constructor (p: Params, st: Store)
      ensures this.p == p && View() == st
    {
      this.p := p;
      fsmState := st.machine.state;
      safeBlocks := st.machine.safeBlocks;
      suspiciousDuration := st.machine.suspiciousDuration;
      suspiciousSafeBlocks := st.machine.suspiciousSafeBlocks;
      unhealthyStreak := st.machine.unhealthyStreak;
      failedRecoveryAttempts := st.machine.failedRecoveryAttempts;
      reanchoringProofValid := st.reanchoringProofValid;
      metrics := st.metrics;
      hBtcCurrent := st.hBtcCurrent;
      hBtcAnchored := st.hBtcAnchored;
      hBtcSubmitted := st.hBtcSubmitted;
      hEngramCurrent := st.hEngramCurrent;
      hEngramVerified := st.hEngramVerified;
      forcedTxQueue := st.forcedTxQueue;
      txIgnoredRounds := st.txIgnoredRounds;
      headerHistory := st.headerHistory;
      lastAnchoredRoot := st.lastAnchoredRoot;
      realProofSubmittedHeight := st.realProofSubmittedHeight;
    }

    /** The five counters' update on moving from `current` to the state just stored. */
    method UpdateCounters(current: State, healthy: bool)
      modifies this`safeBlocks, this`suspiciousDuration, this`unhealthyStreak,
               this`suspiciousSafeBlocks, this`failedRecoveryAttempts
      ensures Breaker() == Enter(old(Breaker()).(state := current), fsmState, healthy, p)
    {
      safeBlocks := NextSafeBlocks(current, fsmState, safeBlocks, healthy, p);
      suspiciousDuration := NextSuspiciousDuration(fsmState, suspiciousDuration, p);
      unhealthyStreak := NextUnhealthyStreak(current, fsmState, unhealthyStreak, healthy);
      suspiciousSafeBlocks := NextSuspiciousSafeBlocks(current, fsmState, suspiciousSafeBlocks, healthy, p);
      failedRecoveryAttempts := NextFailedRecoveryAttempts(current, fsmState, failedRecoveryAttempts, p);
    }

    /** The local machine's block. */
    method BeginBlocker()
      modifies this
      ensures View() == BeginBlock(old(View()), p)
    {
      var current := fsmState;
      ghost var breaker := Breaker();
      var next := CalculateNextState(Breaker(), Input(metrics, reanchoringProofValid), p);
      if next != current {
        fsmState := next;
      }
      assert Breaker().(state := current) == breaker;
      UpdateCounters(current, IsHealthy(metrics, p));
    }

    /** The tracked heights in store order. */
    method TrackedHeights() returns (hs: seq<nat>)
      ensures forall h :: h in hs <==> h in headerHistory
      ensures forall i, j :: 0 <= i < j < |hs| ==> hs[i] < hs[j]
    {
      hs := [];
      var rest := headerHistory.Keys;
      while rest != {}
        invariant forall h :: h in headerHistory <==> h in rest || h in hs
        invariant forall i, h :: 0 <= i < |hs| && h in rest ==> hs[i] < h
        invariant forall i, j :: 0 <= i < j < |hs| ==> hs[i] < hs[j]
        decreases rest
      {
        ghost var least := MinExists(rest);
        var h :| h in rest && IsMin(rest, h);
        assert IsMin(rest, h);
        assert forall k :: k in rest ==> h <= k;
        hs := hs + [h];
        rest := rest - {h};
      }
    }

    method PruneHeaderHistory()
      modifies this`headerHistory
      ensures headerHistory == map[]
    {
      var heights := TrackedHeights();
      for i := 0 to |heights|
        invariant forall h :: h in headerHistory ==> h in heights[i..]
      {
        headerHistory := headerHistory - {heights[i]};
      }
      assert headerHistory.Keys == {};
    }

    method PruneHeaderHistoryUpTo(height: nat)
      modifies this`headerHistory
      ensures headerHistory == PrunedUpTo(old(headerHistory), height)
    {
      var heights := TrackedHeights();
      for i := 0 to |heights|
        invariant headerHistory.Keys <= old(headerHistory).Keys
        invariant forall j :: 0 <= j < |heights| ==> (heights[j] in headerHistory <==> heights[j] > height || j >= i)
        invariant forall h :: h in headerHistory ==> headerHistory[h] == old(headerHistory)[h]
      {
        if heights[i] <= height {
          headerHistory := headerHistory - {heights[i]};
        }
      }
    }

    /** The lowest tracked header with the given state root. */
    method FindHeaderByStateRoot(root: Bytes) returns (height: nat, found: bool)
      ensures found <==> Matching(View(), root) != {}
      ensures found ==> height == CheckpointHeight(View(), root)
    {
      var heights := TrackedHeights();
      for i := 0 to |heights|
        invariant forall j :: 0 <= j < i ==> headerHistory[heights[j]].stateRoot != root
      {
        if headerHistory[heights[i]].stateRoot == root {
          assert heights[i] in Matching(View(), root);
          assert IsMin(Matching(View(), root), heights[i]);
          return heights[i], true;
        }
      }
      assert Matching(View(), root) == {};
      return 0, false;
    }

    method LatestTrackedHeader() returns (tip: Option<nat>)
      ensures tip == Tip(View())
    {
      var heights := TrackedHeights();
      if |heights| == 0 {
        assert headerHistory.Keys == {};
        return None;
      }
      var best := heights[0];
      for i := 1 to |heights|
        invariant best in heights && forall j :: 0 <= j < i ==> heights[j] <= best
      {
        if heights[i] > best {
          best := heights[i];
        }
      }
      assert IsMax(headerHistory.Keys, best);
      return Some(best);
    }

    method MarkProofSubmitted(ext: ExtendedProposal)
      modifies this
      ensures View() == MarkSubmitted(old(View()), ext)
    {
      if ext.fsmState == Recovering && |ext.zkProofRef| > 0 {
        hBtcSubmitted := hBtcCurrent;
        reanchoringProofValid := false;
      }
    }

    method ResyncSensors(current: State, ext: ExtendedProposal)
      modifies this
      ensures View() == Resync(old(View()), current, ext)
    {
      if current == Recovering && ext.fsmState == Anchored {
        hBtcCurrent := ext.btcReceipt.checkpointBlockHeight;
        hEngramCurrent := ext.daReceipt.publishedBlockHeight;
        metrics := metrics.(isDasFailed := false, isAttestationFailed := false);
      }
    }

    method CommitReceipts(current: State, ext: ExtendedProposal)
      modifies this
      ensures View() == CommitHeights(old(View()), current, ext)
    {
      hBtcAnchored := ext.btcReceipt.checkpointBlockHeight;
      hEngramVerified := ext.daReceipt.publishedBlockHeight;
      MarkProofSubmitted(ext);
      ResyncSensors(current, ext);
    }

    method RecordHeader(current: State, target: State, ctx: BlockContext)
      modifies this
      ensures View() == CommitLedger(old(View()), current, target, ctx)
    {
      if current == Recovering && target != Recovering {
        realProofSubmittedHeight := 0;
      }
      if WithdrawLocked(target) {
        if !WithdrawLocked(current) {
          lastAnchoredRoot := Some(ctx.root);
        }
        headerHistory := headerHistory[ctx.height := Header(target, true, ctx.root)];
      } else if WithdrawLocked(current) {
        PruneHeaderHistory();
      }
    }

    /** Writes whatever was decided; it checks nothing itself. */
    method CommitFSMTransition(ext: ExtendedProposal, ctx: BlockContext)
      modifies this
      ensures View() == Commit(old(View()), ext, ctx, p)
    {
      var current := fsmState;
      ghost var st := View();
      fsmState := ext.fsmState;
      assert Breaker().(state := current) == st.machine;
      UpdateCounters(current, ext.healthy);
      assert View() == st.(machine := Enter(st.machine, ext.fsmState, ext.healthy, p));
      CommitReceipts(current, ext);
      RecordHeader(current, ext.fsmState, ctx);
    }

    method ForcedTxQueueSlice() returns (txs: seq<Tx>)
      ensures forall tx :: tx in txs <==> tx in forcedTxQueue
      ensures |txs| == |forcedTxQueue|
    {
      txs := [];
      var rest := forcedTxQueue;
      while rest != {}
        invariant rest <= forcedTxQueue
        invariant forall tx :: tx in forcedTxQueue <==> tx in rest || tx in txs
        invariant |txs| + |rest| == |forcedTxQueue|
        decreases rest
      {
        var tx :| tx in rest;
        txs := txs + [tx];
        rest := rest - {tx};
      }
    }

    method IgnoredRoundsMap(queue: seq<Tx>) returns (counts: map<Tx, nat>)
      ensures counts.Keys == set tx | tx in queue
      ensures forall tx :: tx in counts ==> counts[tx] == IgnoredRounds(View(), tx)
    {
      counts := map[];
      for i := 0 to |queue|
        invariant counts.Keys == set tx | tx in queue[..i]
        invariant forall tx :: tx in counts ==> counts[tx] == IgnoredRounds(View(), tx)
      {
        assert queue[..i + 1] == queue[..i] + [queue[i]];
        counts := counts[queue[i] := if queue[i] in txIgnoredRounds then txIgnoredRounds[queue[i]] else 0];
      }
      assert queue[..|queue|] == queue;
    }

    /** The counters of the queued transactions after a block with the given transactions. */
    method CountOmissions(queue: seq<Tx>, included: set<Tx>) returns (next: map<Tx, nat>)
      requires forall tx :: tx in queue <==> tx in forcedTxQueue
      ensures next.Keys == forcedTxQueue
      ensures forall tx :: tx in next && tx !in included ==>
        next[tx] == NextIgnored(IgnoredRounds(View(), tx), p.maxIgnoreRounds)
    {
      var counts := IgnoredRoundsMap(queue);
      next := NextIgnoredRounds(queue, counts, included, p.maxIgnoreRounds);
    }

    method RetrackQueue(queue: seq<Tx>, txs: seq<Tx>)
      requires forall tx :: tx in queue <==> tx in forcedTxQueue
      requires forcedTxQueue != {}
      modifies this
      ensures View() == TrackForced(old(View()), txs, p.maxIgnoreRounds)
    {
      var included := set tx | tx in txs;
      var next := CountOmissions(queue, included);
      ghost var st := View();
      ApplyIgnoredRounds(next, included);
      TrackedBy(st, txs, included, p.maxIgnoreRounds, next, forcedTxQueue, txIgnoredRounds);
    }

    method UpdateForcedTxTracking(txs: seq<Tx>)
      modifies this
      ensures View() == TrackForced(old(View()), txs, p.maxIgnoreRounds)
    {
      var queue := ForcedTxQueueSlice();
      if |queue| == 0 {
        return;
      }
      RetrackQueue(queue, txs);
    }

    /** Dequeues the included transactions and stores the others' counters. */
    method ApplyIgnoredRounds(next: map<Tx, nat>, included: set<Tx>)
      requires next.Keys <= forcedTxQueue
      modifies this`forcedTxQueue, this`txIgnoredRounds
      ensures forcedTxQueue == old(forcedTxQueue) - (next.Keys * included)
      ensures txIgnoredRounds.Keys == old(txIgnoredRounds).Keys + next.Keys - (next.Keys * included)
      ensures forall tx :: tx in txIgnoredRounds ==>
        txIgnoredRounds[tx] == if tx in next then next[tx] else old(txIgnoredRounds)[tx]
    {
      var todo := next.Keys;
      while todo != {}
        invariant todo <= next.Keys
        invariant forcedTxQueue == old(forcedTxQueue) - ((next.Keys - todo) * included)
        invariant txIgnoredRounds.Keys
               == old(txIgnoredRounds).Keys + (next.Keys - todo) - ((next.Keys - todo) * included)
        invariant forall tx :: tx in txIgnoredRounds ==>
          txIgnoredRounds[tx] == if tx in next && tx !in todo then next[tx] else old(txIgnoredRounds)[tx]
        decreases todo
      {
        var tx :| tx in todo;
        todo := todo - {tx};
        if tx in included {
          forcedTxQueue := forcedTxQueue - {tx};
          txIgnoredRounds := txIgnoredRounds - {tx};
        } else {
          txIgnoredRounds := txIgnoredRounds[tx := next[tx]];
        }
      }
    }

    method PreBlocker(txs: seq<Tx>, ctx: BlockContext)
      modifies this
      ensures View() == PreBlock(old(View()), txs, ctx, p)
    {
      UpdateForcedTxTracking(txs);
      if |txs| == 0 {
        return;
      }
      if txs[0].Extended? {
        CommitFSMTransition(txs[0].ext, ctx);
      }
    }

    /** Accepts a recovery proof bound to the current checkpoint and moves the checkpoint. */
    method HandleRecoveryProof(publicInputs: Bytes, proved: bool) returns (ok: bool)
      modifies this
      ensures ok <==> ProofAccepted(old(View()), publicInputs, proved)
      ensures ok ==> proved && |publicInputs| == 96
      ensures !ok ==> View() == old(View())
      ensures View() == AfterProof(old(View()), publicInputs, proved)
    {
      if !proved {
        return false;
      }
      if |publicInputs| != PUBLIC_INPUTS {
        return false;
      }
      var rtLast, rtNew := publicInputs[0..32], publicInputs[32..64];
      if lastAnchoredRoot.None? || rtLast != lastAnchoredRoot.value {
        return false;
      }
      var height, found := FindHeaderByStateRoot(rtNew);
      if !found {
        return false;
      }
      lastAnchoredRoot := Some(rtNew);
      PruneHeaderHistoryUpTo(height);
      realProofSubmittedHeight := height;
      return true;
    }

    method HandleForcedTx(tx: Tx, decodes: bool) returns (ok: bool)
      modifies this`forcedTxQueue
      ensures ok <==> decodes
      ensures View() == Deliver(old(View()), SubmitForcedTx(tx, decodes))
    {
      if !decodes {
        return false;
      }
      forcedTxQueue := forcedTxQueue + {tx};
      return true;
    }

    method HandleInjectFault(inputs: Option<Metrics>)
      modifies this`metrics
      ensures View() == Deliver(old(View()), InjectFault(inputs))
      ensures metrics == if inputs == None then old(metrics) else inputs.value
    {
      if inputs.Some? {
        metrics := inputs.value;
      }
    }

    method RefreshReanchoringProofValid()
      modifies this`reanchoringProofValid
      ensures reanchoringProofValid == ProofFlag(old(View()), p)
    {
      var proven := false;
      if realProofSubmittedHeight > 0 {
        var tip := LatestTrackedHeader();
        if tip.Some? && TailLength(tip.value, realProofSubmittedHeight) <= p.maxUnprovenTailBlocks {
          proven := true;
        }
      }
      var heuristic := hBtcAnchored >= hBtcSubmitted && hBtcSubmitted > 0;
      reanchoringProofValid := fsmState == Recovering && (heuristic || proven);
    }

    /** The Bitcoin gap and whether the committed anchor failed to verify; stores the tip it saw. */
    method BtcGap(rd: Readings) returns (gap: nat, spvFailed: bool)
      modifies this`hBtcCurrent
      ensures (gap, spvFailed, hBtcCurrent) == BtcGapMetric(old(View()), rd, p)
    {
      match rd.btc
      case FixedGap(fixed) =>
        return fixed, false;
      case Unreachable =>
        return p.sovereignThreshold, false;
      case HeightError =>
        return p.sovereignThreshold, false;
      case ChainTip(height) =>
        hBtcCurrent := height;
        spvFailed := false;
        if rd.anchorWired && hBtcAnchored > 0 {
          spvFailed := !rd.anchorHolds;
        }
        if height <= hBtcAnchored {
          return 0, spvFailed;
        }
        return height - hBtcAnchored, spvFailed;
    }

    /** The DA gap and the two failure flags; with a live source, stores the chain height. */
    method DaGap(rd: Readings, height: nat) returns (gap: nat, dasFailed: bool, attestationFailed: bool)
      modifies this`hEngramCurrent
      ensures (gap, dasFailed, attestationFailed, hEngramCurrent) == DaGapMetric(old(View()), rd, height, p)
    {
      match rd.da
      case FixedDa(available, das, att) =>
        if available && !das && !att {
          return 0, das, att;
        }
        return p.daThreshold, das, att;
      case LiveDa(lastFailed, probeHealthy, verified) =>
        hEngramCurrent := height;
        var failed := lastFailed || !probeHealthy;
        var reached := 0;
        if verified.Some? {
          reached := verified.value;
        }
        if height <= reached {
          return 0, failed, failed;
        }
        return height - reached, failed, failed;
    }

    method RefreshBitcoin(rd: Readings) returns (gap: nat, spvFailed: bool)
      modifies this
      ensures View() == BitcoinRefreshed(old(View()), rd, p)
      ensures (gap, spvFailed, hBtcCurrent) == BtcGapMetric(old(View()), rd, p)
    {
      gap, spvFailed := BtcGap(rd);
      RefreshReanchoringProofValid();
    }

    method StoreSnapshot(btcGap: nat, spvFailed: bool, rd: Readings, height: nat)
      modifies this
      ensures View() == SnapshotStored(old(View()), btcGap, spvFailed, rd, height, p)
    {
      var daGap, das, att := DaGap(rd, height);
      metrics := Metrics(btcGap, spvFailed, daGap, das, att,
                         rd.p2p.subnetDiversity, rd.p2p.activeAnchors, rd.p2p.cleanPeers,
                         rd.p2p.churnRate, rd.p2p.avgTenure, rd.p2p.latency);
    }

    /** Snapshots the sensors into this (branch) keeper; the validator's trackers move along. */
    method RefreshMetrics(s: Sensors, a: Answers, height: nat)
      modifies this, s.Repr()
      ensures s.View() == Polled(old(s.View()), a, height)
      ensures View() == Refresh(old(View()), Read(s.View(), a), height, p)
    {
      assert this !in s.Repr();
      ghost var st, before := View(), Read(s.View(), a);
      var btcGap, spvFailed := RefreshBitcoin(Read(s.View(), a));
      s.Poll(a, height);
      StoreSnapshot(btcGap, spvFailed, Read(s.View(), a), height);
      HalvesRefresh(st, before, Read(s.View(), a), height, p);
    }

    /** Builds this validator's proposal on a discarded copy of the store. */
    method PrepareProposal(s: Sensors, a: Answers, height: nat, mempool: seq<Tx>) returns (txs: seq<Tx>)
      modifies s.Repr()
      ensures s.View() == Polled(old(s.View()), a, height)
      ensures View() == old(View())
      ensures txs == Prepare(View(), Read(s.View(), a), height, mempool, p)
    {
      var branch := new Keeper(p, View());
      branch.RefreshMetrics(s, a, height);
      var ext := ProposalOn(branch.View(), Read(s.View(), a), p);
      var inner := mempool;
      if WithdrawLocked(ext.fsmState) {
        inner := [];
        for i := 0 to |mempool|
          invariant inner == WithoutWithdrawals(mempool[..i])
        {
          assert mempool[..i + 1][..i] == mempool[..i];
          if !ContainsWithdrawal(mempool[i]) {
            inner := inner + [mempool[i]];
          }
        }
        assert mempool[..|mempool|] == mempool;
      }
      txs := [Extended(ext)] + inner;
    }

    /** Re-derives the proposal from this validator's own sensors on a discarded copy. A block without
        a readable proposal is rejected before the sensors are looked at. */
    method ProcessProposal(s: Sensors, a: Answers, round: nat, height: nat, txs: seq<Tx>) returns (accept: bool)
      modifies s.Repr()
      ensures var readable := |txs| > 0 && txs[0].Extended?;
              s.View() == if readable then Polled(old(s.View()), a, height) else old(s.View())
      ensures View() == old(View())
      ensures accept == Accepts(View(), Read(s.View(), a), round, height, txs, p)
    {
      if |txs| == 0 || !txs[0].Extended? {
        return false;
      }
      var branch := new Keeper(p, View());
      branch.RefreshMetrics(s, a, height);
      accept := branch.Validate(Read(s.View(), a), round, txs[0].ext, txs[1..]);
    }

    method Validate(rd: Readings, round: nat, ext: ExtendedProposal, txs: seq<Tx>) returns (accept: bool)
      ensures accept == AcceptsOn(View(), rd, round, ext, txs, p)
    {
      if round < p.maxCensorshipRounds {
        var censoring := CheckCensorship(txs);
        if censoring {
          return false;
        }
      }
      var expected := CalculateNextState(Breaker(), FsmInput(View()), p);
      if ext.fsmState != expected {
        return false;
      }
      if ext.healthy != IsHealthy(metrics, p) {
        return false;
      }
      if !VerifyDaReceipt(ext.daReceipt, ext.fsmState, IsDAHealthy(metrics, p), hEngramCurrent, p.daThreshold, round) {
        return false;
      }
      if !VerifyBtcReceipt(ext.btcReceipt, ext.fsmState, IsBTCHealthy(metrics, p), hBtcCurrent, hBtcAnchored,
                           round, p.kDeepFinality) {
        return false;
      }
      if rd.anchorWired && ext.btcReceipt.checkpointBlockHeight > hBtcAnchored {
        if !rd.claimHolds {
          return false;
        }
      }
      if WithdrawLocked(ext.fsmState) {
        for i := 0 to |txs|
          invariant forall j :: 0 <= j < i ==> !ContainsWithdrawal(txs[j])
        {
          if ContainsWithdrawal(txs[i]) {
            return false;
          }
        }
      }
      if ext.fsmState == Recovering && safeBlocks == p.hysteresisWait {
        if !VerifyZkProofFlag(ext.zkProofRef, ext.daReceipt, hEngramVerified) {
          return false;
        }
      } else if |ext.zkProofRef| > 0 {
        return false;
      }
      return true;
    }

    method CheckCensorship(txs: seq<Tx>) returns (censoring: bool)
      ensures censoring <==> Censors(View(), txs, p)
    {
      var queue := ForcedTxQueueSlice();
      if |queue| == 0 {
        return false;
      }
      var ignored := IgnoredRoundsMap(queue);
      var included := set tx | tx in txs;
      censoring := IsCensoring(queue, ignored, included, p.maxIgnoreRounds);
      assert forall tx :: tx in queue ==> Lookup(ignored, tx) == IgnoredRounds(View(), tx);
      if censoring {
        var tx :| tx in queue && Lookup(ignored, tx) >= p.maxIgnoreRounds && tx !in included;
        assert Overdue(View(), tx, p);
      }
    }
  }
}
