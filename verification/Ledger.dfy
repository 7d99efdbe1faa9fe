/** The re-anchoring ledger over whole runs: what is tracked, what is proven, and what a
    return to ANCHORED has therefore covered. */
module Ledger {
  import opened Uint64
  import opened Fsm
  import opened KeeperStore
  import opened Proposals
  import opened Chain

  /** One accepted recovery proof: the roots it binds and the height it reaches. */
  datatype Checkpoint = Checkpoint(rtLast: Bytes, rtNew: Bytes, height: nat)

  /** The locked interval in progress, reconstructed from history alone: its first block, the
      root it entered with, and every proof accepted since. */
  datatype Interval = Idle | Open(first: nat, entryRoot: Bytes, log: seq<Checkpoint>)
  {
    /** The last height covered by the accepted proofs, or the one before the interval. */
    function Covered(): int
      requires Open?
    {
      if log == [] then first - 1 else log[|log| - 1].height
    }

    function Root(): Bytes
      requires Open?
    {
      if log == [] then entryRoot else log[|log| - 1].rtNew
    }
  }

  function OnCommit(iv: Interval, current: State, target: State, ctx: BlockContext): Interval {
    if !WithdrawLocked(target) then Idle
    else if WithdrawLocked(current) then iv
    else Open(ctx.height, ctx.root, [])
  }

  ghost function OnMsg(iv: Interval, st: Store, msg: Msg): Interval {
    if iv.Open? && msg.SubmitRecoveryProof? && ProofAccepted(st, msg.publicInputs, msg.proved) then
      var rtLast, rtNew := msg.publicInputs[0..32], msg.publicInputs[32..64];
      iv.(log := iv.log + [Checkpoint(rtLast, rtNew, CheckpointHeight(st, rtNew))])
    else iv
  }

  ghost function OnMsgs(iv: Interval, st: Store, msgs: seq<Msg>): Interval {
    if msgs == [] then iv
    else
      var before := msgs[..|msgs| - 1];
      OnMsg(OnMsgs(iv, st, before), DeliverAll(st, before), msgs[|msgs| - 1])
  }

  /** Each proof starts from the root the one before it reached, the first from the entry root. */
  predicate Chained(entryRoot: Bytes, log: seq<Checkpoint>) {
    forall k :: 0 <= k < |log| ==> log[k].rtLast == if k == 0 then entryRoot else log[k - 1].rtNew
  }

  predicate Increasing(log: seq<Checkpoint>) {
    forall j, k :: 0 <= j < k < |log| ==> log[j].height < log[k].height
  }

  /** `roots[k]` is the incoming root of the block at height `base + k`. */
  predicate LogFits(iv: Interval, base: nat, roots: seq<Bytes>)
    requires iv.Open?
  {
    && base <= iv.first < base + |roots|
    && iv.entryRoot == roots[iv.first - base]
    && Chained(iv.entryRoot, iv.log)
    && Increasing(iv.log)
    && (forall k :: 0 <= k < |iv.log| ==>
          && iv.first <= iv.log[k].height < base + |roots|
          && iv.log[k].rtNew == roots[iv.log[k].height - base])
  }

  /** No block in the index range [from, to) has the root. */
  predicate Absent(roots: seq<Bytes>, from: int, to: int, root: Bytes) {
    forall g :: 0 <= g < |roots| && from <= g < to ==> roots[g] != root
  }

  /** Each proof reaches the first block past the one before it that has its root. */
  predicate ReachesFirst(iv: Interval, base: nat, roots: seq<Bytes>)
    requires iv.Open?
  {
    forall k :: 0 <= k < |iv.log| ==>
      Absent(roots, (if k == 0 then iv.first else iv.log[k - 1].height + 1) - base, iv.log[k].height - base,
             iv.log[k].rtNew)
  }

  /** The tracked headers are exactly the blocks after the covered prefix, with their roots. */
  ghost predicate TracksSuffix(st: Store, iv: Interval, base: nat, roots: seq<Bytes>)
    requires iv.Open?
  {
    && (forall h :: h in st.headerHistory <==> Max(iv.Covered() + 1, base) <= h < base + |roots|)
    && (forall h :: h in st.headerHistory ==>
          h >= base && st.headerHistory[h].withdrawalLocked && st.headerHistory[h].stateRoot == roots[h - base])
  }

  /** Ledger conservation. */
  ghost predicate Conserved(st: Store, iv: Interval, base: nat, roots: seq<Bytes>) {
    && (WithdrawLocked(st.machine.state) <==> iv.Open?)
    && (iv.Idle? ==> st.headerHistory == map[] && st.realProofSubmittedHeight == 0)
    && (iv.Open? ==>
          && LogFits(iv, base, roots)
          && TracksSuffix(st, iv, base, roots)
          && st.lastAnchoredRoot == Some(iv.Root())
          && (st.realProofSubmittedHeight == 0
              || (iv.log != [] && st.realProofSubmittedHeight == iv.Covered())))
  }

  lemma CommitConserves(st: Store, iv: Interval, base: nat, roots: seq<Bytes>, ext: ExtendedProposal,
                        ctx: BlockContext, p: Params)
    requires base >= 1 && Conserved(st, iv, base, roots)
    requires ctx.height == base + |roots|
    requires st.machine.state == Sovereign ==> WithdrawLocked(ext.fsmState)
    ensures Conserved(Commit(st, ext, ctx, p), OnCommit(iv, st.machine.state, ext.fsmState, ctx),
                      base, roots + [ctx.root])
  {
    var iv' := OnCommit(iv, st.machine.state, ext.fsmState, ctx);
    var st' := Commit(st, ext, ctx, p);
    if iv'.Open? {
      assert LogFits(iv', base, roots + [ctx.root]);
      assert TracksSuffix(st', iv', base, roots + [ctx.root]);
    }
  }

  lemma LogExtends(iv: Interval, base: nat, roots: seq<Bytes>, rtNew: Bytes, h: nat)
    requires base >= 1 && iv.Open? && LogFits(iv, base, roots)
    requires Max(iv.Covered() + 1, base) <= h < base + |roots| && rtNew == roots[h - base]
    ensures LogFits(iv.(log := iv.log + [Checkpoint(iv.Root(), rtNew, h)]), base, roots)
  {
  }

  lemma SuffixShrinks(st: Store, iv: Interval, base: nat, roots: seq<Bytes>, iv': Interval, st': Store, h: nat)
    requires iv.Open? && iv'.Open? && TracksSuffix(st, iv, base, roots)
    requires iv'.Covered() == h && h >= iv.Covered() && h >= base
    requires st'.headerHistory == PrunedUpTo(st.headerHistory, h)
    ensures TracksSuffix(st', iv', base, roots)
  {
  }

  lemma ProofConserves(st: Store, iv: Interval, base: nat, roots: seq<Bytes>, msg: Msg)
    requires base >= 1 && Conserved(st, iv, base, roots) && iv.Open?
    requires msg.SubmitRecoveryProof? && ProofAccepted(st, msg.publicInputs, msg.proved)
    ensures Conserved(Deliver(st, msg), OnMsg(iv, st, msg), base, roots)
    ensures CheckpointHeight(st, msg.publicInputs[32..64]) > iv.Covered()
  {
    var rtNew := msg.publicInputs[32..64];
    var h := CheckpointHeight(st, rtNew);
    assert h in Matching(st, rtNew);
    var iv', st' := OnMsg(iv, st, msg), Deliver(st, msg);
    assert iv' == iv.(log := iv.log + [Checkpoint(iv.Root(), rtNew, h)]);
    LogExtends(iv, base, roots, rtNew, h);
    SuffixShrinks(st, iv, base, roots, iv', st', h);
  }

  lemma MsgConserves(st: Store, iv: Interval, base: nat, roots: seq<Bytes>, msg: Msg)
    requires base >= 1 && Conserved(st, iv, base, roots)
    ensures Conserved(Deliver(st, msg), OnMsg(iv, st, msg), base, roots)
  {
    if msg.SubmitRecoveryProof? && ProofAccepted(st, msg.publicInputs, msg.proved) {
      var h := CheckpointHeight(st, msg.publicInputs[32..64]);
      assert h in Matching(st, msg.publicInputs[32..64]);
      if iv.Open? {
        ProofConserves(st, iv, base, roots, msg);
      }
    } else if iv.Open? {
      assert TracksSuffix(Deliver(st, msg), iv, base, roots);
    }
  }

  lemma {:induction false} MsgsConserve(st: Store, iv: Interval, base: nat, roots: seq<Bytes>, msgs: seq<Msg>)
    requires base >= 1 && Conserved(st, iv, base, roots)
    ensures Conserved(DeliverAll(st, msgs), OnMsgs(iv, st, msgs), base, roots)
  {
    if msgs != [] {
      var before := msgs[..|msgs| - 1];
      MsgsConserve(st, iv, base, roots, before);
      MsgConserves(DeliverAll(st, before), OnMsgs(iv, st, before), base, roots, msgs[|msgs| - 1]);
    }
  }

  function Roots(ds: seq<Decision>, n: nat): seq<Bytes>
    requires n <= |ds|
  {
    seq(n, i requires 0 <= i < n => ds[i].root)
  }

  /** What one decided block does to the interval. */
  ghost function AfterBlock(iv: Interval, st: Store, d: Decision, ctx: BlockContext, p: Params): Interval {
    var committed := PreBlock(st, d.txs, ctx, p);
    OnMsgs(OnCommit(iv, st.machine.state, committed.machine.state, ctx), committed, d.msgs)
  }

  /** The interval in progress after the first `i` blocks, read off the history. */
  ghost function IntervalAt(net: Network, ds: seq<Decision>, i: nat): Interval
    requires i <= |ds|
  {
    if i == 0 then Idle
    else
      var iv, st := IntervalAt(net, ds, i - 1), StoreAt(net, ds, i - 1);
      AfterBlock(iv, st, ds[i - 1], ContextAt(net, ds, i - 1), net.params)
  }

  /** A decided block carries a proposal whose state follows from the store's. */
  lemma DecidedFollows(net: Network, ds: seq<Decision>, i: nat)
    requires Legal(net, ds) && i < |ds|
    ensures ds[i].txs != [] && ds[i].txs[0].Extended?
    ensures StateAt(net, ds, i + 1) == ds[i].txs[0].ext.fsmState
    ensures StateAt(net, ds, i) == Sovereign ==> WithdrawLocked(StateAt(net, ds, i + 1))
    ensures StateAt(net, ds, i) == Recovering && StateAt(net, ds, i + 1) == Anchored ==>
              ProofFlag(StoreAt(net, ds, i), net.params)
  {
    var st, d := StoreAt(net, ds, i), ds[i];
    assert LegalAt(net, ds, i);
    HonestThird(net, st, d, Height(net, i));
    var v :| v in HonestVoters(net, d);
    assert VoteHolds(net, st, d, Height(net, i), v);
    HonestVoterBacks(net, ds, i, v);
    assert StateAt(net, ds, i + 1) == CalculateNextState(st.machine, OwnInput(net, ds, i, v), net.params);
  }

  lemma TrackingConserves(st: Store, iv: Interval, base: nat, roots: seq<Bytes>, txs: seq<Tx>, limit: nat)
    requires Conserved(st, iv, base, roots)
    ensures Conserved(TrackForced(st, txs, limit), iv, base, roots)
    ensures TrackForced(st, txs, limit).machine == st.machine
  {
    if iv.Open? {
      assert TracksSuffix(TrackForced(st, txs, limit), iv, base, roots);
    }
  }

  /** Ledger conservation in every reachable store: inside a locked interval the tracked headers
      are exactly its contiguous unproven suffix and outside it there are none; accepted
      checkpoints strictly increase; their roots chain from the entry root to the current one. */
  lemma {:induction false} LedgerConserved(net: Network, ds: seq<Decision>, i: nat)
    requires Legal(net, ds) && i <= |ds|
    ensures Conserved(StoreAt(net, ds, i), IntervalAt(net, ds, i), net.initialHeight, Roots(ds, i))
  {
    if i > 0 {
      LedgerConserved(net, ds, i - 1);
      BlockConserves(net, ds, i - 1);
    }
  }

  lemma BlockCommits(net: Network, ds: seq<Decision>, i: nat)
    requires Legal(net, ds) && i < |ds|
    requires Conserved(StoreAt(net, ds, i), IntervalAt(net, ds, i), net.initialHeight, Roots(ds, i))
    ensures var st, ctx := StoreAt(net, ds, i), ContextAt(net, ds, i);
            var committed := PreBlock(st, ds[i].txs, ctx, net.params);
            Conserved(committed, OnCommit(IntervalAt(net, ds, i), st.machine.state, committed.machine.state, ctx),
                      net.initialHeight, Roots(ds, i + 1))
  {
    var st, iv, d, ctx := StoreAt(net, ds, i), IntervalAt(net, ds, i), ds[i], ContextAt(net, ds, i);
    var base, roots, p := net.initialHeight, Roots(ds, i), net.params;
    DecidedFollows(net, ds, i);
    var tracked := TrackForced(st, d.txs, p.maxIgnoreRounds);
    TrackingConserves(st, iv, base, roots, d.txs, p.maxIgnoreRounds);
    CommitConserves(tracked, iv, base, roots, d.txs[0].ext, ctx, p);
    assert Roots(ds, i + 1) == roots + [ctx.root];
    assert PreBlock(st, d.txs, ctx, p) == Commit(tracked, d.txs[0].ext, ctx, p);
  }

  lemma BlockConserves(net: Network, ds: seq<Decision>, i: nat)
    requires Legal(net, ds) && i < |ds|
    requires Conserved(StoreAt(net, ds, i), IntervalAt(net, ds, i), net.initialHeight, Roots(ds, i))
    ensures Conserved(StoreAt(net, ds, i + 1), IntervalAt(net, ds, i + 1), net.initialHeight, Roots(ds, i + 1))
  {
    var st, ctx := StoreAt(net, ds, i), ContextAt(net, ds, i);
    var committed := PreBlock(st, ds[i].txs, ctx, net.params);
    BlockCommits(net, ds, i);
    MsgsConserve(committed, OnCommit(IntervalAt(net, ds, i), st.machine.state, committed.machine.state, ctx),
                 net.initialHeight, Roots(ds, i + 1), ds[i].msgs);
  }

  lemma MsgReachesFirst(st: Store, iv: Interval, base: nat, roots: seq<Bytes>, msg: Msg)
    requires base >= 1 && Conserved(st, iv, base, roots) && iv.Open? && ReachesFirst(iv, base, roots)
    requires msg.SubmitRecoveryProof? && ProofAccepted(st, msg.publicInputs, msg.proved)
    ensures ReachesFirst(OnMsg(iv, st, msg), base, roots)
  {
    var rtNew := msg.publicInputs[32..64];
    var h := CheckpointHeight(st, rtNew);
    assert h in Matching(st, rtNew);
    var from := iv.Covered() + 1 - base;
    forall g | 0 <= g < |roots| && from <= g < h - base ensures roots[g] != rtNew {
      var low := g + base;
      assert low in st.headerHistory && st.headerHistory[low].stateRoot == roots[low - base];
      assert low !in Matching(st, rtNew);
    }
    assert Absent(roots, from, h - base, rtNew);
  }

  lemma {:induction false} MsgsReachFirst(st: Store, iv: Interval, base: nat, roots: seq<Bytes>, msgs: seq<Msg>)
    requires base >= 1 && Conserved(st, iv, base, roots) && (iv.Open? ==> ReachesFirst(iv, base, roots))
    ensures var iv' := OnMsgs(iv, st, msgs); iv'.Open? ==> ReachesFirst(iv', base, roots)
  {
    if msgs != [] {
      var before, msg := msgs[..|msgs| - 1], msgs[|msgs| - 1];
      MsgsReachFirst(st, iv, base, roots, before);
      MsgsConserve(st, iv, base, roots, before);
      var st', iv' := DeliverAll(st, before), OnMsgs(iv, st, before);
      if iv'.Open? && msg.SubmitRecoveryProof? && ProofAccepted(st', msg.publicInputs, msg.proved) {
        MsgReachesFirst(st', iv', base, roots, msg);
      }
    }
  }

  lemma CommitReachesFirst(iv: Interval, base: nat, roots: seq<Bytes>, current: State, target: State, ctx: BlockContext)
    requires iv.Open? ==> LogFits(iv, base, roots) && ReachesFirst(iv, base, roots)
    requires ctx.height == base + |roots|
    ensures var iv' := OnCommit(iv, current, target, ctx); iv'.Open? ==> ReachesFirst(iv', base, roots + [ctx.root])
  {
    var iv', longer := OnCommit(iv, current, target, ctx), roots + [ctx.root];
    if iv'.Open? {
      forall k | 0 <= k < |iv'.log|
        ensures Absent(longer, (if k == 0 then iv'.first else iv'.log[k - 1].height + 1) - base,
                       iv'.log[k].height - base, iv'.log[k].rtNew)
      {
        assert Absent(roots, (if k == 0 then iv.first else iv.log[k - 1].height + 1) - base,
                      iv.log[k].height - base, iv.log[k].rtNew);
      }
    }
  }

  /** In every reachable store each accepted proof covers up to the first block past the last checkpoint
      that has the root it proves. */
  lemma {:induction false} ProofsReachFirst(net: Network, ds: seq<Decision>, i: nat)
    requires Legal(net, ds) && i <= |ds|
    ensures var iv := IntervalAt(net, ds, i); iv.Open? ==> ReachesFirst(iv, net.initialHeight, Roots(ds, i))
  {
    if i > 0 {
      var k := i - 1;
      var st, iv, ctx := StoreAt(net, ds, k), IntervalAt(net, ds, k), ContextAt(net, ds, k);
      var base, roots := net.initialHeight, Roots(ds, k);
      var committed := PreBlock(st, ds[k].txs, ctx, net.params);
      ProofsReachFirst(net, ds, k);
      LedgerConserved(net, ds, k);
      CommitReachesFirst(iv, base, roots, st.machine.state, committed.machine.state, ctx);
      BlockCommits(net, ds, k);
      assert Roots(ds, i) == roots + [ctx.root];
      MsgsReachFirst(committed, OnCommit(iv, st.machine.state, committed.machine.state, ctx), base, Roots(ds, i),
                     ds[k].msgs);
    }
  }

  /** A message that submits a verified proof of a checkpoint: 96 bytes of public inputs, the roots it
      binds first. */
  predicate Proves(msg: Msg, c: Checkpoint) {
    && msg.SubmitRecoveryProof? && msg.proved
    && |msg.publicInputs| == 96 && msg.publicInputs[0..32] == c.rtLast && msg.publicInputs[32..64] == c.rtNew
  }

  /** The checkpoint was proved by a message of a block in the index range [from, to), not before the
      block it reaches. */
  ghost predicate ProvedIn(ds: seq<Decision>, base: nat, from: int, to: nat, c: Checkpoint)
    requires to <= |ds|
  {
    exists j: nat, msg :: && j < to && from <= j && c.height <= base + j
                          && msg in ds[j].msgs && Proves(msg, c)
  }

  /** Every proof logged so far was submitted, verified, by a block of the interval. */
  ghost predicate LogProved(ds: seq<Decision>, base: nat, i: nat, iv: Interval)
    requires i <= |ds|
  {
    iv.Open? ==> forall k :: 0 <= k < |iv.log| ==> ProvedIn(ds, base, iv.first - base, i, iv.log[k])
  }

  lemma {:induction false} MsgsLogged(iv: Interval, st: Store, msgs: seq<Msg>)
    requires iv.Open?
    ensures var iv' := OnMsgs(iv, st, msgs);
            && iv'.Open? && iv.log <= iv'.log
            && forall k :: |iv.log| <= k < |iv'.log| ==> exists msg :: msg in msgs && Proves(msg, iv'.log[k])
  {
    if msgs != [] {
      var before, msg := msgs[..|msgs| - 1], msgs[|msgs| - 1];
      MsgsLogged(iv, st, before);
      var iv', iv'' := OnMsgs(iv, st, before), OnMsgs(iv, st, msgs);
      assert msg in msgs && forall m :: m in before ==> m in msgs;
      forall k | |iv.log| <= k < |iv''.log| ensures exists m :: m in msgs && Proves(m, iv''.log[k]) {
        if k == |iv'.log| {
          assert Proves(msg, iv''.log[k]);
        } else {
          assert iv''.log[k] == iv'.log[k];
        }
      }
    }
  }

  /** Where the log comes from: in every legal run each logged checkpoint was proved by a verified proof,
      bound to its roots, that a block of the interval delivered. */
  lemma {:induction false} LogFromProofs(net: Network, ds: seq<Decision>, i: nat)
    requires Legal(net, ds) && i <= |ds|
    ensures LogProved(ds, net.initialHeight, i, IntervalAt(net, ds, i))
  {
    if i > 0 && IntervalAt(net, ds, i).Open? {
      LogFromProofs(net, ds, i - 1);
      LoggedByBlock(net, ds, i - 1);
    }
  }

  lemma LoggedByBlock(net: Network, ds: seq<Decision>, i: nat)
    requires Legal(net, ds) && i < |ds| && IntervalAt(net, ds, i + 1).Open?
    requires LogProved(ds, net.initialHeight, i, IntervalAt(net, ds, i))
    ensures LogProved(ds, net.initialHeight, i + 1, IntervalAt(net, ds, i + 1))
  {
    var base, st, ctx := net.initialHeight, StoreAt(net, ds, i), ContextAt(net, ds, i);
    var iv, iv' := IntervalAt(net, ds, i), IntervalAt(net, ds, i + 1);
    var committed := PreBlock(st, ds[i].txs, ctx, net.params);
    var kept := OnCommit(iv, st.machine.state, committed.machine.state, ctx);
    MsgsKeepInterval(kept, committed, ds[i].msgs);
    MsgsLogged(kept, committed, ds[i].msgs);
    LedgerConserved(net, ds, i + 1);
    LedgerConserved(net, ds, i);
    forall k | 0 <= k < |iv'.log| ensures ProvedIn(ds, base, iv'.first - base, i + 1, iv'.log[k]) {
      if k < |kept.log| {
        assert iv'.log[k] == iv.log[k] && ProvedIn(ds, base, iv.first - base, i, iv.log[k]);
      } else {
        var msg :| msg in ds[i].msgs && Proves(msg, iv'.log[k]);
      }
    }
  }

  lemma TailOf(st: Store, iv: Interval, base: nat, roots: seq<Bytes>, h: nat)
    requires base >= 1 && Conserved(st, iv, base, roots) && base + |roots| <= SIZE
    requires h in st.headerHistory
    ensures h > st.realProofSubmittedHeight
    ensures TailLength(h, st.realProofSubmittedHeight) == h - st.realProofSubmittedHeight
  {
  }

  /** Every tracked height exceeds the recorded proof height, so the unsigned distance from the
      tip to it never wraps. */
  lemma TailNeverWraps(net: Network, ds: seq<Decision>, i: nat)
    requires Legal(net, ds) && i <= |ds| && Height(net, |ds|) <= SIZE
    ensures var st := StoreAt(net, ds, i);
            forall h :: h in st.headerHistory ==>
              && h > st.realProofSubmittedHeight
              && TailLength(h, st.realProofSubmittedHeight) == h - st.realProofSubmittedHeight
  {
    LedgerConserved(net, ds, i);
    var st := StoreAt(net, ds, i);
    forall h | h in st.headerHistory
      ensures h > st.realProofSubmittedHeight
      ensures TailLength(h, st.realProofSubmittedHeight) == h - st.realProofSubmittedHeight
    {
      TailOf(st, IntervalAt(net, ds, i), net.initialHeight, Roots(ds, i), h);
    }
  }

  lemma RealProofOn(st: Store, iv: Interval, base: nat, roots: seq<Bytes>, p: Params)
    requires base >= 1 && Conserved(st, iv, base, roots) && base + |roots| <= SIZE
    ensures RealProofValid(st, p)
            <==> && st.realProofSubmittedHeight > 0
                 && iv.Open?
                 && 1 <= base + |roots| - 1 - iv.Covered() <= p.maxUnprovenTailBlocks
  {
    if iv.Open? {
      var tip := base + |roots| - 1;
      if iv.Covered() < tip {
        assert tip in st.headerHistory.Keys;
        assert IsMax(st.headerHistory.Keys, tip);
        assert Tip(st) == Some(tip);
        TailOf(st, iv, base, roots, tip);
      }
    }
  }

  /** In a reachable store the proof flag's real-proof half says exactly: some proof was accepted
      since the interval's last regression, and the interval's unproven blocks number at least
      one and at most MaxUnprovenTailBlocks. */
  lemma RealProofExactly(net: Network, ds: seq<Decision>, i: nat)
    requires Legal(net, ds) && i <= |ds| && Height(net, |ds|) <= SIZE
    ensures var st, iv := StoreAt(net, ds, i), IntervalAt(net, ds, i);
            RealProofValid(st, net.params)
            <==> && st.realProofSubmittedHeight > 0
                 && iv.Open?
                 && 1 <= Height(net, i) - 1 - iv.Covered() <= net.params.maxUnprovenTailBlocks
  {
    LedgerConserved(net, ds, i);
    RealProofOn(StoreAt(net, ds, i), IntervalAt(net, ds, i), net.initialHeight, Roots(ds, i), net.params);
  }

  /** A tail bound of zero turns the real-proof half of the flag off for good: a proof that
      reaches the tip leaves no tracked header to measure from. */
  lemma ZeroTailNeverValid(net: Network, ds: seq<Decision>, i: nat)
    requires Legal(net, ds) && i <= |ds| && Height(net, |ds|) <= SIZE
    requires net.params.maxUnprovenTailBlocks == 0
    ensures !RealProofValid(StoreAt(net, ds, i), net.params)
  {
    RealProofExactly(net, ds, i);
  }

  ghost predicate Reanchors(net: Network, ds: seq<Decision>, i: nat)
    requires i < |ds|
  {
    StateAt(net, ds, i) == Recovering && StateAt(net, ds, i + 1) == Anchored
  }

  lemma {:induction false} MsgsKeepInterval(iv: Interval, st: Store, msgs: seq<Msg>)
    ensures var iv' := OnMsgs(iv, st, msgs);
            (iv.Open? <==> iv'.Open?) && (iv.Open? ==> iv'.first == iv.first && iv'.entryRoot == iv.entryRoot)
  {
    if msgs != [] {
      MsgsKeepInterval(iv, st, msgs[..|msgs| - 1]);
    }
  }

  lemma FirstLockedIsSovereign(net: Network, ds: seq<Decision>, i: nat)
    requires Legal(net, ds) && i < |ds|
    requires !WithdrawLocked(StateAt(net, ds, i)) && WithdrawLocked(StateAt(net, ds, i + 1))
    ensures StateAt(net, ds, i + 1) == Sovereign
  {
    var v := ChooseBacker(net, ds, i);
  }

  /** An interval opens with the block that first locks withdrawals, which is SOVEREIGN, and only
      there. */
  lemma FirstKept(net: Network, ds: seq<Decision>, i: nat)
    requires Legal(net, ds) && i < |ds|
    requires IntervalAt(net, ds, i).Open? <==> WithdrawLocked(StateAt(net, ds, i))
    ensures var before, after, s := IntervalAt(net, ds, i), IntervalAt(net, ds, i + 1), StateAt(net, ds, i + 1);
            && (after.Open? <==> WithdrawLocked(s))
            && (after.Open? ==> after.first == if before.Open? then before.first else Height(net, i))
            && (after.Open? && !before.Open? ==> s == Sovereign)
  {
    var st, ctx := StoreAt(net, ds, i), ContextAt(net, ds, i);
    var committed := PreBlock(st, ds[i].txs, ctx, net.params);
    DeliverKeeps(committed, ds[i].msgs);
    var kept := OnCommit(IntervalAt(net, ds, i), st.machine.state, committed.machine.state, ctx);
    MsgsKeepInterval(kept, committed, ds[i].msgs);
    if WithdrawLocked(StateAt(net, ds, i + 1)) && !WithdrawLocked(StateAt(net, ds, i)) {
      FirstLockedIsSovereign(net, ds, i);
    }
  }

  ghost function States(net: Network, ds: seq<Decision>, i: nat): (ss: seq<State>)
    requires i <= |ds|
    ensures |ss| == i + 1 && forall k :: 0 <= k <= i ==> ss[k] == StateAt(net, ds, k)
  {
    if i == 0 then [StateAt(net, ds, 0)] else States(net, ds, i - 1) + [StateAt(net, ds, i)]
  }

  /** Block `first` locked withdrawals, in SOVEREIGN, and they have stayed locked since; `ss[k]` is
      the state after `k` blocks. */
  predicate LockedSince(ss: seq<State>, first: nat) {
    && first + 1 < |ss|
    && !WithdrawLocked(ss[first])
    && ss[first + 1] == Sovereign
    && (forall k :: first < k < |ss| ==> WithdrawLocked(ss[k]))
  }

  /** The interval's first block is the one that locked withdrawals. */
  predicate Spans(iv: Interval, base: nat, ss: seq<State>)
    requires ss != []
  {
    && (iv.Open? <==> WithdrawLocked(ss[|ss| - 1]))
    && (iv.Open? ==> iv.first >= base && LockedSince(ss, iv.first - base))
  }

  lemma SpansStep(before: Interval, after: Interval, base: nat, ss: seq<State>, s: State)
    requires ss != [] && Spans(before, base, ss)
    requires after.Open? <==> WithdrawLocked(s)
    requires after.Open? ==> after.first == if before.Open? then before.first else base + |ss| - 1
    requires after.Open? && !before.Open? ==> s == Sovereign
    ensures Spans(after, base, ss + [s])
  {
  }

  /** The interval in progress starts with the SOVEREIGN block that locked withdrawals, and every
      block since has kept them locked. */
  lemma {:induction false} IntervalBlocks(net: Network, ds: seq<Decision>, i: nat)
    requires Legal(net, ds) && i <= |ds|
    ensures Spans(IntervalAt(net, ds, i), net.initialHeight, States(net, ds, i))
  {
    if i > 0 {
      IntervalBlocks(net, ds, i - 1);
      FirstKept(net, ds, i - 1);
      SpansStep(IntervalAt(net, ds, i - 1), IntervalAt(net, ds, i), net.initialHeight,
                States(net, ds, i - 1), StateAt(net, ds, i));
    }
  }

  /** All but at most MaxUnprovenTailBlocks of the interval's blocks, counted from its first, lie
      in the prefix covered by accepted proofs, which chain from the entry root. */
  predicate CoveredUpTo(iv: Interval, tip: nat, root: Option<Bytes>, maxTail: nat) {
    && iv.Open? && iv.log != []
    && Chained(iv.entryRoot, iv.log) && Increasing(iv.log)
    && iv.first <= iv.Covered() <= tip
    && tip - iv.Covered() <= maxTail
    && root == Some(iv.Root())
  }

  lemma CoverageOf(st: Store, iv: Interval, base: nat, roots: seq<Bytes>, p: Params)
    requires base >= 1 && roots != [] && base + |roots| <= SIZE
    requires Conserved(st, iv, base, roots) && RealProofValid(st, p)
    ensures CoveredUpTo(iv, base + |roots| - 1, st.lastAnchoredRoot, p.maxUnprovenTailBlocks)
  {
    RealProofOn(st, iv, base, roots, p);
  }

  /** Re-anchoring coverage: when RECOVERING goes to ANCHORED with the height heuristic false, all
      but at most MaxUnprovenTailBlocks of the interval's earlier blocks, counted from the SOVEREIGN
      block that opened it, lie in the prefix covered by recovery proofs that blocks of the interval
      delivered and that verified. */
  lemma ReanchoringCovered(net: Network, ds: seq<Decision>, i: nat)
    requires Legal(net, ds) && i < |ds| && Height(net, |ds|) <= SIZE
    requires Reanchors(net, ds, i) && !HeuristicValid(StoreAt(net, ds, i))
    ensures i > 0
    ensures CoveredUpTo(IntervalAt(net, ds, i), Height(net, i) - 1, StoreAt(net, ds, i).lastAnchoredRoot,
                        net.params.maxUnprovenTailBlocks)
    ensures Spans(IntervalAt(net, ds, i), net.initialHeight, States(net, ds, i))
    ensures LogProved(ds, net.initialHeight, i, IntervalAt(net, ds, i))
  {
    LedgerConserved(net, ds, i);
    LogFromProofs(net, ds, i);
    DecidedFollows(net, ds, i);
    IntervalBlocks(net, ds, i);
    CoverageOf(StoreAt(net, ds, i), IntervalAt(net, ds, i), net.initialHeight, Roots(ds, i), net.params);
  }

  lemma SubmittedStep(net: Network, ds: seq<Decision>, i: nat)
    requires Legal(net, ds) && i < |ds| && !Reanchors(net, ds, i)
    requires StoreAt(net, ds, i).hBtcSubmitted == 0 && StoreAt(net, ds, i).hBtcCurrent == 0
    ensures StoreAt(net, ds, i + 1).hBtcSubmitted == 0 && StoreAt(net, ds, i + 1).hBtcCurrent == 0
  {
    DecidedFollows(net, ds, i);
    DeliverKeeps(PreBlock(StoreAt(net, ds, i), ds[i].txs, ContextAt(net, ds, i), net.params), ds[i].msgs);
  }

  /** Until the chain has re-anchored once, no submission height is ever recorded, so the height
      heuristic cannot hold. */
  lemma {:induction false} HeuristicNeedsHistory(net: Network, ds: seq<Decision>, i: nat)
    requires Legal(net, ds) && i <= |ds|
    requires forall j :: 0 <= j < i ==> !Reanchors(net, ds, j)
    ensures StoreAt(net, ds, i).hBtcSubmitted == 0 && StoreAt(net, ds, i).hBtcCurrent == 0
    ensures !HeuristicValid(StoreAt(net, ds, i))
  {
    if i > 0 {
      HeuristicNeedsHistory(net, ds, i - 1);
      SubmittedStep(net, ds, i - 1);
    }
  }

  /** The checkpoint height of the latest block that re-anchored, or zero. */
  ghost function LastReanchored(net: Network, ds: seq<Decision>, i: nat): nat
    requires i <= |ds|
  {
    if i == 0 then 0
    else if Reanchors(net, ds, i - 1) && ds[i - 1].txs != [] && ds[i - 1].txs[0].Extended?
    then ds[i - 1].txs[0].ext.btcReceipt.checkpointBlockHeight
    else LastReanchored(net, ds, i - 1)
  }

  lemma ReanchoredStep(net: Network, ds: seq<Decision>, i: nat)
    requires Legal(net, ds) && i < |ds|
    requires StoreAt(net, ds, i).hBtcCurrent == LastReanchored(net, ds, i)
    ensures StoreAt(net, ds, i + 1).hBtcCurrent == LastReanchored(net, ds, i + 1)
  {
    DecidedFollows(net, ds, i);
    DeliverKeeps(PreBlock(StoreAt(net, ds, i), ds[i].txs, ContextAt(net, ds, i), net.params), ds[i].msgs);
  }

  /** The committed Bitcoin height is never a live reading: it is the checkpoint of the latest
      re-anchoring block. */
  lemma {:induction false} CommittedHeightIsLastReanchored(net: Network, ds: seq<Decision>, i: nat)
    requires Legal(net, ds) && i <= |ds|
    ensures StoreAt(net, ds, i).hBtcCurrent == LastReanchored(net, ds, i)
  {
    if i > 0 {
      CommittedHeightIsLastReanchored(net, ds, i - 1);
      ReanchoredStep(net, ds, i - 1);
    }
  }

  /** The block that re-anchors leaves both gaps closed, the failure flags down, no proof height
      and no tracked header. */
  lemma RecoveryResyncs(net: Network, ds: seq<Decision>, i: nat)
    requires Legal(net, ds) && i < |ds| && Reanchors(net, ds, i)
    ensures var st := PreBlock(StoreAt(net, ds, i), ds[i].txs, ContextAt(net, ds, i), net.params);
            && st.hBtcCurrent == st.hBtcAnchored && st.hEngramCurrent == st.hEngramVerified
            && !st.metrics.isDasFailed && !st.metrics.isAttestationFailed
            && st.realProofSubmittedHeight == 0 && st.headerHistory == map[]
  {
    DecidedFollows(net, ds, i);
  }

  /** The first return to ANCHORED of any run is always covered by accepted recovery proofs. */
  lemma FirstReanchoringProven(net: Network, ds: seq<Decision>, i: nat)
    requires Legal(net, ds) && i < |ds| && Height(net, |ds|) <= SIZE
    requires Reanchors(net, ds, i)
    requires forall j :: 0 <= j < i ==> !Reanchors(net, ds, j)
    ensures i > 0
    ensures CoveredUpTo(IntervalAt(net, ds, i), Height(net, i) - 1, StoreAt(net, ds, i).lastAnchoredRoot,
                        net.params.maxUnprovenTailBlocks)
    ensures LogProved(ds, net.initialHeight, i, IntervalAt(net, ds, i))
  {
    HeuristicNeedsHistory(net, ds, i);
    ReanchoringCovered(net, ds, i);
  }

  /** Block `i` claims a proof: it commits RECOVERING with a non-empty proof reference. */
  predicate Claims(ds: seq<Decision>, i: nat)
    requires i < |ds|
  {
    && ds[i].txs != [] && ds[i].txs[0].Extended?
    && ds[i].txs[0].ext.fsmState == Recovering && |ds[i].txs[0].ext.zkProofRef| > 0
  }

  /** What the latest claim recorded: the checkpoint of the last re-anchoring before it, or zero. */
  ghost function LastClaimed(net: Network, ds: seq<Decision>, i: nat): nat
    requires i <= |ds|
  {
    if i == 0 then 0
    else if Claims(ds, i - 1) then LastReanchored(net, ds, i - 1)
    else LastClaimed(net, ds, i - 1)
  }

  lemma ClaimedStep(net: Network, ds: seq<Decision>, i: nat)
    requires Legal(net, ds) && i < |ds|
    requires StoreAt(net, ds, i).hBtcSubmitted == LastClaimed(net, ds, i)
    ensures StoreAt(net, ds, i + 1).hBtcSubmitted == LastClaimed(net, ds, i + 1)
  {
    CommittedHeightIsLastReanchored(net, ds, i);
    DecidedFollows(net, ds, i);
    DeliverKeeps(PreBlock(StoreAt(net, ds, i), ds[i].txs, ContextAt(net, ds, i), net.params), ds[i].msgs);
  }

  /** The height heuristic in terms of history, in every reachable store: it holds exactly when the
      latest claim of a proof came after a re-anchoring at a positive checkpoint, and the committed anchor
      is not below that checkpoint. No recovery proof enters into it. */
  lemma {:induction false} HeuristicExactly(net: Network, ds: seq<Decision>, i: nat)
    requires Legal(net, ds) && i <= |ds|
    ensures StoreAt(net, ds, i).hBtcSubmitted == LastClaimed(net, ds, i)
    ensures HeuristicValid(StoreAt(net, ds, i)) <==> 0 < LastClaimed(net, ds, i) <= StoreAt(net, ds, i).hBtcAnchored
  {
    if i > 0 {
      HeuristicExactly(net, ds, i - 1);
      ClaimedStep(net, ds, i - 1);
    }
  }

  lemma {:induction false} UnclaimedIsZero(net: Network, ds: seq<Decision>, i: nat)
    requires Legal(net, ds) && i <= |ds|
    requires forall j, k :: 0 <= k < j < i && Claims(ds, j) ==> !Reanchors(net, ds, k)
    ensures LastClaimed(net, ds, i) == 0
  {
    if i > 0 {
      if Claims(ds, i - 1) {
        forall k | 0 <= k < i - 1 ensures !Reanchors(net, ds, k) {
        }
        HeuristicNeedsHistory(net, ds, i - 1);
        CommittedHeightIsLastReanchored(net, ds, i - 1);
      } else {
        UnclaimedIsZero(net, ds, i - 1);
      }
    }
  }

  /** A re-anchoring is certainly proven when no block has claimed a proof since the chain's first
      return to ANCHORED; the first return itself is such a case. */
  lemma UnclaimedReanchoringProven(net: Network, ds: seq<Decision>, i: nat)
    requires Legal(net, ds) && i < |ds| && Height(net, |ds|) <= SIZE
    requires Reanchors(net, ds, i)
    requires forall j, k :: 0 <= k < j < i && Claims(ds, j) ==> !Reanchors(net, ds, k)
    ensures i > 0
    ensures CoveredUpTo(IntervalAt(net, ds, i), Height(net, i) - 1, StoreAt(net, ds, i).lastAnchoredRoot,
                        net.params.maxUnprovenTailBlocks)
    ensures LogProved(ds, net.initialHeight, i, IntervalAt(net, ds, i))
  {
    UnclaimedIsZero(net, ds, i);
    HeuristicExactly(net, ds, i);
    ReanchoringCovered(net, ds, i);
  }

  /** Every reachable store that locks withdrawals holds a full-length root, as honest proposals
      at the hysteresis ceiling need. */
  lemma ReachableRooted(net: Network, ds: seq<Decision>, i: nat)
    requires Legal(net, ds) && i <= |ds|
    ensures Rooted(StoreAt(net, ds, i))
    ensures WithdrawLocked(StateAt(net, ds, i)) ==> |StoreAt(net, ds, i).lastAnchoredRoot.value| == 32
  {
    LedgerConserved(net, ds, i);
    var iv := IntervalAt(net, ds, i);
    if iv.Open? {
      var k := (if iv.log == [] then iv.first else iv.log[|iv.log| - 1].height) - net.initialHeight;
      assert iv.Root() == Roots(ds, i)[k] == ds[k].root;
      assert LegalAt(net, ds, k);
    }
  }

  /** A verified proof, 96 bytes of public inputs, from the current root to a tracked one. */
  ghost predicate GoodProof(st: Store, publicInputs: Bytes, proved: bool) {
    && proved && |publicInputs| == 96
    && st.lastAnchoredRoot == Some(publicInputs[0..32])
    && exists h :: h in st.headerHistory && st.headerHistory[h].stateRoot == publicInputs[32..64]
  }

  /** What a recovery-proof message does. A good proof moves the root, drops the headers up to the lowest
      one with the proven root and records that height; any other, in particular one that does not verify
      or is not 96 bytes long, changes nothing at all. */
  lemma ProofEffectExactly(st: Store, publicInputs: Bytes, proved: bool)
    ensures !GoodProof(st, publicInputs, proved) ==> Deliver(st, SubmitRecoveryProof(publicInputs, proved)) == st
    ensures GoodProof(st, publicInputs, proved) ==>
              var next, root := Deliver(st, SubmitRecoveryProof(publicInputs, proved)), publicInputs[32..64];
              var h := next.realProofSubmittedHeight;
              && h in st.headerHistory && st.headerHistory[h].stateRoot == root
              && (forall g :: g in st.headerHistory && g < h ==> st.headerHistory[g].stateRoot != root)
              && (forall g :: g in next.headerHistory <==> g in st.headerHistory && g > h)
              && (forall g :: g in next.headerHistory ==> next.headerHistory[g] == st.headerHistory[g])
              && next == st.(lastAnchoredRoot := Some(root), realProofSubmittedHeight := h,
                             headerHistory := next.headerHistory)
  {
    if |publicInputs| == 96 {
      var root := publicInputs[32..64];
      assert Matching(st, root) != {}
        <==> exists h :: h in st.headerHistory && st.headerHistory[h].stateRoot == root by {
        if h :| h in st.headerHistory && st.headerHistory[h].stateRoot == root {
          assert h in Matching(st, root);
        }
      }
      if Matching(st, root) != {} {
        var h := CheckpointHeight(st, root);
        assert h in Matching(st, root);
        assert forall g :: g in st.headerHistory && st.headerHistory[g].stateRoot == root ==> g in Matching(st, root);
      }
    }
  }

  lemma {:induction false} MsgsOnlyPrune(st: Store, msgs: seq<Msg>)
    ensures forall h :: h in DeliverAll(st, msgs).headerHistory ==>
              h in st.headerHistory && DeliverAll(st, msgs).headerHistory[h] == st.headerHistory[h]
  {
    if msgs != [] {
      MsgsOnlyPrune(st, msgs[..|msgs| - 1]);
    }
  }

  /** Each tracked header was written by the block of its height and records the state that block
      committed. */
  ghost predicate Recorded(net: Network, ds: seq<Decision>, headers: map<nat, Header>, i: nat)
    requires i <= |ds|
  {
    forall h :: h in headers ==>
      && net.initialHeight <= h < Height(net, i)
      && headers[h].fsmState == StateAt(net, ds, h - net.initialHeight + 1)
  }

  lemma RecordedGrows(net: Network, ds: seq<Decision>, before: map<nat, Header>, after: map<nat, Header>,
                      k: nat, i: nat)
    requires i == k + 1 <= |ds| && Recorded(net, ds, before, k)
    requires forall h :: h in after ==>
               || (h in before && after[h] == before[h])
               || (h == Height(net, k) && after[h].fsmState == StateAt(net, ds, i))
    ensures Recorded(net, ds, after, i)
  {
  }

  /** The headers after a commit are earlier ones and the block's own. */
  lemma CommitHeader(st: Store, txs: seq<Tx>, ctx: BlockContext, p: Params)
    requires txs != [] && txs[0].Extended?
    ensures var headers := PreBlock(st, txs, ctx, p).headerHistory;
            forall h :: h in headers ==>
              if h == ctx.height && WithdrawLocked(txs[0].ext.fsmState) then headers[h].fsmState == txs[0].ext.fsmState
              else h in st.headerHistory && headers[h] == st.headerHistory[h]
  {
  }

  lemma {:induction false} HeadersRecordStates(net: Network, ds: seq<Decision>, i: nat)
    requires Legal(net, ds) && i <= |ds|
    ensures Recorded(net, ds, StoreAt(net, ds, i).headerHistory, i)
  {
    if i > 0 {
      var k := i - 1;
      var committed := PreBlock(StoreAt(net, ds, k), ds[k].txs, ContextAt(net, ds, k), net.params);
      HeadersRecordStates(net, ds, k);
      DecidedFollows(net, ds, k);
      CommitHeader(StoreAt(net, ds, k), ds[k].txs, ContextAt(net, ds, k), net.params);
      MsgsOnlyPrune(committed, ds[k].msgs);
      RecordedGrows(net, ds, StoreAt(net, ds, k).headerHistory, StoreAt(net, ds, i).headerHistory, k, i);
    }
  }

  function IntervalLog(iv: Interval): seq<Checkpoint> {
    if iv.Open? then iv.log else []
  }

  /** The standing proof after a block, from the one before: the last of any newly logged, or none after
      leaving RECOVERING. */
  function StandingAfter(standing: nat, current: State, target: State, before: seq<Checkpoint>,
                         after: seq<Checkpoint>): nat {
    if |after| > |before| then after[|after| - 1].height
    else if current == Recovering && target != Recovering then 0
    else standing
  }

  /** The checkpoint of the latest proof the interval has logged since the chain last left RECOVERING, or
      zero: read off the log and the states. */
  ghost function StandingProof(net: Network, ds: seq<Decision>, i: nat): nat
    requires i <= |ds|
  {
    if i == 0 then 0
    else
      StandingAfter(StandingProof(net, ds, i - 1), StateAt(net, ds, i - 1), StateAt(net, ds, i),
                    IntervalLog(IntervalAt(net, ds, i - 1)), IntervalLog(IntervalAt(net, ds, i)))
  }

  lemma {:induction false} MsgsMoveProof(iv: Interval, st: Store, base: nat, roots: seq<Bytes>, msgs: seq<Msg>)
    requires base >= 1 && Conserved(st, iv, base, roots)
    ensures var iv', st' := OnMsgs(iv, st, msgs), DeliverAll(st, msgs);
            && (iv.Open? <==> iv'.Open?)
            && (iv.Open? ==> |iv.log| <= |iv'.log|)
            && st'.realProofSubmittedHeight
               == if iv.Open? && |iv'.log| > |iv.log| then iv'.Covered() else st.realProofSubmittedHeight
  {
    if msgs != [] {
      var before, msg := msgs[..|msgs| - 1], msgs[|msgs| - 1];
      MsgsMoveProof(iv, st, base, roots, before);
      MsgsConserve(st, iv, base, roots, before);
      var st', iv' := DeliverAll(st, before), OnMsgs(iv, st, before);
      if msg.SubmitRecoveryProof? && ProofAccepted(st', msg.publicInputs, msg.proved) {
        assert CheckpointHeight(st', msg.publicInputs[32..64]) in Matching(st', msg.publicInputs[32..64]);
      }
    }
  }

  /** A commit keeps the log of an interval it does not end, and drops the proof height exactly on leaving
      RECOVERING. */
  lemma CommittedInterval(net: Network, ds: seq<Decision>, i: nat)
    requires Legal(net, ds) && i < |ds|
    ensures var st, iv, ctx := StoreAt(net, ds, i), IntervalAt(net, ds, i), ContextAt(net, ds, i);
            var committed := PreBlock(st, ds[i].txs, ctx, net.params);
            var kept := OnCommit(iv, st.machine.state, committed.machine.state, ctx);
            && Conserved(committed, kept, net.initialHeight, Roots(ds, i + 1))
            && (kept.Open? ==> kept.log == IntervalLog(iv))
            && committed.realProofSubmittedHeight
               == if st.machine.state == Recovering && committed.machine.state != Recovering then 0
                  else st.realProofSubmittedHeight
  {
    LedgerConserved(net, ds, i);
    BlockCommits(net, ds, i);
    DecidedFollows(net, ds, i);
  }

  lemma StandingStep(net: Network, ds: seq<Decision>, i: nat)
    requires Legal(net, ds) && i < |ds|
    ensures StoreAt(net, ds, i + 1).realProofSubmittedHeight
         == StandingAfter(StoreAt(net, ds, i).realProofSubmittedHeight, StateAt(net, ds, i), StateAt(net, ds, i + 1),
                          IntervalLog(IntervalAt(net, ds, i)), IntervalLog(IntervalAt(net, ds, i + 1)))
  {
    var st, iv, ctx := StoreAt(net, ds, i), IntervalAt(net, ds, i), ContextAt(net, ds, i);
    var committed := PreBlock(st, ds[i].txs, ctx, net.params);
    var kept := OnCommit(iv, st.machine.state, committed.machine.state, ctx);
    CommittedInterval(net, ds, i);
    DeliverKeeps(committed, ds[i].msgs);
    MsgsMoveProof(kept, committed, net.initialHeight, Roots(ds, i + 1), ds[i].msgs);
  }

  /** The recorded proof height in terms of history. */
  lemma {:induction false} StandingExactly(net: Network, ds: seq<Decision>, i: nat)
    requires Legal(net, ds) && i <= |ds|
    ensures StoreAt(net, ds, i).realProofSubmittedHeight == StandingProof(net, ds, i)
  {
    if i > 0 {
      var k := i - 1;
      StandingExactly(net, ds, k);
      StandingStep(net, ds, k);
      assert StandingProof(net, ds, i)
          == StandingAfter(StandingProof(net, ds, k), StateAt(net, ds, k), StateAt(net, ds, i),
                           IntervalLog(IntervalAt(net, ds, k)), IntervalLog(IntervalAt(net, ds, i)));
    }
  }

  /** The proof flag in terms of history, in every reachable store: RECOVERING, and either the height
      heuristic's history holds, or a proof stands since the chain last left RECOVERING and between one and
      MaxUnprovenTailBlocks blocks of the interval are unproven. */
  lemma FlagExactly(net: Network, ds: seq<Decision>, i: nat)
    requires Legal(net, ds) && i <= |ds| && Height(net, |ds|) <= SIZE
    ensures var st, iv := StoreAt(net, ds, i), IntervalAt(net, ds, i);
            ProofFlag(st, net.params)
            <==> && StateAt(net, ds, i) == Recovering
                 && (|| 0 < LastClaimed(net, ds, i) <= st.hBtcAnchored
                     || (&& StandingProof(net, ds, i) > 0 && iv.Open?
                         && 1 <= Height(net, i) - 1 - iv.Covered() <= net.params.maxUnprovenTailBlocks))
  {
    HeuristicExactly(net, ds, i);
    RealProofExactly(net, ds, i);
    StandingExactly(net, ds, i);
  }
}
