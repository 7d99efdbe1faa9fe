/** Forced inclusion over runs of decided blocks. */
module Inclusion {
  import opened Uint64
  import opened Fsm
  import opened KeeperStore
  import opened Proposals
  import opened Chain

  ghost function Committed(net: Network, ds: seq<Decision>, i: nat): Store
    requires i < |ds|
  {
    PreBlock(StoreAt(net, ds, i), ds[i].txs, ContextAt(net, ds, i), net.params)
  }

  /** Block `b` puts `tx` in the forced queue. */
  ghost predicate QueuedBy(net: Network, ds: seq<Decision>, b: nat, tx: Tx)
    requires b < |ds|
  {
    tx !in Committed(net, ds, b).forcedTxQueue && tx in StoreAt(net, ds, b + 1).forcedTxQueue
  }

  predicate OmittedFrom(ds: seq<Decision>, tx: Tx, from: nat, to: nat)
    requires from <= to <= |ds|
  {
    forall j :: from <= j < to ==> tx !in ds[j].txs
  }

  lemma CommitKeepsQueue(st: Store, txs: seq<Tx>, ctx: BlockContext, p: Params)
    ensures PreBlock(st, txs, ctx, p).forcedTxQueue == TrackForced(st, txs, p.maxIgnoreRounds).forcedTxQueue
    ensures PreBlock(st, txs, ctx, p).txIgnoredRounds == TrackForced(st, txs, p.maxIgnoreRounds).txIgnoredRounds
  {
  }

  /** Only queued transactions have counters. */
  lemma {:induction false} CountersAreQueued(net: Network, ds: seq<Decision>, i: nat)
    requires i <= |ds|
    ensures StoreAt(net, ds, i).txIgnoredRounds.Keys <= StoreAt(net, ds, i).forcedTxQueue
  {
    if i > 0 {
      CountersAreQueued(net, ds, i - 1);
      CommitKeepsQueue(StoreAt(net, ds, i - 1), ds[i - 1].txs, ContextAt(net, ds, i - 1), net.params);
      DeliverKeeps(Committed(net, ds, i - 1), ds[i - 1].msgs);
    }
  }

  lemma FreshCounter(net: Network, ds: seq<Decision>, b: nat, tx: Tx)
    requires b < |ds| && QueuedBy(net, ds, b, tx)
    ensures IgnoredRounds(StoreAt(net, ds, b + 1), tx) == 0
  {
    CountersAreQueued(net, ds, b);
    CommitKeepsQueue(StoreAt(net, ds, b), ds[b].txs, ContextAt(net, ds, b), net.params);
    DeliverKeeps(Committed(net, ds, b), ds[b].msgs);
  }

  lemma OmissionStep(net: Network, ds: seq<Decision>, i: nat, tx: Tx)
    requires i < |ds| && tx in StoreAt(net, ds, i).forcedTxQueue && tx !in ds[i].txs
    ensures tx in StoreAt(net, ds, i + 1).forcedTxQueue
    ensures IgnoredRounds(StoreAt(net, ds, i + 1), tx)
         == NextIgnored(IgnoredRounds(StoreAt(net, ds, i), tx), net.params.maxIgnoreRounds)
  {
    CommitKeepsQueue(StoreAt(net, ds, i), ds[i].txs, ContextAt(net, ds, i), net.params);
    DeliverKeeps(Committed(net, ds, i), ds[i].msgs);
  }

  lemma NextIgnoredSaturates(k: nat, limit: nat)
    requires limit < HALF
    ensures NextIgnored(Min(k, limit + 1), limit) == Min(k + 1, limit + 1)
  {
  }

  lemma {:induction false} CountFromZero(net: Network, ds: seq<Decision>, from: nat, i: nat, tx: Tx)
    requires net.params.Sized() && from <= i <= |ds|
    requires tx in StoreAt(net, ds, from).forcedTxQueue && IgnoredRounds(StoreAt(net, ds, from), tx) == 0
    requires OmittedFrom(ds, tx, from, i)
    ensures tx in StoreAt(net, ds, i).forcedTxQueue
    ensures IgnoredRounds(StoreAt(net, ds, i), tx) == Min(i - from, net.params.maxIgnoreRounds + 1)
    decreases i
  {
    if from < i {
      CountFromZero(net, ds, from, i - 1, tx);
      OmissionStep(net, ds, i - 1, tx);
      NextIgnoredSaturates(i - 1 - from, net.params.maxIgnoreRounds);
    }
  }

  /** While it is left out, a queued transaction's counter is the number of committed blocks that
      omitted it, stopping at one above the limit. */
  lemma CounterCountsOmissions(net: Network, ds: seq<Decision>, b: nat, i: nat, tx: Tx)
    requires net.params.Sized() && b < i <= |ds| && QueuedBy(net, ds, b, tx)
    requires OmittedFrom(ds, tx, b + 1, i)
    ensures tx in StoreAt(net, ds, i).forcedTxQueue
    ensures IgnoredRounds(StoreAt(net, ds, i), tx) == Min(i - (b + 1), net.params.maxIgnoreRounds + 1)
  {
    FreshCounter(net, ds, b, tx);
    CountFromZero(net, ds, b + 1, i, tx);
  }

  /** Some honest voter accepted block `i` at a round where censorship is still checked. */
  ghost predicate EarlyHonest(net: Network, ds: seq<Decision>, i: nat)
    requires i < |ds|
  {
    exists v :: v in HonestVoters(net, ds[i]) && ds[i].votes[v].round < net.params.maxCensorshipRounds
  }

  /** An overdue transaction is in every block an honest voter accepts early. */
  lemma OverdueIncluded(net: Network, ds: seq<Decision>, i: nat, tx: Tx)
    requires Legal(net, ds) && i < |ds| && EarlyHonest(net, ds, i)
    requires Overdue(StoreAt(net, ds, i), tx, net.params)
    ensures tx in ds[i].txs
  {
    var v :| v in HonestVoters(net, ds[i]) && ds[i].votes[v].round < net.params.maxCensorshipRounds;
    assert LegalAt(net, ds, i);
    assert VoteHolds(net, StoreAt(net, ds, i), ds[i], Height(net, i), v);
    var branch := Refresh(StoreAt(net, ds, i), ds[i].votes[v].readings, Height(net, i), net.params);
    assert Overdue(branch, tx, net.params);
    assert !Censors(branch, ds[i].txs[1..], net.params);
  }

  /** Forced inclusion: a transaction queued by block `b` appears in one of the next
      MaxIgnoreRounds + 1 blocks, when each of these had an honest acceptance at a round below
      MaxCensorshipRounds. */
  lemma ForcedInclusion(net: Network, ds: seq<Decision>, b: nat, tx: Tx)
    requires Legal(net, ds) && b + 1 + net.params.maxIgnoreRounds < |ds|
    requires QueuedBy(net, ds, b, tx)
    requires forall j :: b + 1 <= j <= b + 1 + net.params.maxIgnoreRounds ==> EarlyHonest(net, ds, j)
    ensures exists j :: b + 1 <= j <= b + 1 + net.params.maxIgnoreRounds && tx in ds[j].txs
  {
    var last := b + 1 + net.params.maxIgnoreRounds;
    if OmittedFrom(ds, tx, b + 1, last) {
      CounterCountsOmissions(net, ds, b, last, tx);
      assert Overdue(StoreAt(net, ds, last), tx, net.params);
      OverdueIncluded(net, ds, last, tx);
    }
  }

  /** A block that holds the transaction takes it, and its counter, off the books. */
  lemma InclusionDequeues(net: Network, ds: seq<Decision>, i: nat, tx: Tx)
    requires i < |ds| && tx in StoreAt(net, ds, i).forcedTxQueue && tx in ds[i].txs
    ensures tx !in Committed(net, ds, i).forcedTxQueue && tx !in Committed(net, ds, i).txIgnoredRounds
  {
    CommitKeepsQueue(StoreAt(net, ds, i), ds[i].txs, ContextAt(net, ds, i), net.params);
  }

  /** Block `b` delivers a message that submits `tx`, and it decodes. */
  predicate SubmittedBy(ds: seq<Decision>, b: nat, tx: Tx)
    requires b < |ds|
  {
    SubmitForcedTx(tx, true) in ds[b].msgs
  }

  lemma {:induction false} DeliveredQueue(st: Store, msgs: seq<Msg>, tx: Tx)
    ensures tx in DeliverAll(st, msgs).forcedTxQueue <==> tx in st.forcedTxQueue || SubmitForcedTx(tx, true) in msgs
  {
    if msgs != [] {
      DeliveredQueue(st, msgs[..|msgs| - 1], tx);
      assert msgs == msgs[..|msgs| - 1] + [msgs[|msgs| - 1]];
    }
  }

  /** Some block up to `i` submitted the transaction, and no later one has held it. */
  ghost predicate Outstanding(ds: seq<Decision>, i: nat, tx: Tx)
    requires i <= |ds|
  {
    exists b :: 0 <= b < i && SubmittedBy(ds, b, tx) && OmittedFrom(ds, tx, b + 1, i)
  }

  lemma QueueStep(net: Network, ds: seq<Decision>, i: nat, tx: Tx)
    requires i < |ds|
    ensures tx in StoreAt(net, ds, i + 1).forcedTxQueue
       <==> SubmittedBy(ds, i, tx) || (tx in StoreAt(net, ds, i).forcedTxQueue && tx !in ds[i].txs)
  {
    CommitKeepsQueue(StoreAt(net, ds, i), ds[i].txs, ContextAt(net, ds, i), net.params);
    DeliveredQueue(Committed(net, ds, i), ds[i].msgs, tx);
  }

  lemma OutstandingStep(ds: seq<Decision>, i: nat, i': nat, tx: Tx)
    requires i < |ds| && i' == i + 1
    ensures Outstanding(ds, i', tx) <==> SubmittedBy(ds, i, tx) || (Outstanding(ds, i, tx) && tx !in ds[i].txs)
  {
    if Outstanding(ds, i', tx) {
      var b :| 0 <= b < i' && SubmittedBy(ds, b, tx) && OmittedFrom(ds, tx, b + 1, i');
      assert b < i ==> OmittedFrom(ds, tx, b + 1, i) && tx !in ds[i].txs;
    }
    if SubmittedBy(ds, i, tx) {
      assert OmittedFrom(ds, tx, i + 1, i');
    }
    if Outstanding(ds, i, tx) && tx !in ds[i].txs {
      var b :| 0 <= b < i && SubmittedBy(ds, b, tx) && OmittedFrom(ds, tx, b + 1, i);
      assert OmittedFrom(ds, tx, b + 1, i');
    }
  }

  /** The forced queue in terms of history: after every run of blocks it holds exactly the transactions
      that some block submitted and no later block has held. */
  lemma {:induction false} QueueExactly(net: Network, ds: seq<Decision>, i: nat, tx: Tx)
    requires i <= |ds|
    ensures tx in StoreAt(net, ds, i).forcedTxQueue <==> Outstanding(ds, i, tx)
  {
    if i > 0 {
      QueueExactly(net, ds, i - 1, tx);
      QueueStep(net, ds, i - 1, tx);
      OutstandingStep(ds, i - 1, i, tx);
    }
  }

  lemma NextIgnoredGrows(count: nat, k: nat, limit: nat)
    requires limit < HALF && Min(k, limit + 1) <= count <= limit + 1
    ensures NextIgnored(count, limit) >= Min(k + 1, limit + 1)
  {
  }

  lemma {:induction false} CountBounded(net: Network, ds: seq<Decision>, i: nat, tx: Tx)
    requires net.params.Sized() && i <= |ds|
    ensures IgnoredRounds(StoreAt(net, ds, i), tx) <= net.params.maxIgnoreRounds + 1
  {
    if i > 0 {
      CountBounded(net, ds, i - 1, tx);
      CountersAreQueued(net, ds, i - 1);
      CommitKeepsQueue(StoreAt(net, ds, i - 1), ds[i - 1].txs, ContextAt(net, ds, i - 1), net.params);
      DeliverKeeps(Committed(net, ds, i - 1), ds[i - 1].msgs);
    }
  }

  lemma CountStep(net: Network, ds: seq<Decision>, i: nat, i': nat, tx: Tx, k: nat)
    requires net.params.Sized() && i < |ds| && i' == i + 1
    requires tx in StoreAt(net, ds, i).forcedTxQueue && tx !in ds[i].txs
    requires IgnoredRounds(StoreAt(net, ds, i), tx) >= Min(k, net.params.maxIgnoreRounds + 1)
    ensures tx in StoreAt(net, ds, i').forcedTxQueue
    ensures IgnoredRounds(StoreAt(net, ds, i'), tx) >= Min(k + 1, net.params.maxIgnoreRounds + 1)
  {
    CountBounded(net, ds, i, tx);
    OmissionStep(net, ds, i, tx);
    NextIgnoredGrows(IgnoredRounds(StoreAt(net, ds, i), tx), k, net.params.maxIgnoreRounds);
  }

  lemma {:induction false} CountAtLeast(net: Network, ds: seq<Decision>, from: nat, i: nat, tx: Tx)
    requires net.params.Sized() && from <= i <= |ds|
    requires tx in StoreAt(net, ds, from).forcedTxQueue
    requires OmittedFrom(ds, tx, from, i)
    ensures tx in StoreAt(net, ds, i).forcedTxQueue
    ensures IgnoredRounds(StoreAt(net, ds, i), tx) >= Min(i - from, net.params.maxIgnoreRounds + 1)
    decreases i
  {
    if from < i {
      CountAtLeast(net, ds, from, i - 1, tx);
      CountStep(net, ds, i - 1, i, tx, i - 1 - from);
    }
  }

  /** Forced inclusion, from the submission on: a transaction submitted in block `b`, for the first time
      or again, appears in one of the next MaxIgnoreRounds + 1 blocks when each of these had an honest
      acceptance at a round below MaxCensorshipRounds. */
  lemma SubmissionIncluded(net: Network, ds: seq<Decision>, b: nat, tx: Tx)
    requires Legal(net, ds) && b + 1 + net.params.maxIgnoreRounds < |ds|
    requires SubmittedBy(ds, b, tx)
    requires forall j :: b + 1 <= j <= b + 1 + net.params.maxIgnoreRounds ==> EarlyHonest(net, ds, j)
    ensures exists j :: b + 1 <= j <= b + 1 + net.params.maxIgnoreRounds && tx in ds[j].txs
  {
    var last := b + 1 + net.params.maxIgnoreRounds;
    if OmittedFrom(ds, tx, b + 1, last) {
      QueueStep(net, ds, b, tx);
      CountAtLeast(net, ds, b + 1, last, tx);
      assert Overdue(StoreAt(net, ds, last), tx, net.params);
      OverdueIncluded(net, ds, last, tx);
    }
  }
}
