/** The Bitcoin anchor tracker on a growing chain without reorganisations. */
module AnchorTracking {
  import opened Uint64
  import opened Fsm
  import opened Receipts
  import opened KeeperStore

  /** The tracker's mutex-protected fields; an empty txid means none pending. */
  datatype Status = Status(pendingTxid: string, lastConfirmedHeight: nat, hasConfirmed: bool)

  const Fresh: Status := Status("", 0, false)

  /** The answer to a confirmation query for the pending transaction. */
  datatype Confirmation = RpcError | Unmined | Mined(confirmations: nat, height: nat)

  /** The pending transaction is deep enough to report. */
  predicate Deep(c: Confirmation, k: nat) {
    c.Mined? && c.confirmations >= Inc(k)
  }

  /** This call goes on to broadcast a new checkpoint. */
  predicate Broadcasts(s: Status, c: Confirmation, paused: bool, k: nat) {
    (s.pendingTxid == "" || Deep(c, k)) && !paused
  }

  function AfterCall(s: Status, c: Confirmation, paused: bool, sent: Option<string>, k: nat): Status {
    var confirmed := if s.pendingTxid != "" && Deep(c, k) then Status("", c.height, true) else s;
    if Broadcasts(s, c, paused, k) && sent.Some? then confirmed.(pendingTxid := sent.value) else confirmed
  }

  class AnchorTracker {
    const kDeepFinality: nat
    var pendingTxid: string
    var lastConfirmedHeight: nat
    var hasConfirmed: bool

    function View(): Status
      reads this
    {
      Status(pendingTxid, lastConfirmedHeight, hasConfirmed)
    }

    constructor (k: nat)
      ensures View() == Fresh && kDeepFinality == k
    {
      kDeepFinality := k;
      pendingTxid, lastConfirmedHeight, hasConfirmed := "", 0, false;
    }

    /** One call per block; `sent` is the outcome of a broadcast, if this call attempts one. */
    method MaybeSubmit(confirmation: Confirmation, paused: bool, sent: Option<string>)
      modifies this
      ensures View() == AfterCall(old(View()), confirmation, paused, sent, kDeepFinality)
    {
      if pendingTxid != "" {
        if confirmation.RpcError? {
          return;
        }
        if confirmation.Unmined? {
          return;
        }
        if confirmation.confirmations < Inc(kDeepFinality) {
          return;
        }
        lastConfirmedHeight := confirmation.height;
        hasConfirmed := true;
        pendingTxid := "";
      }
      if paused {
        return;
      }
      if sent.None? {
        return;
      }
      pendingTxid := sent.value;
    }
  }

  /** Bitcoin as the checkpoints see it: the tip, the unmined checkpoint transactions and the
      heights of the mined ones, every one of which carries the tag. */
  datatype Bitcoin = Bitcoin(tip: nat, mempool: set<string>, mined: map<string, nat>)

  /** A validator's own check of a claimed anchor height. */
  predicate VerifyAnchor(b: Bitcoin, height: nat, k: nat) {
    b.tip >= height && b.tip - height >= k && height in b.mined.Values
  }

  /** `reported` is the history of heights the tracker confirmed. */
  datatype World = World(status: Status, bitcoin: Bitcoin, reported: seq<nat>)

  /** A block mines some waiting transactions, another validator broadcasts a checkpoint, or the
      tracker is called. */
  datatype Event =
    | Mine(txids: set<string>)
    | Foreign(txid: string)
    | Call(reachable: bool, paused: bool, sent: Option<string>)

  predicate Unused(b: Bitcoin, txid: string) {
    txid != "" && txid !in b.mempool && txid !in b.mined
  }

  predicate Enabled(w: World, e: Event) {
    match e
    case Mine(txids) => txids <= w.bitcoin.mempool
    case Foreign(txid) => Unused(w.bitcoin, txid)
    case Call(_, _, sent) => sent.Some? ==> Unused(w.bitcoin, sent.value)
  }

  /** Bitcoin counts the block a transaction is in as its first confirmation. */
  function Confirm(b: Bitcoin, txid: string, reachable: bool): Confirmation {
    if !reachable then RpcError
    else if txid in b.mined && b.mined[txid] <= b.tip then Mined(b.tip - b.mined[txid] + 1, b.mined[txid])
    else Unmined
  }

  function Next(w: World, e: Event, k: nat): World {
    var b := w.bitcoin;
    match e
    case Mine(txids) =>
      w.(bitcoin := Bitcoin(b.tip + 1, b.mempool - txids, b.mined + map tx | tx in txids :: b.tip + 1))
    case Foreign(txid) => w.(bitcoin := b.(mempool := b.mempool + {txid}))
    case Call(reachable, paused, sent) =>
      var c := Confirm(b, w.status.pendingTxid, reachable);
      World(AfterCall(w.status, c, paused, sent, k),
            if Broadcasts(w.status, c, paused, k) && sent.Some? then b.(mempool := b.mempool + {sent.value}) else b,
            if w.status.pendingTxid != "" && Deep(c, k) then w.reported + [c.height] else w.reported)
  }

  predicate StepsAt(ws: seq<World>, es: seq<Event>, k: nat, i: nat)
    requires |ws| == |es| + 1 && i < |es|
  {
    Enabled(ws[i], es[i]) && ws[i + 1] == Next(ws[i], es[i], k)
  }

  /** A run from a tracker with no history and any Bitcoin tip. */
  predicate Run(ws: seq<World>, es: seq<Event>, k: nat) {
    && |ws| == |es| + 1
    && k < MAX
    && ws[0].status == Fresh && ws[0].reported == []
    && ws[0].bitcoin.mempool == {} && ws[0].bitcoin.mined == map[]
    && (forall i :: 0 <= i < |es| ==> StepsAt(ws, es, k, i))
  }

  /** The least height the pending checkpoint can have been or be mined at. */
  predicate PendingAbove(w: World, floor: int) {
    var b, txid := w.bitcoin, w.status.pendingTxid;
    txid != "" ==>
      if txid in b.mined then b.mined[txid] > floor else txid in b.mempool && b.tip >= floor
  }

  predicate Spaced(heights: seq<nat>, k: nat) {
    forall i :: 0 < i < |heights| ==> heights[i] > heights[i - 1] + k
  }

  predicate Consistent(w: World, k: nat) {
    var s, b := w.status, w.bitcoin;
    && (forall tx :: tx in b.mined ==> b.mined[tx] <= b.tip && tx !in b.mempool)
    && "" !in b.mempool
    && (s.hasConfirmed <==> w.reported != [])
    && (forall i :: 0 <= i < |w.reported| ==> VerifyAnchor(b, w.reported[i], k))
    && (w.reported != [] ==>
          && s.lastConfirmedHeight == w.reported[|w.reported| - 1]
          && PendingAbove(w, s.lastConfirmedHeight + k))
    && Spaced(w.reported, k)
    && PendingAbove(w, -1)
  }

  lemma GrowthKeepsAnchors(b: Bitcoin, b': Bitcoin, height: nat, k: nat)
    requires VerifyAnchor(b, height, k)
    requires b.tip <= b'.tip && forall tx :: tx in b.mined ==> tx in b'.mined && b'.mined[tx] == b.mined[tx]
    ensures VerifyAnchor(b', height, k)
  {
    var tx :| tx in b.mined && b.mined[tx] == height;
    assert tx in b'.mined && b'.mined[tx] == height;
  }

  lemma NextConsistent(w: World, e: Event, k: nat)
    requires k < MAX && Consistent(w, k) && Enabled(w, e)
    ensures Consistent(Next(w, e, k), k)
    ensures w.reported <= Next(w, e, k).reported
  {
    var w' := Next(w, e, k);
    var b, b' := w.bitcoin, w'.bitcoin;
    forall i | 0 <= i < |w.reported| ensures VerifyAnchor(b', w.reported[i], k) {
      GrowthKeepsAnchors(b, b', w.reported[i], k);
    }
    if e.Call? {
      var c := Confirm(b, w.status.pendingTxid, e.reachable);
      if w.status.pendingTxid != "" && Deep(c, k) {
        assert c.height == b.mined[w.status.pendingTxid];
        assert VerifyAnchor(b', c.height, k);
      }
    }
  }

  lemma {:induction false} AlwaysConsistent(ws: seq<World>, es: seq<Event>, k: nat, i: nat)
    requires Run(ws, es, k) && i <= |es|
    ensures Consistent(ws[i], k)
  {
    if i > 0 {
      AlwaysConsistent(ws, es, k, i - 1);
      assert StepsAt(ws, es, k, i - 1);
      NextConsistent(ws[i - 1], es[i - 1], k);
    }
  }

  lemma {:induction false} ReportsPersist(ws: seq<World>, es: seq<Event>, k: nat, i: nat, j: nat)
    requires Run(ws, es, k) && i <= j <= |es|
    ensures ws[i].reported <= ws[j].reported
    decreases j
  {
    if i < j {
      ReportsPersist(ws, es, k, i, j - 1);
      AlwaysConsistent(ws, es, k, j - 1);
      assert StepsAt(ws, es, k, j - 1);
      NextConsistent(ws[j - 1], es[j - 1], k);
    }
  }

  /** Every height the tracker reports passes every validator's own check, then and at every
      later tip. */
  lemma ReportedAnchorsVerify(ws: seq<World>, es: seq<Event>, k: nat, i: nat, j: nat)
    requires Run(ws, es, k) && i <= j <= |es|
    requires ws[i].status.hasConfirmed
    ensures VerifyAnchor(ws[j].bitcoin, ws[i].status.lastConfirmedHeight, k)
  {
    AlwaysConsistent(ws, es, k, i);
    AlwaysConsistent(ws, es, k, j);
    ReportsPersist(ws, es, k, i, j);
    var last := |ws[i].reported| - 1;
    assert ws[j].reported[last] == ws[i].reported[last];
  }

  /** Successive confirmed heights differ by more than KDeepFinality. */
  lemma ReportsSpaced(ws: seq<World>, es: seq<Event>, k: nat, i: nat, a: nat)
    requires Run(ws, es, k) && i <= |es|
    requires a + 1 < |ws[i].reported|
    ensures ws[i].reported[a + 1] > ws[i].reported[a] + k
  {
    AlwaysConsistent(ws, es, k, i);
  }

  /** What a call does with its pending checkpoint and whether it broadcasts: a reachable, mined
      checkpoint at depth KDeepFinality below the tip is reported; then, or when none is pending, an
      unpaused tracker broadcasts, and what was sent becomes pending. Otherwise nothing changes. */
  lemma CallDecides(ws: seq<World>, es: seq<Event>, k: nat, i: nat)
    requires Run(ws, es, k) && i < |es| && es[i].Call?
    ensures var b, before, after, e := ws[i].bitcoin, ws[i].status, ws[i + 1].status, es[i];
            var own := before.pendingTxid;
            var deep := own != "" && e.reachable && own in b.mined && b.mined[own] + k <= b.tip;
            var sends := (own == "" || deep) && !e.paused && e.sent.Some?;
            && (if deep then
                  && ws[i + 1].reported == ws[i].reported + [b.mined[own]]
                  && after.hasConfirmed && after.lastConfirmedHeight == b.mined[own]
                else
                  && ws[i + 1].reported == ws[i].reported
                  && after.hasConfirmed == before.hasConfirmed
                  && after.lastConfirmedHeight == before.lastConfirmedHeight)
            && after.pendingTxid == (if sends then e.sent.value else if deep then "" else own)
            && ws[i + 1].bitcoin == if sends then b.(mempool := b.mempool + {e.sent.value}) else b
  {
    AlwaysConsistent(ws, es, k, i);
    assert StepsAt(ws, es, k, i);
  }

  /** For a mined checkpoint, the depth check and the receipt's freshness check hold together
      exactly for tips from height + K to height + K + 2 + round. */
  lemma AnchorWindow(b: Bitcoin, height: nat, k: nat, round: nat, anchored: nat, healthy: bool)
    requires height in b.mined.Values && anchored <= height
    requires Legible(BtcMark(b.tip, k, round))
    ensures var receipt := BtcReceipt(height, ExpectedBlockHash(height));
            VerifyAnchor(b, height, k) && VerifyBtcReceipt(receipt, Anchored, healthy, b.tip, anchored, round, k)
            <==> height + k <= b.tip <= height + k + 2 + round
  {
    BtcWindow(BtcReceipt(height, ExpectedBlockHash(height)), Anchored, healthy, b.tip, anchored, round, k);
  }
}
