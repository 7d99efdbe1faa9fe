/** A validator's sensors: its own Bitcoin anchor tracker and DA publisher, and what one refresh reads
    from them and from the outside world. */
module SensorBundle {
  import opened KeeperStore
  import opened Proposals
  import AnchorTracking
  import DaPublisher

  /** The trackers' fields, where wired. */
  datatype Trackers = Trackers(
    anchor: Option<AnchorTracking.Status>, kDeepFinality: nat, publisher: Option<DaPublisher.Status>)

  /** A background submission, started at `height`, that finishes. */
  datatype Completion = Completion(height: nat, result: Option<nat>)

  /** What the outside world answers during one refresh. Without a publisher the DA sensor shows the
      fixed flags. `finish` is a submission that finishes after the publisher's call and before the DA
      flags are read. */
  datatype Answers = Answers(
    btc: BtcSource,
    confirmation: AnchorTracking.Confirmation,
    paused: bool,
    sent: Option<string>,
    probe: DaPublisher.Probe,
    finish: Option<Completion>,
    probeHealthy: bool,
    available: bool,
    dasFailed: bool,
    attestationFailed: bool,
    p2p: P2PSnapshot,
    anchorHolds: bool,
    claimHolds: bool)

  function PublisherPolled(s: DaPublisher.Status, a: Answers, height: nat): DaPublisher.Status {
    var called := DaPublisher.AfterCall(s, height, a.probe);
    if called.submitting && a.finish.Some?
    then DaPublisher.AfterCompletion(called, a.finish.value.height, a.finish.value.result)
    else called
  }

  /** The trackers after one refresh at `height`. */
  function Polled(t: Trackers, a: Answers, height: nat): Trackers {
    Trackers(
      if t.anchor.None? then None
      else Some(AnchorTracking.AfterCall(t.anchor.value, a.confirmation, a.paused, a.sent, t.kDeepFinality)),
      t.kDeepFinality,
      if t.publisher.None? then None else Some(PublisherPolled(t.publisher.value, a, height)))
  }

  function Known(flag: bool, height: nat): Option<nat> {
    if flag then Some(height) else None
  }

  /** What the handlers read from the trackers and the answers. */
  function Read(t: Trackers, a: Answers): Readings {
    var published := match t.publisher
      case None => None
      case Some(s) => Known(s.hasVerified, s.verifiedHeight);
    Readings(
      a.btc,
      match t.publisher
      case None => FixedDa(a.available, a.dasFailed, a.attestationFailed)
      case Some(s) => LiveDa(s.lastSubmitFailed, a.probeHealthy, published),
      a.p2p,
      t.anchor.Some?,
      a.anchorHolds,
      a.claimHolds,
      match t.anchor
      case None => None
      case Some(s) => Known(s.hasConfirmed, s.lastConfirmedHeight),
      published)
  }

  class Sensors {
    const anchor: AnchorTracking.AnchorTracker?
    const publisher: DaPublisher.Publisher?

    ghost function Repr(): set<object> {
      (if anchor == null then {} else {anchor}) + (if publisher == null then {} else {publisher})
    }

    function View(): Trackers
      reads Repr()
    {
      Trackers(
        if anchor == null then None else Some(anchor.View()),
        if anchor == null then 0 else anchor.kDeepFinality,
        if publisher == null then None else Some(publisher.View()))
    }

    constructor (anchor: AnchorTracking.AnchorTracker?, publisher: DaPublisher.Publisher?)
      ensures this.anchor == anchor && this.publisher == publisher
    {
      this.anchor, this.publisher := anchor, publisher;
    }

    /** The trackers' share of one refresh: both are called, and a submission may finish. */
    method Poll(a: Answers, height: nat)
      modifies Repr()
      ensures View() == Polled(old(View()), a, height)
    {
      if anchor != null {
        anchor.MaybeSubmit(a.confirmation, a.paused, a.sent);
      }
      if publisher != null {
        var _ := publisher.MaybePublish(height, a.probe);
        if publisher.submitting && a.finish.Some? {
          publisher.Complete(a.finish.value.height, a.finish.value.result);
        }
      }
    }
  }

  /** A refresh moves the publisher by one call of a run, and by a completion if one comes in between. */
  lemma PollExtendsRun(ws: seq<DaPublisher.World>, es: seq<DaPublisher.Event>, a: Answers, height: nat)
    returns (ws': seq<DaPublisher.World>, es': seq<DaPublisher.Event>)
    requires DaPublisher.Run(ws, es)
    requires height >= 1 && height >= ws[|es|].latest
    requires a.finish.Some? ==>
      a.finish.value.height == if ws[|es|].flights == [] then height else ws[|es|].flights[0]
    ensures DaPublisher.Run(ws', es') && ws <= ws'
    ensures var called := es + [DaPublisher.Call(height, a.probe)];
            var busy := DaPublisher.AfterCall(ws[|es|].status, height, a.probe).submitting;
            es' == if busy && a.finish.Some? then called + [DaPublisher.Done(0, a.finish.value.result)] else called
    ensures ws'[|es'|].status == PublisherPolled(ws[|es|].status, a, height)
  {
    var w, call := ws[|es|], DaPublisher.Call(height, a.probe);
    var called := DaPublisher.Next(w, call);
    DaPublisher.AlwaysConsistent(ws, es, |es|);
    ws', es' := RunGrows(ws, es, call);
    if called.status.submitting && a.finish.Some? {
      DaPublisher.AlwaysConsistent(ws', es', |es'|);
      assert called.flights[0] == a.finish.value.height;
      ws', es' := RunGrows(ws', es', DaPublisher.Done(0, a.finish.value.result));
    }
  }

  lemma RunGrows(ws: seq<DaPublisher.World>, es: seq<DaPublisher.Event>, e: DaPublisher.Event)
    returns (ws': seq<DaPublisher.World>, es': seq<DaPublisher.Event>)
    requires DaPublisher.Run(ws, es) && DaPublisher.Enabled(ws[|es|], e)
    ensures ws' == ws + [DaPublisher.Next(ws[|es|], e)] && es' == es + [e]
    ensures DaPublisher.Run(ws', es')
  {
    ws', es' := ws + [DaPublisher.Next(ws[|es|], e)], es + [e];
    forall i | 0 <= i < |es'| ensures DaPublisher.StepsAt(ws', es', i) {
      if i < |es| {
        assert DaPublisher.StepsAt(ws, es, i);
      }
    }
  }

  /** A refresh moves the anchor tracker by exactly one call of a run. */
  lemma PollExtendsAnchorRun(ws: seq<AnchorTracking.World>, es: seq<AnchorTracking.Event>, t: Trackers, a: Answers,
                             height: nat, reachable: bool)
    returns (ws': seq<AnchorTracking.World>)
    requires AnchorTracking.Run(ws, es, t.kDeepFinality) && t.anchor == Some(ws[|es|].status)
    requires a.confirmation
          == AnchorTracking.Confirm(ws[|es|].bitcoin, ws[|es|].status.pendingTxid, reachable)
    requires a.sent.Some? ==> AnchorTracking.Unused(ws[|es|].bitcoin, a.sent.value)
    ensures AnchorTracking.Run(ws', es + [AnchorTracking.Call(reachable, a.paused, a.sent)], t.kDeepFinality)
    ensures ws <= ws' && Polled(t, a, height).anchor == Some(ws'[|es| + 1].status)
  {
    var k, call := t.kDeepFinality, AnchorTracking.Call(reachable, a.paused, a.sent);
    var es' := es + [call];
    ws' := ws + [AnchorTracking.Next(ws[|es|], call, k)];
    forall i | 0 <= i < |es'| ensures AnchorTracking.StepsAt(ws', es', k, i) {
      if i < |es| {
        assert AnchorTracking.StepsAt(ws, es, k, i);
      }
    }
  }

  /** What an honest proposer newly claims is sound. A new anchor passes every validator's own check at
      every tip not before the one it was confirmed at; a new publication was posted and seen available,
      at a height already passed in. */
  lemma HonestClaimsSound(branch: Store, t: Trackers, a: Answers,
                          ws: seq<AnchorTracking.World>, es: seq<AnchorTracking.Event>, i: nat, j: nat,
                          vs: seq<DaPublisher.World>, fs: seq<DaPublisher.Event>, m: nat)
    requires AnchorTracking.Run(ws, es, t.kDeepFinality) && i <= j <= |es|
    requires DaPublisher.Run(vs, fs) && m <= |fs|
    requires t.anchor.Some? ==> t.anchor.value == ws[i].status
    requires t.publisher.Some? ==> t.publisher.value == vs[m].status
    ensures var anchor := ClaimedAnchor(branch, Read(t, a));
            anchor != branch.hBtcAnchored ==> AnchorTracking.VerifyAnchor(ws[j].bitcoin, anchor, t.kDeepFinality)
    ensures var published := ClaimedPublication(branch, Read(t, a));
            published != branch.hEngramVerified ==>
              DaPublisher.SeenAvailable(vs[m], published) && published <= vs[m].latest
  {
    DaPublisher.AlwaysConsistent(vs, fs, m);
    if ClaimedAnchor(branch, Read(t, a)) != branch.hBtcAnchored {
      AnchorTracking.ReportedAnchorsVerify(ws, es, t.kDeepFinality, i, j);
    }
  }
}
