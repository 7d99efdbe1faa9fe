/** The DA publisher: a main thread that polls and launches submissions, and a background
    submission that completes at any later moment. */
module DaPublisher {
  import opened KeeperStore

  const MAX_PENDING_BLOCKS: nat := 60

  /** The answer to an availability check of the pending submission. */
  datatype Probe = ProbeError | NotYet | Retrievable

  /** The mutex-protected fields as a value; a pending height of zero means none. */
  datatype Status = Status(
    submitting: bool,
    pendingEngramHeight: nat,
    pendingCelestiaHeight: nat,
    pendingSinceHeight: nat,
    verifiedHeight: nat,
    hasVerified: bool,
    lastSubmitFailed: bool)

  const Fresh: Status := Status(false, 0, 0, 0, 0, false, false)

  predicate Stale(s: Status, height: nat) {
    s.pendingEngramHeight != 0 && height > s.pendingSinceHeight + MAX_PENDING_BLOCKS
  }

  /** The fields after the pending submission has been aged and checked. */
  function Resolve(s: Status, height: nat, probe: Probe): Status {
    if Stale(s, height) then s.(pendingEngramHeight := 0, lastSubmitFailed := true)
    else if s.pendingEngramHeight == 0 then s
    else
      match probe
      case ProbeError => s.(lastSubmitFailed := true)
      case NotYet => s
      case Retrievable =>
        s.(verifiedHeight := s.pendingEngramHeight, hasVerified := true, lastSubmitFailed := false,
           pendingEngramHeight := 0)
  }

  /** A call launches a submission when nothing is pending any more and none is in flight. */
  predicate Launches(s: Status, height: nat, probe: Probe) {
    Resolve(s, height, probe).pendingEngramHeight == 0 && !s.submitting
  }

  function AfterCall(s: Status, height: nat, probe: Probe): Status {
    Resolve(s, height, probe).(submitting := s.submitting || Launches(s, height, probe))
  }

  function AfterCompletion(s: Status, height: nat, result: Option<nat>): Status {
    match result
    case None => s.(submitting := false, lastSubmitFailed := true)
    case Some(celestia) =>
      s.(submitting := false, pendingEngramHeight := height, pendingCelestiaHeight := celestia,
         pendingSinceHeight := height)
  }

  class Publisher {
    var submitting: bool
    var pendingEngramHeight: nat
    var pendingCelestiaHeight: nat
    var pendingSinceHeight: nat
    var verifiedHeight: nat
    var hasVerified: bool
    var lastSubmitFailed: bool

    function View(): Status
      reads this
    {
      Status(submitting, pendingEngramHeight, pendingCelestiaHeight, pendingSinceHeight,
             verifiedHeight, hasVerified, lastSubmitFailed)
    }

    constructor ()
      ensures View() == Fresh
    {
      submitting, hasVerified, lastSubmitFailed := false, false, false;
      pendingEngramHeight, pendingCelestiaHeight, pendingSinceHeight, verifiedHeight := 0, 0, 0, 0;
    }

    /** One call under the lock; `launched` says that a background submission was started. */
    method MaybePublish(engramHeight: nat, probe: Probe) returns (launched: bool)
      modifies this
      ensures View() == AfterCall(old(View()), engramHeight, probe)
      ensures launched <==> Launches(old(View()), engramHeight, probe)
    {
      if pendingEngramHeight != 0 && engramHeight > pendingSinceHeight
         && engramHeight - pendingSinceHeight > MAX_PENDING_BLOCKS {
        pendingEngramHeight := 0;
        lastSubmitFailed := true;
      }
      if pendingEngramHeight != 0 {
        if probe == ProbeError {
          lastSubmitFailed := true;
          return false;
        }
        if probe == NotYet {
          return false;
        }
        verifiedHeight := pendingEngramHeight;
        hasVerified := true;
        lastSubmitFailed := false;
        pendingEngramHeight := 0;
      }
      if submitting {
        return false;
      }
      submitting := true;
      return true;
    }

    /** The background submission started at `engramHeight` finishes. */
    method Complete(engramHeight: nat, result: Option<nat>)
      modifies this
      ensures View() == AfterCompletion(old(View()), engramHeight, result)
    {
      submitting := false;
      if result.None? {
        lastSubmitFailed := true;
        return;
      }
      pendingEngramHeight := engramHeight;
      pendingCelestiaHeight := result.value;
      pendingSinceHeight := engramHeight;
    }
  }

  /** The publisher with its surroundings: the heights captured by submissions in flight, the
      latest height passed in, the (Engram, Celestia) pairs posted, and the Celestia heights seen
      available. */
  datatype World = World(
    status: Status, flights: seq<nat>, latest: nat, posted: set<(nat, nat)>, available: set<nat>)

  const Start: World := World(Fresh, [], 0, {}, {})

  datatype Event = Call(height: nat, probe: Probe) | Done(flight: nat, result: Option<nat>)

  predicate Enabled(w: World, e: Event) {
    match e
    case Call(h, _) => h >= 1 && h >= w.latest
    case Done(k, _) => k < |w.flights|
  }

  function Next(w: World, e: Event): World
    requires Enabled(w, e)
  {
    match e
    case Call(h, probe) =>
      var polled := w.status.pendingEngramHeight != 0 && !Stale(w.status, h);
      World(AfterCall(w.status, h, probe),
            if Launches(w.status, h, probe) then w.flights + [h] else w.flights,
            h, w.posted,
            if polled && probe == Retrievable then w.available + {w.status.pendingCelestiaHeight} else w.available)
    case Done(k, result) =>
      World(AfterCompletion(w.status, w.flights[k], result),
            w.flights[..k] + w.flights[k + 1..],
            w.latest,
            if result.Some? then w.posted + {(w.flights[k], result.value)} else w.posted,
            w.available)
  }

  predicate StepsAt(ws: seq<World>, es: seq<Event>, i: nat)
    requires |ws| == |es| + 1 && i < |es|
  {
    Enabled(ws[i], es[i]) && ws[i + 1] == Next(ws[i], es[i])
  }

  /** An interleaving of calls, with heights positive and never falling, and completions. */
  predicate Run(ws: seq<World>, es: seq<Event>) {
    && |ws| == |es| + 1
    && ws[0] == Start
    && (forall i :: 0 <= i < |es| ==> StepsAt(ws, es, i))
  }

  predicate SeenAvailable(w: World, height: nat) {
    exists c :: c in w.available && (height, c) in w.posted
  }

  predicate Consistent(w: World) {
    var s := w.status;
    && |w.flights| <= 1
    && (s.submitting <==> |w.flights| == 1)
    && (s.pendingEngramHeight != 0 ==> w.flights == [])
    && (|w.flights| == 1 ==> 1 <= w.flights[0] <= w.latest && s.verifiedHeight <= w.flights[0])
    && (s.pendingEngramHeight != 0 ==>
          && s.verifiedHeight <= s.pendingEngramHeight <= w.latest
          && s.pendingSinceHeight == s.pendingEngramHeight
          && (s.pendingEngramHeight, s.pendingCelestiaHeight) in w.posted)
    && s.verifiedHeight <= w.latest
    && (s.hasVerified ==> SeenAvailable(w, s.verifiedHeight))
    && (!s.hasVerified ==> s.verifiedHeight == 0)
  }

  lemma NextConsistent(w: World, e: Event)
    requires Consistent(w) && Enabled(w, e)
    ensures Consistent(Next(w, e))
    ensures w.status.verifiedHeight <= Next(w, e).status.verifiedHeight
    ensures w.status.hasVerified ==> Next(w, e).status.hasVerified
  {
    var w' := Next(w, e);
    if w.status.hasVerified {
      var c :| c in w.available && (w.status.verifiedHeight, c) in w.posted;
      assert c in w'.available && (w.status.verifiedHeight, c) in w'.posted;
    }
    if w'.status.hasVerified && w'.status.verifiedHeight == w.status.pendingEngramHeight {
      assert e.Call? && e.probe == Retrievable && w.status.pendingEngramHeight != 0 && !Stale(w.status, e.height) ==>
        w.status.pendingCelestiaHeight in w'.available
        && (w'.status.verifiedHeight, w.status.pendingCelestiaHeight) in w'.posted;
    }
  }

  /** Under every interleaving: at most one submission is in flight and never beside a pending
      one; the verified height never exceeds the latest height passed in and is one whose blob was
      posted and seen available. */
  lemma {:induction false} AlwaysConsistent(ws: seq<World>, es: seq<Event>, i: nat)
    requires Run(ws, es) && i <= |es|
    ensures Consistent(ws[i])
  {
    if i > 0 {
      AlwaysConsistent(ws, es, i - 1);
      assert StepsAt(ws, es, i - 1);
      NextConsistent(ws[i - 1], es[i - 1]);
    }
  }

  /** The verified height never decreases and, once known, stays known. */
  lemma {:induction false} VerifiedNeverFalls(ws: seq<World>, es: seq<Event>, i: nat, j: nat)
    requires Run(ws, es) && i <= j <= |es|
    ensures ws[i].status.verifiedHeight <= ws[j].status.verifiedHeight
    ensures ws[i].status.hasVerified ==> ws[j].status.hasVerified
    decreases j
  {
    if i < j {
      VerifiedNeverFalls(ws, es, i, j - 1);
      AlwaysConsistent(ws, es, j - 1);
      assert StepsAt(ws, es, j - 1);
      NextConsistent(ws[j - 1], es[j - 1]);
    }
  }

  /** What a call does to a pending submission: more than 60 heights past its own height it is dropped
      unverified and replaced; otherwise it stays exactly until its blob is seen available, and then
      becomes the verified height. A failed check raises the failure flag, a success clears it. */
  lemma PendingResolved(ws: seq<World>, es: seq<Event>, i: nat)
    requires Run(ws, es) && i < |es| && es[i].Call?
    requires ws[i].status.pendingEngramHeight != 0
    ensures var before, after, h := ws[i].status, ws[i + 1].status, es[i].height;
            var own := before.pendingEngramHeight;
            if h > own + 60 then
              && after.pendingEngramHeight == 0 && after.lastSubmitFailed
              && after.verifiedHeight == before.verifiedHeight && after.hasVerified == before.hasVerified
              && ws[i + 1].flights == [h]
            else if es[i].probe == Retrievable then
              && after.pendingEngramHeight == 0 && !after.lastSubmitFailed
              && after.verifiedHeight == own && after.hasVerified
              && ws[i + 1].flights == [h]
            else
              && after.pendingEngramHeight == own
              && after.verifiedHeight == before.verifiedHeight && after.hasVerified == before.hasVerified
              && after.lastSubmitFailed == (before.lastSubmitFailed || es[i].probe == ProbeError)
              && ws[i + 1].flights == []
  {
    AlwaysConsistent(ws, es, i);
    assert StepsAt(ws, es, i);
  }

  /** What a call does with nothing pending: an idle publisher always launches a submission of its own
      height, a busy one waits for the one in flight; nothing else changes. */
  lemma IdleLaunches(ws: seq<World>, es: seq<Event>, i: nat)
    requires Run(ws, es) && i < |es| && es[i].Call?
    requires ws[i].status.pendingEngramHeight == 0
    ensures ws[i + 1].flights == if ws[i].flights == [] then [es[i].height] else ws[i].flights
    ensures ws[i + 1].status == ws[i].status.(submitting := true)
  {
    AlwaysConsistent(ws, es, i);
    assert StepsAt(ws, es, i);
  }

  /** What a completion does: a success makes the submission pending under its own height and leaves the
      failure flag alone, a failure raises the flag and leaves nothing pending. */
  lemma CompletionRecorded(ws: seq<World>, es: seq<Event>, i: nat)
    requires Run(ws, es) && i < |es| && es[i].Done?
    ensures ws[i].flights != []
    ensures var before, after, own := ws[i].status, ws[i + 1].status, ws[i].flights[0];
            && ws[i + 1].flights == [] && !after.submitting
            && after.verifiedHeight == before.verifiedHeight && after.hasVerified == before.hasVerified
            && match es[i].result
               case None => after.pendingEngramHeight == 0 && after.lastSubmitFailed
               case Some(celestia) =>
                 && after.pendingEngramHeight == own && after.pendingCelestiaHeight == celestia
                 && after.lastSubmitFailed == before.lastSubmitFailed
  {
    AlwaysConsistent(ws, es, i);
    assert StepsAt(ws, es, i);
  }
}
