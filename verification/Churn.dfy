/** The P2P health snapshot: its peer counts and its churn window. */
module Churn {
  import opened KeeperStore
  import Proposals

  type PeerId = nat

  const SECOND: int := 1_000_000_000  // in nanoseconds
  const MILLISECOND: int := 1_000_000
  const WINDOW: int := 3600 * SECOND

  /** An IPv4 address by its octets; an IPv6 one by the three groups of its /48 and what follows. */
  datatype Ip = V4(a: int, b: int, c: int, d: int) | V6(g0: int, g1: int, g2: int, rest: seq<int>)

  datatype Subnet = Net24(a: int, b: int, c: int) | Net48(g0: int, g1: int, g2: int)

  function SubnetOf(ip: Ip): Subnet {
    match ip
    case V4(a, b, c, _) => Net24(a, b, c)
    case V6(g0, g1, g2, _) => Net48(g0, g1, g2)
  }

  /** A connected peer; its address may be unknown. Durations are in nanoseconds. */
  datatype Peer = Peer(id: PeerId, ip: Option<Ip>, tenure: nat, rtt: nat)

  function Ids(peers: seq<Peer>): seq<PeerId> {
    seq(|peers|, i requires 0 <= i < |peers| => peers[i].id)
  }

  /** The subnets the peers with known addresses lie in. */
  function Subnets(peers: seq<Peer>): set<Subnet> {
    set peer | peer in peers && peer.ip.Some? :: SubnetOf(peer.ip.value)
  }

  function TotalTenure(peers: seq<Peer>): nat {
    if peers == [] then 0 else TotalTenure(peers[..|peers| - 1]) + peers[|peers| - 1].tenure
  }

  /** `worst` is the greatest round-trip time, or zero without peers. */
  predicate IsWorstRtt(peers: seq<Peer>, worst: nat) {
    && (forall peer :: peer in peers ==> peer.rtt <= worst)
    && (worst == 0 || exists peer :: peer in peers && peer.rtt == worst)
  }

  /** The whole seconds of an average over `count` peers, zero without peers. */
  function MeanSeconds(total: nat, count: nat): nat {
    if count == 0 then 0 else total / count / SECOND
  }

  /** Events strictly newer than the cutoff, in order. */
  function Newer(events: seq<int>, cutoff: int): seq<int> {
    if events == [] then []
    else
      var last := events[|events| - 1];
      Newer(events[..|events| - 1], cutoff) + (if last > cutoff then [last] else [])
  }

  function Repeat(t: int, n: nat): seq<int> {
    seq(n, _ => t)
  }

  /** Peers outside the persistent set that are in `after` and not in `before`. */
  function Joined(before: set<PeerId>, after: set<PeerId>, persistent: set<PeerId>): set<PeerId> {
    set id | id in after && id !in before && id !in persistent
  }

  /** Peers outside the persistent set in the symmetric difference of two peer sets. */
  function Changed(before: set<PeerId>, after: set<PeerId>, persistent: set<PeerId>): set<PeerId> {
    set id | id in before + after && !(id in before && id in after) && id !in persistent
  }

  lemma AppendRepeat(xs: seq<int>, t: int, a: nat, b: nat)
    ensures xs + Repeat(t, a) + Repeat(t, b) == xs + Repeat(t, a + b)
  {
  }

  lemma JoinOne(before: set<PeerId>, seen: set<PeerId>, persistent: set<PeerId>, id: PeerId)
    ensures |Joined(before, seen + {id}, persistent)|
         == |Joined(before, seen, persistent)| + (if id !in before && id !in seen && id !in persistent then 1 else 0)
  {
    var now, next := Joined(before, seen, persistent), Joined(before, seen + {id}, persistent);
    if id !in before && id !in seen && id !in persistent {
      assert next == now + {id};
    } else {
      assert next == now;
    }
  }

  lemma LeaveOne(kept: set<PeerId>, all: set<PeerId>, persistent: set<PeerId>, id: PeerId)
    requires id in kept && id in all
    ensures |Joined(kept - {id}, all, persistent)|
         == |Joined(kept, all, persistent)| + (if id !in persistent then 1 else 0)
  {
    var now, next := Joined(kept, all, persistent), Joined(kept - {id}, all, persistent);
    if id !in persistent {
      assert next == now + {id};
    } else {
      assert next == now;
    }
  }

  function Members(peers: seq<PeerId>): set<PeerId> {
    set id | id in peers
  }

  lemma MembersGrow(peers: seq<PeerId>, i: nat)
    requires i < |peers|
    ensures Members(peers[..i + 1]) == Members(peers[..i]) + {peers[i]}
  {
    assert peers[..i + 1] == peers[..i] + [peers[i]];
  }

  /** The peer table for exactly the given peers: old entries kept, new ones dated now. */
  function Present(table: map<PeerId, int>, peers: set<PeerId>, now: int): (r: map<PeerId, int>)
    ensures r.Keys == peers
  {
    map id | id in peers :: if id in table then table[id] else now
  }

  /** When each connected peer was first seen, and the churn events still in the window. */
  datatype Status = Status(firstSeen: map<PeerId, int>, churnEvents: seq<int>)

  function AfterSnapshot(s: Status, peers: set<PeerId>, now: int, persistent: set<PeerId>): Status {
    Status(
      Present(s.firstSeen, peers, now),
      Newer(s.churnEvents + Repeat(now, |Changed(s.firstSeen.Keys, peers, persistent)|), now - WINDOW))
  }

  /** The peer table once the peers of `seen` have been recorded. */
  function Noted(table: map<PeerId, int>, seen: set<PeerId>, now: int): map<PeerId, int> {
    map id | id in table.Keys + seen :: if id in table then table[id] else now
  }

  function Restricted(table: map<PeerId, int>, kept: set<PeerId>): map<PeerId, int> {
    map id | id in table && id in kept :: table[id]
  }

  lemma DropOne(table: map<PeerId, int>, kept: set<PeerId>, id: PeerId)
    ensures Restricted(table, kept - {id}) == Restricted(table, kept) - {id}
  {
  }

  lemma NoteOne(table: map<PeerId, int>, seen: set<PeerId>, now: int, id: PeerId)
    ensures Noted(table, seen + {id}, now)
         == if id in Noted(table, seen, now) then Noted(table, seen, now) else Noted(table, seen, now)[id := now]
  {
  }

  lemma NotedThenRestricted(table: map<PeerId, int>, seen: set<PeerId>, now: int)
    ensures Restricted(Noted(table, seen, now), seen) == Present(table, seen, now)
    ensures Noted(table, seen, now).Keys == table.Keys + seen
  {
  }

  /** One more peer in each of the sums. */
  lemma TallyOne(peers: seq<Peer>, peer: Peer, persistent: set<PeerId>, worst: nat)
    requires IsWorstRtt(peers, worst)
    ensures Subnets(peers + [peer]) == Subnets(peers) + (if peer.ip.Some? then {SubnetOf(peer.ip.value)} else {})
    ensures Occurrences(Ids(peers + [peer]), persistent)
         == Occurrences(Ids(peers), persistent) + (if peer.id in persistent then 1 else 0)
    ensures TotalTenure(peers + [peer]) == TotalTenure(peers) + peer.tenure
    ensures IsWorstRtt(peers + [peer], if peer.rtt > worst then peer.rtt else worst)
  {
    assert (peers + [peer])[..|peers|] == peers;
    assert Ids(peers + [peer]) == Ids(peers) + [peer.id];
    assert (Ids(peers) + [peer.id])[..|peers|] == Ids(peers);
    if worst > 0 {
      var w :| w in peers && w.rtt == worst;
      assert w in peers + [peer];
    }
  }

  class PeerMonitor {
    const persistentPeerIds: set<PeerId>
    var firstSeen: map<PeerId, int>
    var churnEvents: seq<int>

    function View(): Status
      reads this
    {
      Status(firstSeen, churnEvents)
    }

    constructor (persistent: set<PeerId>)
      ensures persistentPeerIds == persistent && firstSeen == map[] && churnEvents == []
    {
      persistentPeerIds := persistent;
      firstSeen, churnEvents := map[], [];
    }

    /** Takes a snapshot of the connected peers at time `now`. */
    method PeerHealthSnapshot(peers: seq<Peer>, now: int) returns (snap: Proposals.P2PSnapshot)
      modifies this
      ensures View() == AfterSnapshot(old(View()), Members(Ids(peers)), now, persistentPeerIds)
      ensures snap.churnRate == |churnEvents| && snap.cleanPeers == |peers|
      ensures snap.activeAnchors == Occurrences(Ids(peers), persistentPeerIds)
      ensures snap.subnetDiversity == |Subnets(peers)|
      ensures snap.avgTenure == MeanSeconds(TotalTenure(peers), |peers|)
      ensures exists worst: nat :: IsWorstRtt(peers, worst) && snap.latency == worst / MILLISECOND
    {
      var seen := UpdatePeers(Ids(peers), now);
      var subnets, activeAnchors, tenureSum, maxRtt := Tally(peers);
      ForgetOldEvents(now);
      var avgTenure := MeanSeconds(tenureSum, |peers|);
      snap := Proposals.P2PSnapshot(|subnets|, activeAnchors, |peers|, |churnEvents|, avgTenure, maxRtt / MILLISECOND);
    }

    /** Sums up the connected peers. */
    method Tally(peers: seq<Peer>)
      returns (subnets: set<Subnet>, activeAnchors: nat, tenureSum: nat, maxRtt: nat)
      ensures subnets == Subnets(peers)
      ensures activeAnchors == Occurrences(Ids(peers), persistentPeerIds)
      ensures tenureSum == TotalTenure(peers)
      ensures IsWorstRtt(peers, maxRtt)
    {
      subnets, activeAnchors, tenureSum, maxRtt := {}, 0, 0, 0;
      for i := 0 to |peers|
        invariant subnets == Subnets(peers[..i])
        invariant activeAnchors == Occurrences(Ids(peers[..i]), persistentPeerIds)
        invariant tenureSum == TotalTenure(peers[..i])
        invariant IsWorstRtt(peers[..i], maxRtt)
      {
        var peer := peers[i];
        TallyOne(peers[..i], peer, persistentPeerIds, maxRtt);
        assert peers[..i + 1] == peers[..i] + [peer];
        if peer.ip.Some? {
          subnets := subnets + {SubnetOf(peer.ip.value)};
        }
        if peer.id in persistentPeerIds {
          activeAnchors := activeAnchors + 1;
        }
        tenureSum := tenureSum + peer.tenure;
        if peer.rtt > maxRtt {
          maxRtt := peer.rtt;
        }
      }
      assert peers[..|peers|] == peers;
    }

    /** Drops the churn events that left the window. */
    method ForgetOldEvents(now: int)
      modifies this`churnEvents
      ensures churnEvents == Newer(old(churnEvents), now - WINDOW)
    {
      var kept := [];
      for i := 0 to |churnEvents|
        invariant kept == Newer(churnEvents[..i], now - WINDOW)
      {
        assert churnEvents[..i + 1][..i] == churnEvents[..i];
        if churnEvents[i] > now - WINDOW {
          kept := kept + [churnEvents[i]];
        }
      }
      assert churnEvents[..|churnEvents|] == churnEvents;
      churnEvents := kept;
    }

    /** Brings the peer table up to date and appends one event per unknown peer that came or went. */
    method UpdatePeers(peers: seq<PeerId>, now: int) returns (seen: set<PeerId>)
      modifies this
      ensures seen == Members(peers)
      ensures firstSeen == Present(old(firstSeen), seen, now)
      ensures churnEvents == old(churnEvents)
                             + Repeat(now, |Changed(old(firstSeen).Keys, seen, persistentPeerIds)|)
    {
      seen := Arrivals(peers, now);
      Departures(seen, now);
      NotedThenRestricted(old(firstSeen), seen, now);
      AppendRepeat(old(churnEvents), now, |Joined(old(firstSeen).Keys, seen, persistentPeerIds)|,
                   |Joined(seen, old(firstSeen).Keys + seen, persistentPeerIds)|);
      ArrivalsThenDepartures(old(firstSeen).Keys, seen, persistentPeerIds, now);
    }

    /** Records one connected peer. */
    method Notice(id: PeerId, now: int)
      modifies this
      ensures firstSeen == if id in old(firstSeen) then old(firstSeen) else old(firstSeen)[id := now]
      ensures churnEvents == old(churnEvents)
                             + Repeat(now, if id !in old(firstSeen) && id !in persistentPeerIds then 1 else 0)
    {
      if id !in firstSeen {
        firstSeen := firstSeen[id := now];
        if id !in persistentPeerIds {
          churnEvents := churnEvents + [now];
        }
      }
    }

    /** Records the connected peers; one not seen before counts as churn unless it is persistent. */
    method Arrivals(peers: seq<PeerId>, now: int) returns (seen: set<PeerId>)
      modifies this
      ensures seen == Members(peers)
      ensures firstSeen == Noted(old(firstSeen), seen, now)
      ensures churnEvents == old(churnEvents) + Repeat(now, |Joined(old(firstSeen).Keys, seen, persistentPeerIds)|)
    {
      seen := {};
      ghost var known := firstSeen.Keys;
      ghost var count := 0;
      for i := 0 to |peers|
        invariant seen == Members(peers[..i])
        invariant firstSeen == Noted(old(firstSeen), seen, now)
        invariant count == |Joined(known, seen, persistentPeerIds)|
        invariant churnEvents == old(churnEvents) + Repeat(now, count)
      {
        var id := peers[i];
        ghost var more := if id !in firstSeen && id !in persistentPeerIds then 1 else 0;
        MembersGrow(peers, i);
        JoinOne(known, seen, persistentPeerIds, id);
        NoteOne(old(firstSeen), seen, now, id);
        AppendRepeat(old(churnEvents), now, count, more);
        Notice(id, now);
        seen := seen + {id};
        count := count + more;
      }
      assert peers[..|peers|] == peers;
    }

    /** Forgets one peer. */
    method Forget(id: PeerId, now: int)
      modifies this
      ensures firstSeen == old(firstSeen) - {id}
      ensures churnEvents == old(churnEvents) + Repeat(now, if id !in persistentPeerIds then 1 else 0)
    {
      firstSeen := firstSeen - {id};
      if id !in persistentPeerIds {
        churnEvents := churnEvents + [now];
      }
    }

    /** Forgets the peers that are gone; one counts as churn unless it is persistent. */
    method Departures(seen: set<PeerId>, now: int)
      requires seen <= firstSeen.Keys
      modifies this
      ensures firstSeen == Restricted(old(firstSeen), seen)
      ensures churnEvents == old(churnEvents) + Repeat(now, |Joined(seen, old(firstSeen).Keys, persistentPeerIds)|)
    {
      var kept := firstSeen.Keys;
      ghost var known := firstSeen.Keys;
      ghost var count := 0;
      assert Joined(kept, known, persistentPeerIds) == {};
      while kept != seen
        invariant seen <= kept <= known
        invariant firstSeen == Restricted(old(firstSeen), kept)
        invariant count == |Joined(kept, known, persistentPeerIds)|
        invariant churnEvents == old(churnEvents) + Repeat(now, count)
        decreases kept
      {
        var id :| id in kept && id !in seen;
        ghost var more := if id !in persistentPeerIds then 1 else 0;
        LeaveOne(kept, known, persistentPeerIds, id);
        DropOne(old(firstSeen), kept, id);
        AppendRepeat(old(churnEvents), now, count, more);
        Forget(id, now);
        kept := kept - {id};
        count := count + more;
      }
    }
  }

  function Occurrences(peers: seq<PeerId>, ids: set<PeerId>): nat {
    if peers == [] then 0
    else Occurrences(peers[..|peers| - 1], ids) + (if peers[|peers| - 1] in ids then 1 else 0)
  }

  lemma ArrivalsThenDepartures(before: set<PeerId>, after: set<PeerId>, persistent: set<PeerId>, now: int)
    ensures Repeat(now, |Joined(before, after, persistent)|) + Repeat(now, |Joined(after, before + after, persistent)|)
         == Repeat(now, |Changed(before, after, persistent)|)
  {
    var joined, left := Joined(before, after, persistent), Joined(after, before + after, persistent);
    assert Changed(before, after, persistent) == joined + left;
    assert joined !! left;
  }

  /** A snapshot taken: who was connected, and when. */
  datatype Snapshot = Snapshot(peers: set<PeerId>, time: int)

  function PeersBefore(ss: seq<Snapshot>, i: nat): set<PeerId>
    requires i <= |ss|
  {
    if i == 0 then {} else ss[i - 1].peers
  }

  /** How many peers changed at one snapshot, and when. */
  datatype Burst = Burst(time: int, count: nat)

  function BurstAt(ss: seq<Snapshot>, i: nat, persistent: set<PeerId>): Burst
    requires i < |ss|
  {
    Burst(ss[i].time, |Changed(PeersBefore(ss, i), ss[i].peers, persistent)|)
  }

  function Bursts(ss: seq<Snapshot>, persistent: set<PeerId>): seq<Burst> {
    seq(|ss|, i requires 0 <= i < |ss| => BurstAt(ss, i, persistent))
  }

  /** The events held after a series of bursts, as the monitor keeps them. */
  function Held(bs: seq<Burst>): seq<int> {
    if bs == [] then []
    else
      var last := bs[|bs| - 1];
      Newer(Held(bs[..|bs| - 1]) + Repeat(last.time, last.count), last.time - WINDOW)
  }

  /** Changes summed over the bursts strictly newer than a cutoff. */
  function Recent(bs: seq<Burst>, cutoff: int): nat {
    if bs == [] then 0
    else
      var last := bs[|bs| - 1];
      Recent(bs[..|bs| - 1], cutoff) + (if last.time > cutoff then last.count else 0)
  }

  predicate Monotone(bs: seq<Burst>) {
    forall i, j :: 0 <= i <= j < |bs| ==> bs[i].time <= bs[j].time
  }

  lemma {:induction false} NewerConcat(xs: seq<int>, ys: seq<int>, cutoff: int)
    ensures Newer(xs + ys, cutoff) == Newer(xs, cutoff) + Newer(ys, cutoff)
  {
    if ys == [] {
      assert xs + ys == xs;
    } else {
      var last := |ys| - 1;
      NewerConcat(xs, ys[..last], cutoff);
      assert (xs + ys)[..|xs + ys| - 1] == xs + ys[..last];
    }
  }

  lemma {:induction false} NewerTwice(xs: seq<int>, early: int, late: int)
    requires early <= late
    ensures Newer(Newer(xs, early), late) == Newer(xs, late)
  {
    if xs != [] {
      var rest, last := xs[..|xs| - 1], xs[|xs| - 1];
      NewerTwice(rest, early, late);
      NewerConcat(Newer(rest, early), if last > early then [last] else [], late);
    }
  }

  lemma {:induction false} NewerRepeat(t: int, n: nat, cutoff: int)
    ensures Newer(Repeat(t, n), cutoff) == if t > cutoff then Repeat(t, n) else []
  {
    if n > 0 {
      assert Repeat(t, n)[..n - 1] == Repeat(t, n - 1);
      NewerRepeat(t, n - 1, cutoff);
    }
  }

  /** Filtering the held events by a cutoff not before the last window's filters each burst. */
  lemma HeldFiltered(rest: seq<Burst>, last: Burst, cutoff: int)
    requires cutoff >= last.time - WINDOW
    ensures Newer(Held(rest + [last]), cutoff)
         == Newer(Held(rest), cutoff) + (if last.time > cutoff then Repeat(last.time, last.count) else [])
  {
    var burst := Repeat(last.time, last.count);
    assert (rest + [last])[..|rest|] == rest;
    NewerTwice(Held(rest) + burst, last.time - WINDOW, cutoff);
    NewerConcat(Held(rest), burst, cutoff);
    NewerRepeat(last.time, last.count, cutoff);
  }

  /** Filtering the held events by any cutoff not before the last one counts every recent change. */
  lemma {:induction false} HeldEventsSuffice(bs: seq<Burst>, cutoff: int)
    requires Monotone(bs)
    requires bs != [] ==> cutoff >= bs[|bs| - 1].time - WINDOW
    ensures |Newer(Held(bs), cutoff)| == Recent(bs, cutoff)
  {
    if bs != [] {
      var rest, last := bs[..|bs| - 1], bs[|bs| - 1];
      HeldEventsSuffice(rest, cutoff);
      HeldFiltered(rest, last, cutoff);
      assert bs == rest + [last];
    }
  }

  /** With a clock that never runs back, the events held after the last burst number exactly the
      changes in all bursts strictly newer than one hour before it. */
  lemma HeldIsWindowed(bs: seq<Burst>)
    requires bs != [] && Monotone(bs)
    ensures |Held(bs)| == Recent(bs, bs[|bs| - 1].time - WINDOW)
  {
    var last := bs[|bs| - 1];
    NewerTwice(Held(bs[..|bs| - 1]) + Repeat(last.time, last.count), last.time - WINDOW, last.time - WINDOW);
    HeldEventsSuffice(bs, last.time - WINDOW);
  }

  lemma BurstsGrow(ss: seq<Snapshot>, s: Snapshot, persistent: set<PeerId>)
    ensures Bursts(ss + [s], persistent) == Bursts(ss, persistent) + [BurstAt(ss + [s], |ss|, persistent)]
  {
    var tt := ss + [s];
    forall i | 0 <= i < |ss| ensures BurstAt(tt, i, persistent) == BurstAt(ss, i, persistent) {
      assert PeersBefore(tt, i) == PeersBefore(ss, i);
    }
  }

  /** One more snapshot of a monitor that holds a history's events holds the longer history's. */
  lemma HeldGrows(ss: seq<Snapshot>, s: Snapshot, persistent: set<PeerId>)
    ensures Held(Bursts(ss + [s], persistent))
         == Newer(Held(Bursts(ss, persistent)) + Repeat(s.time, |Changed(PeersBefore(ss, |ss|), s.peers, persistent)|),
                  s.time - WINDOW)
  {
    BurstsGrow(ss, s, persistent);
    var bs := Bursts(ss + [s], persistent);
    assert bs[..|bs| - 1] == Bursts(ss, persistent);
    assert PeersBefore(ss + [s], |ss|) == PeersBefore(ss, |ss|);
  }

  /** The monitor after a series of snapshots, oldest first. */
  function Watched(ss: seq<Snapshot>, persistent: set<PeerId>): Status {
    if ss == [] then Status(map[], [])
    else
      var last := ss[|ss| - 1];
      AfterSnapshot(Watched(ss[..|ss| - 1], persistent), last.peers, last.time, persistent)
  }

  lemma {:induction false} WatchedHolds(ss: seq<Snapshot>, persistent: set<PeerId>)
    ensures Watched(ss, persistent).firstSeen.Keys == PeersBefore(ss, |ss|)
    ensures Watched(ss, persistent).churnEvents == Held(Bursts(ss, persistent))
  {
    if ss != [] {
      var rest, last := ss[..|ss| - 1], ss[|ss| - 1];
      WatchedHolds(rest, persistent);
      HeldGrows(rest, last, persistent);
      assert rest + [last] == ss;
    }
  }

  /** Over any series of snapshots with a clock that never runs back, the monitor ends up holding
      exactly the connected peers, and its churn rate is the number of non-persistent peers that
      joined or left, summed over all snapshots strictly newer than one hour before the last. */
  lemma ChurnRateIsWindowed(ss: seq<Snapshot>, persistent: set<PeerId>)
    requires ss != [] && Monotone(Bursts(ss, persistent))
    ensures var now := ss[|ss| - 1];
            && Watched(ss, persistent).firstSeen.Keys == now.peers
            && |Watched(ss, persistent).churnEvents| == Recent(Bursts(ss, persistent), now.time - 3_600_000_000_000)
  {
    WatchedHolds(ss, persistent);
    HeldIsWindowed(Bursts(ss, persistent));
  }

  /** The first of the snapshots, up to the last, from which on the peer has been connected without a
      break. */
  predicate ConnectedSince(ss: seq<Snapshot>, id: PeerId, k: nat) {
    && k < |ss|
    && (forall j :: k <= j < |ss| ==> id in ss[j].peers)
    && (k == 0 || id !in ss[k - 1].peers)
  }

  /** Each connected peer is dated by the snapshot that began its present unbroken connection. */
  lemma {:induction false} FirstSeenDates(ss: seq<Snapshot>, persistent: set<PeerId>, id: PeerId) returns (k: nat)
    requires ss != [] && id in ss[|ss| - 1].peers
    ensures ConnectedSince(ss, id, k)
    ensures id in Watched(ss, persistent).firstSeen && Watched(ss, persistent).firstSeen[id] == ss[k].time
  {
    var rest, last := ss[..|ss| - 1], |ss| - 1;
    WatchedHolds(rest, persistent);
    if rest != [] && id in rest[|rest| - 1].peers {
      k := FirstSeenDates(rest, persistent, id);
      assert forall j :: 0 <= j < |rest| ==> rest[j] == ss[j];
    } else {
      k := last;
    }
  }

  /** Two peers count as one subnet exactly when they are in the same IPv4 /24 or in the same IPv6 /48. */
  lemma SameSubnetExactly(x: Ip, y: Ip)
    ensures SubnetOf(x) == SubnetOf(y)
       <==> || (x.V4? && y.V4? && [x.a, x.b, x.c] == [y.a, y.b, y.c])
            || (x.V6? && y.V6? && [x.g0, x.g1, x.g2] == [y.g0, y.g1, y.g2])
  {
    if x.V4? && y.V4? && [x.a, x.b, x.c] == [y.a, y.b, y.c] {
      assert [x.a, x.b, x.c][0] == [y.a, y.b, y.c][0] && [x.a, x.b, x.c][1] == [y.a, y.b, y.c][1];
      assert [x.a, x.b, x.c][2] == [y.a, y.b, y.c][2];
    }
    if x.V6? && y.V6? && [x.g0, x.g1, x.g2] == [y.g0, y.g1, y.g2] {
      assert [x.g0, x.g1, x.g2][0] == [y.g0, y.g1, y.g2][0] && [x.g0, x.g1, x.g2][1] == [y.g0, y.g1, y.g2][1];
      assert [x.g0, x.g1, x.g2][2] == [y.g0, y.g1, y.g2][2];
    }
  }

  lemma AnchorsGrow(ids: seq<PeerId>, id: PeerId, persistent: set<PeerId>)
    requires id !in ids
    ensures |Members(ids + [id]) * persistent|
         == |Members(ids) * persistent| + (if id in persistent then 1 else 0)
  {
    var before, after := Members(ids) * persistent, Members(ids + [id]) * persistent;
    if id in persistent {
      assert after == before + {id};
    } else {
      assert after == before;
    }
  }

  /** Connected once each, the anchors counted are the persistent peers among them. */
  lemma {:induction false} AnchorsCounted(ids: seq<PeerId>, persistent: set<PeerId>)
    requires forall i, j :: 0 <= i < j < |ids| ==> ids[i] != ids[j]
    ensures Occurrences(ids, persistent) == |Members(ids) * persistent|
  {
    if ids == [] {
      assert Members(ids) * persistent == {};
    } else {
      var last := |ids| - 1;
      AnchorsCounted(ids[..last], persistent);
      AnchorsGrow(ids[..last], ids[last], persistent);
      assert ids == ids[..last] + [ids[last]];
    }
  }

  /** The mean is the whole number of seconds that the summed durations cover for every peer. */
  lemma MeanSecondsExactly(total: nat, count: nat, mean: nat)
    requires count >= 1
    ensures mean == MeanSeconds(total, count)
       <==> mean * 1_000_000_000 * count <= total < (mean + 1) * 1_000_000_000 * count
  {
    var q := total / count;
    assert q * count <= total < (q + 1) * count;
    var s := q / SECOND;
    assert s * SECOND <= q < (s + 1) * SECOND;
    MeanBetween(total, count, q, mean);
  }

  /** `q` is the mean in nanoseconds. */
  lemma MeanBetween(total: nat, count: nat, q: nat, mean: nat)
    requires count >= 1 && q * count <= total < (q + 1) * count
    ensures mean * SECOND <= q <==> mean * 1_000_000_000 * count <= total
    ensures q < (mean + 1) * SECOND <==> total < (mean + 1) * 1_000_000_000 * count
  {
    Below(total, count, q, mean * 1_000_000_000);
    Below(total, count, q, (mean + 1) * 1_000_000_000);
  }

  lemma Below(total: nat, count: nat, q: nat, bound: nat)
    requires count >= 1 && q * count <= total < (q + 1) * count
    ensures bound <= q <==> bound * count <= total
  {
    if bound <= q {
      assert bound * count <= q * count;
    } else {
      assert bound * count >= (q + 1) * count;
    }
  }
}
