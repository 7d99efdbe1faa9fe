/** What a validator's readings say about the snapshot it derives, and what the snapshot says about the
    next state: each sensor's effect, from what bitcoind, Celestia and the peers answered. */
module ReadingLaws {
  import opened Uint64
  import opened Fsm
  import opened KeeperStore
  import opened Proposals

  /** The three judgements on a snapshot, reading by reading. */
  lemma JudgedExactly(m: Metrics, p: Params, duration: nat)
    ensures IsBTCHealthy(m, p) <==> m.btcGap < Min(p.suspiciousThreshold, p.sovereignThreshold) && !m.isBtcSpvFailed
    ensures IsDAHealthy(m, p) <==> m.daGap < p.daThreshold && !(m.isDasFailed || m.isAttestationFailed)
    ensures !IsP2PQualityHealthy(m, p) <==>
              || m.subnetDiversity < p.minSubnetDiversity || m.activeAnchors < p.minAnchorPeers
              || m.cleanPeers < p.minPeers || m.avgPeerTenure < p.minAvgTenure
              || m.peerChurnRate > p.maxChurnRate || m.peerLatency > p.maxPeerLatency
    ensures IsHealthy(m, p) <==> IsBTCHealthy(m, p) && IsDAHealthy(m, p) && IsP2PQualityHealthy(m, p)
    ensures !IsCritical(m, p, duration) <==>
              && m.btcGap < p.sovereignThreshold && !m.isBtcSpvFailed
              && m.activeAnchors >= 1 && duration < p.maxSuspiciousTime
  {
  }

  /** What the genesis check demands: settled anchors, whose gap of up to KDeepFinality + 1 leaves Bitcoin
      healthy; a warning band below the SOVEREIGN threshold; a DA gap of zero that counts as healthy; room
      for a peer in a subnet; a backoff that starts at the base threshold; and rounds in which an overdue
      transaction is enforced before enforcement is given up. */
  lemma GenesisCheckMeans(p: Params, m: Metrics)
    requires !m.isBtcSpvFailed && !m.isDasFailed && !m.isAttestationFailed
    ensures p.Valid()
       <==> && p.kDeepFinality >= 1
            && IsBTCHealthy(m.(btcGap := Inc(p.kDeepFinality)), p)
            && (exists gap: nat :: IsBTCGapSuspicious(m.(btcGap := gap), p))
            && IsDAHealthy(m.(daGap := 0), p)
            && p.maxPeersPerSubnet >= 1
            && EffectiveThreshold(0, p) == p.downHysteresisThreshold
            && p.maxIgnoreRounds + 1 <= p.maxCensorshipRounds
  {
    if p.suspiciousThreshold < p.sovereignThreshold {
      assert IsBTCGapSuspicious(m.(btcGap := p.suspiciousThreshold), p);
    }
  }

  /** What the Bitcoin sensor makes of its answers: at a live tip the committed anchor and the gap add up
      to the tip, or to the anchor when that is higher; the failure flag is up exactly when a committed
      anchor is checked and does not verify; blind, the gap is the SOVEREIGN threshold. */
  lemma SensedBitcoin(st: Store, rd: Readings, height: nat, p: Params)
    ensures var m, b := Sensed(st, rd, height, p), Refresh(st, rd, height, p);
            match rd.btc
            case ChainTip(h) =>
              && m.btcGap + st.hBtcAnchored == Max(h, st.hBtcAnchored)
              && (m.isBtcSpvFailed <==> rd.anchorWired && st.hBtcAnchored >= 1 && !rd.anchorHolds)
              && b.hBtcCurrent == h
            case FixedGap(gap) => m.btcGap == gap && !m.isBtcSpvFailed && b.hBtcCurrent == st.hBtcCurrent
            case Unreachable =>
              m.btcGap == p.sovereignThreshold && !m.isBtcSpvFailed && b.hBtcCurrent == st.hBtcCurrent
            case HeightError =>
              m.btcGap == p.sovereignThreshold && !m.isBtcSpvFailed && b.hBtcCurrent == st.hBtcCurrent
  {
  }

  /** What the DA sensor makes of its answers: with a publisher, the verified height and the gap add up to
      the chain height, or to the verified height when that is higher, and both flags are up exactly when
      the last submission failed or the probe did. */
  lemma SensedDa(st: Store, rd: Readings, height: nat, p: Params)
    ensures var m, b := Sensed(st, rd, height, p), Refresh(st, rd, height, p);
            match rd.da
            case LiveDa(failed, probeHealthy, verified) =>
              var reached := if verified == None then 0 else verified.value;
              && m.daGap + reached == Max(height, reached)
              && (m.isDasFailed <==> failed || !probeHealthy) && (m.isAttestationFailed <==> failed || !probeHealthy)
              && b.hEngramCurrent == height
            case FixedDa(available, dasFailed, attestationFailed) =>
              && m.isDasFailed == dasFailed && m.isAttestationFailed == attestationFailed
              && m.daGap == (if available && !dasFailed && !attestationFailed then 0 else p.daThreshold)
              && b.hEngramCurrent == st.hEngramCurrent
  {
  }

  /** The peers' readings reach the snapshot as they are. */
  lemma SensedPeers(st: Store, rd: Readings, height: nat, p: Params)
    ensures var m := Sensed(st, rd, height, p);
            P2PSnapshot(m.subnetDiversity, m.activeAnchors, m.cleanPeers, m.peerChurnRate, m.avgPeerTenure,
                        m.peerLatency) == rd.p2p
  {
  }

  /** The readings alone give Bitcoin up: no view of it, a tip out of reach of the anchor, or an anchor
      that does not verify. */
  predicate BitcoinLost(st: Store, rd: Readings, p: Params) {
    match rd.btc
    case Unreachable => true
    case HeightError => true
    case FixedGap(gap) => gap >= p.sovereignThreshold
    case ChainTip(h) =>
      || Max(h, st.hBtcAnchored) >= st.hBtcAnchored + p.sovereignThreshold
      || (rd.anchorWired && st.hBtcAnchored >= 1 && !rd.anchorHolds)
  }

  /** Which readings lock the chain at once: from ANCHORED and SUSPICIOUS a validator expects SOVEREIGN
      exactly when Bitcoin is lost, no anchor peer is left, or the SUSPICIOUS time is up. */
  lemma LockExpectedExactly(st: Store, rd: Readings, height: nat, p: Params)
    requires st.machine.state == Anchored || st.machine.state == Suspicious
    ensures Expected(st, rd, height, p) == Sovereign
       <==> || BitcoinLost(st, rd, p)
            || rd.p2p.activeAnchors == 0
            || st.machine.suspiciousDuration >= p.maxSuspiciousTime
  {
    SensedBitcoin(st, rd, height, p);
    SensedPeers(st, rd, height, p);
  }

  /** With Bitcoin lost every validator of every state expects SOVEREIGN. */
  lemma LostBitcoinLocks(st: Store, rd: Readings, height: nat, p: Params)
    requires p.Valid() && !st.machine.state.Unknown? && BitcoinLost(st, rd, p)
    ensures Expected(st, rd, height, p) == Sovereign
  {
    SensedBitcoin(st, rd, height, p);
    JudgedExactly(Sensed(st, rd, height, p), p, st.machine.suspiciousDuration);
  }
}
