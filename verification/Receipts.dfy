/** Receipt checks: the Celestia freshness window and the Bitcoin checkpoint window,
    both widening with the consensus round. */
module Receipts {
  import opened Uint64
  import opened Fsm

  datatype DaReceipt = DaReceipt(publishedBlockHeight: nat, attestation: bool)

  datatype BlockHash = BlockHash(tag: string, height: nat)

  datatype BtcReceipt = BtcReceipt(checkpointBlockHeight: nat, checkpointBlockHash: BlockHash)

  const LIVENESS_MARGIN: nat := 2

  /** The bits of `x` read as a signed 64-bit number. */
  function Int64(x: int): int {
    var r := x % SIZE;
    if r < HALF then r else r - SIZE
  }

  function ExpectedBlockHash(height: nat): BlockHash {
    BlockHash("BTC_BLOCK", height)
  }

  function DaTolerance(round: nat): nat {
    if round <= 1 then 0 else if round == 2 then 2 else 4
  }

  function BtcTolerance(round: nat, kDeepFinality: nat): nat {
    (kDeepFinality + LIVENESS_MARGIN + round) % SIZE
  }

  /** States whose proposals must carry fresh receipts whatever the sensors say. */
  predicate ClaimsSettled(s: State) {
    s == Anchored || s == Recovering
  }

  predicate VerifyDaReceipt(receipt: DaReceipt, state: State, isDAHealthy: bool,
                            hEngramCurrent: nat, daThreshold: nat, round: nat) {
    if !(ClaimsSettled(state) || isDAHealthy) then true
    else if !receipt.attestation || receipt.publishedBlockHeight > hEngramCurrent then false
    else
      var lower := Int64(Int64(Int64(hEngramCurrent) - Int64(daThreshold)) - Int64(DaTolerance(round)));
      receipt.publishedBlockHeight >= Max(lower, 0)
  }

  predicate VerifySPVProof(receipt: BtcReceipt, hBtcCurrent: nat, hBtcAnchored: nat) {
    && receipt.checkpointBlockHeight <= hBtcCurrent
    && receipt.checkpointBlockHeight >= hBtcAnchored
    && receipt.checkpointBlockHash == ExpectedBlockHash(receipt.checkpointBlockHeight)
  }

  predicate VerifyBtcReceipt(receipt: BtcReceipt, state: State, isBTCHealthy: bool,
                             hBtcCurrent: nat, hBtcAnchored: nat, round: nat, kDeepFinality: nat) {
    if !(ClaimsSettled(state) || isBTCHealthy) then true
    else
      var lower := Int64(Int64(hBtcCurrent) - Int64(BtcTolerance(round, kDeepFinality)));
      && receipt.checkpointBlockHeight >= Max(lower, 0)
      && VerifySPVProof(receipt, hBtcCurrent, hBtcAnchored)
  }

  lemma Int64Difference(a: int, b: int)
    ensures Int64(Int64(a) - Int64(b)) == Int64(a - b)
  {
  }

  /** Read as a signed 64-bit number, `e` gives the same lower bound as `e` itself, cut off at zero. */
  predicate Legible(e: int) {
    e < HALF && (e >= 0 || e % SIZE == 0 || e % SIZE >= HALF)
  }

  lemma LegibleExactly(e: int)
    ensures Legible(e) <==> Max(Int64(e), 0) == Max(e, 0)
  {
  }

  /** The low-water marks of the two receipts, in unbounded integers. */
  function DaMark(h: nat, threshold: nat, round: nat): int {
    h - threshold - DaTolerance(round)
  }

  function BtcMark(h: nat, k: nat, round: nat): int {
    h - k - LIVENESS_MARGIN - round
  }

  /** The attested publication is no newer than the Engram height and at most DAThreshold older, with two
      blocks of grace from round 2 and four from round 3 on. */
  predicate DaFresh(receipt: DaReceipt, h: nat, threshold: nat, round: nat) {
    var age := h - receipt.publishedBlockHeight;
    && receipt.attestation
    && 0 <= age
    && (age <= threshold || (round >= 2 && age <= threshold + 2) || (round >= 3 && age <= threshold + 4))
  }

  /** The checkpoint is between the committed anchor and the tip, at most KDeepFinality + 2 blocks and one
      more for every round below the tip, and carries the expected hash. */
  predicate BtcFresh(receipt: BtcReceipt, h: nat, anchored: nat, round: nat, k: nat) {
    && anchored <= receipt.checkpointBlockHeight <= h
    && h - receipt.checkpointBlockHeight <= k + 2 + round
    && receipt.checkpointBlockHash == BlockHash("BTC_BLOCK", receipt.checkpointBlockHeight)
  }

  /** The DA check in terms of its low-water mark, for all inputs. */
  lemma DaCheck(receipt: DaReceipt, state: State, isDAHealthy: bool, h: nat, threshold: nat, round: nat)
    ensures VerifyDaReceipt(receipt, state, isDAHealthy, h, threshold, round)
       <==> (ClaimsSettled(state) || isDAHealthy ==>
               && receipt.attestation
               && Max(Int64(DaMark(h, threshold, round)), 0) <= receipt.publishedBlockHeight <= h)
  {
    Int64Difference(h, threshold);
    Int64Difference(h - threshold, DaTolerance(round));
    assert Int64(Int64(h - threshold)) == Int64(h - threshold);
  }

  lemma BtcCheck(receipt: BtcReceipt, state: State, isBTCHealthy: bool, h: nat, anchored: nat, round: nat, k: nat)
    ensures VerifyBtcReceipt(receipt, state, isBTCHealthy, h, anchored, round, k)
       <==> (ClaimsSettled(state) || isBTCHealthy ==>
               && Max(Int64(BtcMark(h, k, round)), 0) <= receipt.checkpointBlockHeight
               && VerifySPVProof(receipt, h, anchored))
  {
    var tol := k + LIVENESS_MARGIN + round;
    assert Int64(BtcTolerance(round, k)) == Int64(tol);
    Int64Difference(h, tol);
  }

  /** Where its mark is legible the DA check is a two-sided window around the current Engram height. */
  lemma DaWindow(receipt: DaReceipt, state: State, isDAHealthy: bool, h: nat, threshold: nat, round: nat)
    requires Legible(DaMark(h, threshold, round))
    ensures VerifyDaReceipt(receipt, state, isDAHealthy, h, threshold, round)
       <==> (ClaimsSettled(state) || isDAHealthy ==> DaFresh(receipt, h, threshold, round))
  {
    DaCheck(receipt, state, isDAHealthy, h, threshold, round);
    LegibleExactly(DaMark(h, threshold, round));
  }

  /** Where its mark is legible the Bitcoin check is a two-sided window below the current tip, never
      below the last committed anchor. */
  lemma BtcWindow(receipt: BtcReceipt, state: State, isBTCHealthy: bool, h: nat, anchored: nat, round: nat, k: nat)
    requires Legible(BtcMark(h, k, round))
    ensures VerifyBtcReceipt(receipt, state, isBTCHealthy, h, anchored, round, k)
       <==> (ClaimsSettled(state) || isBTCHealthy ==> BtcFresh(receipt, h, anchored, round, k))
  {
    BtcCheck(receipt, state, isBTCHealthy, h, anchored, round, k);
    LegibleExactly(BtcMark(h, k, round));
  }

  /** The DA check is that window for every receipt exactly when the mark is legible. */
  lemma DaWindowExactWhen(h: nat, threshold: nat, round: nat)
    ensures (forall receipt: DaReceipt, state: State, isDAHealthy: bool ::
               VerifyDaReceipt(receipt, state, isDAHealthy, h, threshold, round)
               <==> (ClaimsSettled(state) || isDAHealthy ==> DaFresh(receipt, h, threshold, round)))
       <==> Legible(DaMark(h, threshold, round))
  {
    var mark := DaMark(h, threshold, round);
    if Legible(mark) {
      forall receipt: DaReceipt, state: State, isDAHealthy: bool
        ensures VerifyDaReceipt(receipt, state, isDAHealthy, h, threshold, round)
           <==> (ClaimsSettled(state) || isDAHealthy ==> DaFresh(receipt, h, threshold, round))
      {
        DaWindow(receipt, state, isDAHealthy, h, threshold, round);
      }
    } else {
      LegibleExactly(mark);
      var receipt := DaReceipt(Min(Max(Int64(mark), 0), Max(mark, 0)), true);
      DaCheck(receipt, Anchored, true, h, threshold, round);
      assert VerifyDaReceipt(receipt, Anchored, true, h, threshold, round) <==> !DaFresh(receipt, h, threshold, round);
    }
  }

  /** The Bitcoin check is that window for every receipt and anchor exactly when the mark is legible. */
  lemma BtcWindowExactWhen(h: nat, round: nat, k: nat)
    ensures (forall receipt: BtcReceipt, state: State, isBTCHealthy: bool, anchored: nat ::
               VerifyBtcReceipt(receipt, state, isBTCHealthy, h, anchored, round, k)
               <==> (ClaimsSettled(state) || isBTCHealthy ==> BtcFresh(receipt, h, anchored, round, k)))
       <==> Legible(BtcMark(h, k, round))
  {
    var mark := BtcMark(h, k, round);
    if Legible(mark) {
      forall receipt: BtcReceipt, state: State, isBTCHealthy: bool, anchored: nat
        ensures VerifyBtcReceipt(receipt, state, isBTCHealthy, h, anchored, round, k)
           <==> (ClaimsSettled(state) || isBTCHealthy ==> BtcFresh(receipt, h, anchored, round, k))
      {
        BtcWindow(receipt, state, isBTCHealthy, h, anchored, round, k);
      }
    } else {
      LegibleExactly(mark);
      var low := Min(Max(Int64(mark), 0), Max(mark, 0));
      var receipt := BtcReceipt(low, ExpectedBlockHash(low));
      BtcCheck(receipt, Anchored, true, h, 0, round, k);
      assert VerifyBtcReceipt(receipt, Anchored, true, h, 0, round, k) <==> !BtcFresh(receipt, h, 0, round, k);
    }
  }
}
