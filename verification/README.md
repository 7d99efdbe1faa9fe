# Engram sovereign FSM: a Dafny model and its proofs

Engram is a chain whose validators watch Bitcoin, Celestia and their own peer network, and agree
block by block on one of four states: ANCHORED, SUSPICIOUS, SOVEREIGN, RECOVERING. This project
models the consensus code that moves between those states and proves what every run of it keeps.

| file | what it models |
|---|---|
| `Fsm.dfy` | uint64 arithmetic, parameters, sensor predicates, the transition function, the five counters, the local machine |
| `Backoff.dfy` | the exponential backoff of the RECOVERING demotion threshold |
| `Runs.dfy` | counter ranges, stays, demotion timing, bounded escalation and recovery over runs |
| `Leaky.dfy` | what the leaky counters measure, and when "consecutive healthy blocks" is true of them |
| `Transitions.dfy` | the successor relation: exactly which blocks, and which parameters, allow each change of state |
| `Receipts.dfy` | the DA and Bitcoin receipt windows, with their signed 64-bit arithmetic |
| `Store.dfy` | the keeper's store as a value: commit, forced-queue bookkeeping, recovery proofs |
| `Proposals.dfy` | sensor refresh, building a proposal, validating one |
| `Readings.dfy` | what the readings say about the snapshot, and the snapshot about the next state |
| `Sensors.dfy` | a validator's own anchor tracker and DA publisher as one refresh moves and reads them |
| `Keeper.dfy` | the keeper as a class whose handlers update its items in place, each tied to `Store.dfy` and `Proposals.dfy` |
| `Chain.dfy` | many validators with their own readings, any proposer, quorum votes, the committed chain |
| `Ledger.dfy` | the re-anchoring ledger over whole runs of decided blocks |
| `Coverage.dfy` | scripted legal runs: re-anchoring by proof, re-anchoring without one, and when each can happen |
| `Acceptance.dfy` | what an accepted block means, what an honest proposer builds, what a decided block commits |
| `Inclusion.dfy` | forced inclusion over whole runs of decided blocks |
| `Publisher.dfy` | the DA publisher and its background submission, under every interleaving |
| `Anchor.dfy` | the Bitcoin anchor tracker on a growing chain without reorganisations |
| `Churn.dfy` | the P2P snapshot: its counts, and its churn window over any history |
| `Links.dfy` | the pairwise link numbering and the addresses dialled on the links |

A run of the local machine is a sequence of inputs, one sensor snapshot and proof flag a block, and
`At(p, xs, i)` is the machine after `i` of them. A run of the chain is a sequence of decided blocks
with the votes behind them, and `StoreAt(net, ds, i)` is the committed store after `i` of them.
Nothing is assumed of proposers or faulty voters.

## Assumptions

- A decided block has votes from more than two thirds of the power, less than one third of the power
  is faulty, and an honest validator votes only for a block its own validation accepted.
- Proposal handlers work on a discarded copy of the store; the pre-blocker works on the committed one.
- Sensors are wired. What bitcoind, Celestia and the peers answer is an input, free to differ between
  validators, blocks and rounds; the anchor tracker and the DA publisher are modelled and, where wired,
  are called by every refresh. Neither of them, nor any sensor read, ever returns an error to the refresh.
- An encoded extended proposal decodes to itself.
- `Params.Sized` keeps counters' limits below 2^63, so `+ 1` and doubling do not wrap; wrapping itself
  is modelled (`Inc`, `Double`, `Int64`, `TailLength`), and where the limit matters the exact condition
  is proved (`BackoffLaws.BackoffExactWhen`, `Receipts.DaWindowExactWhen`, `Receipts.BtcWindowExactWhen`).
- The scripted runs of `Coverage.dfy` are for valid parameters with HysteresisWait below 2^61,
  KDeepFinality below 2^62 and DAThreshold below 2^63 (`Ordinary`).

## Where the code and its documentation differ

The model follows the code.

- The comments and `spec/README.md` say that leaving SUSPICIOUS and leaving RECOVERING take a number of
  *consecutive* healthy blocks. The counters leak by one instead of restarting.
  `Leaky.ConsecutiveExactWhen` and `Leaky.SustainedExactWhen` give the exact parameters for which the
  claim is nevertheless true of all runs, and `Leaky.LeakyScript` and `Leaky.SustainedFails` the runs that
  break it otherwise.
- The comment on `CalculateNextState` says no state has a direct way to SOVEREIGN that skips SUSPICIOUS.
  ANCHORED has one, under all parameters (`Runs.EclipseSkipsSuspicious`), and takes it on exactly the
  critical blocks (`Runs.CriticalEscalates`). `Transitions.EdgesExactly` gives the whole successor relation.
- `spec/README.md` says that recovery takes a valid ZK proof. After the chain has re-anchored once, a
  claimed proof reference raises the height heuristic, and with it the flag, for as long as the committed
  anchor does not fall below the checkpoint it re-anchored at; no recovery proof is looked at. `Coverage.CoverageExactWhen` shows that the claim holds of all runs only under parameters
  where no run re-anchors at all, `Coverage.UnprovenReturn` constructs the run that breaks it otherwise,
  `Ledger.HeuristicExactly` says exactly when the heuristic holds, and `Ledger.ReanchoringCovered` and
  `Ledger.UnclaimedReanchoringProven` say which returns are certainly proven.
- `EffectiveDownHysteresisThreshold` is documented as a capped doubling. For caps above 2^63 the doubling
  can wrap; `BackoffLaws.BackoffExactWhen` says exactly when it does not.
- Bounded recovery needs at least one anchor peer and one SUSPICIOUS block in the parameters, which
  parameter validation does not ask for; `Runs.RecoveryExactWhen` shows both are needed.
- With `MaxUnprovenTailBlocks` zero no accepted proof ever satisfies the proof flag, since a proof that
  reaches the tip removes the header the tip is read from (`Ledger.ZeroTailNeverValid`,
  `Coverage.TipProofFails`, `Coverage.RealProofPossibleWhen`).
- The receipt checks compute their lower bounds in signed 64-bit arithmetic. They are the documented
  windows exactly where the low-water mark reads back as itself or as nothing below zero
  (`Receipts.DaWindowExactWhen`, `Receipts.BtcWindowExactWhen`).

## Model

| member | source | states |
|---|---|---|
| Fsm.EffectiveDownHysteresisThreshold | x/sovereignty/keeper/circuit_breaker.go:25-37 | the in-place doubling loop, early return included, computes the recursive threshold the other results reason about |
| Fsm.WarningIsUnhealthy | x/sovereignty/types/predicates.go:42-58 | below the critical line a warning is exactly the absence of health |
| Fsm.StreakMatchesSpec | x/sovereignty/keeper/circuit_breaker.go:144-161 | from every machine and input, the update driven by the single agreed health flag equals the TLA+ model's two-predicate update |
| BackoffLaws.ScaledIsProduct | x/sovereignty/keeper/circuit_breaker.go:26-31 | n doublings multiply by 2^n |
| BackoffLaws.BackoffIsCappedExponential | x/sovereignty/keeper/circuit_breaker.go:25-37 | where no doubled value reaches the upper half of the word, the loop is min(D * 2^n, Max) for every n |
| BackoffLaws.BackoffExactWhen | x/sovereignty/keeper/circuit_breaker.go:25-37 | the loop is min(D * 2^n, Max) for all n if and only if no doubling of D below Max lies at or above 2^63, that is, if and only if D is zero or Max is at most the first doubling of D that reaches 2^63; a cap of at most 2^63 is always enough |
| BackoffLaws.BackoffWrapExample | x/sovereignty/keeper/circuit_breaker.go:31 | a threshold of 2^63 under a cap of 2^63 + 1 wraps to zero after one failed recovery |
| BackoffLaws.AttemptsBounded | x/sovereignty/keeper/circuit_breaker.go:167-179 | in every run the failed-recovery count never exceeds any number of doublings that reaches the cap, the least one included |
| BackoffLaws.AttemptsExactly | x/sovereignty/keeper/circuit_breaker.go:167-179 | in every run the failed-recovery count is the number of RECOVERING to SOVEREIGN steps since the last RECOVERING to ANCHORED one, stopping at the least number of doublings that reaches the cap |
| BackoffLaws.ThresholdExactly | x/sovereignty/keeper/circuit_breaker.go:25-37 | in every run the effective demotion threshold is the base threshold doubled once for each of those regressions, up to the cap |
| BackoffLaws.ThresholdNeverFalls | x/sovereignty/keeper/circuit_breaker.go:163-179 | between two successful recoveries the effective demotion threshold never falls |
| Runs.AlwaysInRange | x/sovereignty/keeper/circuit_breaker.go:103-196 | the reachable ranges of all five counters in each state; the stored duration cap MaxSuspiciousTime + 1 is never reached |
| Runs.StreakCountsTail | x/sovereignty/keeper/circuit_breaker.go:154-161 | in ANCHORED and RECOVERING the streak is the number of trailing unhealthy blocks of the current stay |
| Runs.DemotionTiming | x/sovereignty/keeper/circuit_breaker.go:52-61 | a non-critical block demotes ANCHORED exactly at the threshold-th, and RECOVERING exactly at the effective-threshold-th, consecutive unhealthy block of the stay |
| Runs.CriticalEscalates | x/sovereignty/keeper/circuit_breaker.go:52-85 | a critical block is never softened by any counter, and ANCHORED and SUSPICIOUS go to SOVEREIGN on no other block |
| Runs.EclipseSkipsSuspicious | x/sovereignty/keeper/circuit_breaker.go:52-55 | for all parameters, ANCHORED reaches SOVEREIGN in one block |
| Transitions.SuccessorExactly | x/sovereignty/keeper/circuit_breaker.go:46-101 | for every reachable machine and block, an if-and-only-if for each change of state, in terms of the history of the stay |
| Transitions.EdgesExactly | spec/core/EngramFSM.tla:523-529 | under valid parameters the changes of state that some run makes are exactly those of the spec's transition relation that the parameters leave open, both ways |
| Runs.DurationCountsStay | x/sovereignty/keeper/circuit_breaker.go:181-196 | suspicious_duration is the length of the current SUSPICIOUS stay, entry block included |
| Runs.SuspiciousStayBounded | x/sovereignty/keeper/circuit_breaker.go:63-75 | no unbroken SUSPICIOUS stay exceeds MaxSuspiciousTime blocks |
| Runs.BoundedEscalation | x/sovereignty/keeper/circuit_breaker.go:51-75 | from any reachable ANCHORED or SUSPICIOUS machine, max(DownHysteresisThreshold, 1) + MaxSuspiciousTime unhealthy blocks end in SOVEREIGN |
| Runs.BoundedRecovery | x/sovereignty/keeper/circuit_breaker.go:46-101 | healthy blocks with the proof flag up while RECOVERING bring any reachable machine to ANCHORED within MaxSuspiciousTime + HysteresisWait + 2 blocks and keep it there |
| Runs.RecoveryExactWhen | x/sovereignty/types/predicates.go:31-58 | under valid parameters that settling holds for all runs if and only if MinAnchorPeers and MaxSuspiciousTime are at least 1; otherwise a healthy run flaps for ever |
| Runs.MinimumLockout | x/sovereignty/keeper/circuit_breaker.go:77-96 | every SOVEREIGN block opens at least HysteresisWait + 2 consecutive locked blocks |
| Leaky.LeakyCounterIdentity | x/sovereignty/keeper/circuit_breaker.go:123-142 | suspicious_safe_blocks is the greatest healthy-minus-unhealthy count over the suffixes of the SUSPICIOUS stay after its entry block, and stays below suspicious_duration |
| Leaky.SuspiciousExitExactly | x/sovereignty/keeper/circuit_breaker.go:63-75 | SUSPICIOUS returns to ANCHORED exactly on the non-critical block that brings that maximum to the configured wait |
| Leaky.ExitNeedsShortWait | x/sovereignty/keeper/circuit_breaker.go:63-75 | an exit happens with the counter one short of the wait and the duration below its limit |
| Leaky.ExitPossibleWhen | x/sovereignty/keeper/circuit_breaker.go:63-75 | under valid parameters some run leaves SUSPICIOUS for ANCHORED if and only if the wait is below MaxSuspiciousTime |
| Leaky.ConsecutiveExactWhen | x/sovereignty/types/params.go:30-33 | "SuspiciousHysteresisWait consecutive healthy blocks" holds at every exit of every run if and only if the wait is at most 2 or MaxSuspiciousTime is at most the wait + 2 |
| Leaky.ConsecutiveFails | x/sovereignty/keeper/circuit_breaker.go:138-141 | outside those parameters a concrete run leaves SUSPICIOUS two blocks after an unhealthy one |
| Leaky.SafeBlocksEarned | x/sovereignty/keeper/circuit_breaker.go:103-121 | safe_blocks never overstates the RECOVERING stay: some suffix has at least that balance |
| Leaky.SafeBlocksExactly | x/sovereignty/keeper/circuit_breaker.go:103-121 | safe_blocks in closed form: the greatest v for which some suffix of the RECOVERING stay has a balance of at least v and no shorter one falls more than HysteresisWait below v |
| Leaky.RecoveryExitExactly | x/sovereignty/keeper/circuit_breaker.go:82-96 | RECOVERING returns to ANCHORED exactly on a healthy, non-critical, proven block after which some suffix of the stay has a balance of HysteresisWait and no shorter one a negative balance |
| Leaky.RecoveryEarned | x/sovereignty/keeper/circuit_breaker.go:82-96 | every RECOVERING to ANCHORED step is healthy, non-critical, proven, and follows at least HysteresisWait + 1 RECOVERING blocks with a suffix balance of at least HysteresisWait |
| Leaky.SustainedExactWhen | spec/README.md:175 | "HYSTERESIS_WAIT consecutive healthy blocks" holds at every re-anchoring of every run if and only if the wait is at most 2 or RECOVERING can never absorb an unhealthy block |
| Leaky.SustainedFails | x/sovereignty/keeper/circuit_breaker.go:117-120 | outside those parameters a concrete run re-anchors two blocks after an unhealthy one |
| Receipts.DaWindow | x/da/verify.go:39-58 | where its low-water mark is legible the signed, clamped DA check is a two-sided window around the Engram height, required only where the state or the sensor demands it |
| Receipts.BtcWindow | x/anchor/verify.go:49-86 | where its low-water mark is legible the Bitcoin check is a two-sided window below the tip, never below the committed anchor, with the expected hash |
| Receipts.DaWindowExactWhen | x/da/verify.go:39-58 | for all heights, thresholds and rounds: the DA check is that window for every receipt if and only if the mark is legible |
| Receipts.BtcWindowExactWhen | x/anchor/verify.go:71-86 | for all heights, depths and rounds: the Bitcoin check is that window for every receipt and anchor if and only if the mark is legible |
| ReadingLaws.JudgedExactly | x/sovereignty/types/predicates.go:9-58 | which readings make Bitcoin, DA, peers and the whole snapshot healthy, and which make it critical, each a comparison with its threshold |
| ReadingLaws.GenesisCheckMeans | x/sovereignty/types/params.go:109-142 | the genesis check in terms of what it protects: healthy settled gaps, a warning band, a healthy DA gap, room in a subnet, a backoff that starts at its base, and rounds of enforcement |
| ReadingLaws.SensedBitcoin | x/sovereignty/sensors_refresh.go:149-188 | at a live tip gap and committed anchor add up to the tip; the failure flag is up exactly when a committed anchor is checked and fails; blind, the gap is the SOVEREIGN threshold |
| ReadingLaws.SensedDa | x/sovereignty/sensors_refresh.go:109-134 | with a publisher gap and verified height add up to the chain height, and both flags are up exactly when the last submission or the probe failed |
| ReadingLaws.LockExpectedExactly | x/sovereignty/keeper/circuit_breaker.go:51-66 | from ANCHORED and SUSPICIOUS a validator expects SOVEREIGN exactly when its readings lose Bitcoin, no anchor peer is left, or the SUSPICIOUS time is up |
| ReadingLaws.LostBitcoinLocks | x/sovereignty/sensors_refresh.go:155-172 | an outage, a tip out of reach of the anchor or an anchor that does not verify makes every validator expect SOVEREIGN from every state |
| Acceptance.AcceptedExactly | x/sovereignty/proposal.go:259-360 | for a block from any proposer, acceptance is one list of conditions on the store, the readings and the block, with every constant written out |
| Acceptance.ReferenceExactly | x/sovereignty/proposal.go:347-356 | an accepted block from any proposer refers to a proof exactly in RECOVERING at the ceiling, and then brings an attested publication above the committed one |
| Acceptance.HonestBlockExactly | x/sovereignty/proposal.go:153-239 | an honest proposer claims its own confirmed anchor exactly when that is above the committed one and not above the tip, its own publication exactly when that is above the committed one, and the stored root exactly at the ceiling with such a publication |
| Acceptance.TrackersClaimed | x/sovereignty/proposal.go:160-192 | an honest proposer claims its tracker's last confirmed height and its publisher's verified height, each exactly when it is newer than the committed one and, for the anchor, not above the tip |
| Acceptance.TrackersSensed | x/sovereignty/sensors_refresh.go:32-98 | what a validator's own tracker and publisher put into its snapshot, and that it accepts no new anchor it could not verify |
| Acceptance.HonestProposalAccepted | x/sovereignty/proposal.go:259-360 | on the same store, readings and round, validation accepts an honestly built proposal if and only if no overdue forced transaction is left out, its own anchor and publication are fresh, a new anchor verifies, and RECOVERING is not at its ceiling without a new publication or a root; no other check can reject it |
| Acceptance.FilterKeepsOrder | x/sovereignty/proposal.go:211-220 | dropping withdrawals keeps what is left in order and in number |
| Acceptance.WithdrawalExactly | x/sovereignty/proposal.go:248-254 | a transaction carries a withdrawal exactly when the marker occurs anywhere in its text |
| Acceptance.CommitRecords | x/sovereignty/preblock.go:112-148 | what a decided proposal leaves in the heights, the snapshot and the proof flag, in each case |
| Acceptance.HonestBlockRecorded | x/sovereignty/preblock.go:112-117 | once decided, an honest proposer's block commits its own confirmed anchor and publication |
| Proposals.AcceptanceMonotone | x/sovereignty/proposal.go:275-346 | acceptance at one round is acceptance at every later round |
| Proposals.OverdueWithdrawalBlocks | x/sovereignty/proposal.go:282-346 | while the next state is locked, an overdue queued withdrawal makes every proposal unacceptable below MaxCensorshipRounds |
| Proposals.QueueWaived | x/sovereignty/proposal.go:279-297 | from MaxCensorshipRounds on the verdict is the same for any forced queue and counters |
| Proposals.VerdictIgnoresStoredSensors | x/sovereignty/sensors_refresh.go:28-99 | a verdict never depends on the snapshot or proof flag left in the committed store |
| Proposals.CommitIsLocalStep | x/sovereignty/preblock.go:79-111 | a block some validator accepted commits exactly the machine the local step computes on that validator's own refreshed copy |
| Censorship.IsCensoring | x/sovereignty/types/censorship.go:6-13 | the early-returning scan finds whether some queued transaction is overdue and missing |
| Censorship.NextIgnoredRounds | x/sovereignty/types/censorship.go:19-33 | one counter for each queued transaction: zero if included, one more omission otherwise, stopping at the limit + 1 |
| KeeperClass.Keeper.BeginBlocker | x/sovereignty/abci.go:13-106 | the local block moves only the state and counters, by one machine step on the stored snapshot and flag |
| KeeperClass.Keeper.TrackedHeights | x/sovereignty/keeper/msg_server.go:123-132 | the tracked heights, each once, ascending |
| KeeperClass.Keeper.FindHeaderByStateRoot | x/sovereignty/keeper/msg_server.go:100-118 | finds a matching header whenever there is one, and then the lowest |
| KeeperClass.Keeper.LatestTrackedHeader | x/sovereignty/keeper/msg_server.go:143-165 | the highest tracked height, or none when nothing is tracked |
| KeeperClass.Keeper.PruneHeaderHistoryUpTo | x/sovereignty/keeper/msg_server.go:120-141 | removes exactly the headers at or below a height and keeps the rest unchanged |
| KeeperClass.Keeper.PruneHeaderHistory | x/sovereignty/preblock.go:187-206 | removes every header |
| KeeperClass.Keeper.CommitFSMTransition | x/sovereignty/preblock.go:76-185 | the whole store after a decided proposal is written, whatever the proposal claims |
| KeeperClass.Keeper.UpdateForcedTxTracking | x/sovereignty/preblock.go:43-74 | the queue and counters after a block: included transactions leave both, the others count one omission |
| KeeperClass.Keeper.ForcedTxQueueSlice | x/sovereignty/keeper/censorship.go:5-15 | lists every queued transaction once |
| KeeperClass.Keeper.IgnoredRoundsMap | x/sovereignty/keeper/censorship.go:17-31 | the counters of exactly the given transactions, absent ones read as zero |
| KeeperClass.Keeper.PreBlocker | x/sovereignty/preblock.go:21-41 | forced tracking first, then the commit if the first transaction carries a readable proposal |
| KeeperClass.Keeper.HandleRecoveryProof | x/sovereignty/keeper/msg_server.go:58-98 | accepts only a verified proof of 96 input bytes, from the current root to a tracked one, and then moves root, headers and proof height together; otherwise changes nothing |
| KeeperClass.Keeper.HandleForcedTx | x/sovereignty/keeper/msg_server.go:34-44 | queues a decodable transaction and nothing else |
| KeeperClass.Keeper.HandleInjectFault | x/sovereignty/keeper/msg_server.go:19-27 | overwrites the stored snapshot and nothing else |
| KeeperClass.Keeper.RefreshReanchoringProofValid | x/sovereignty/sensors_refresh.go:190-212 | the proof flag is a function of the committed store alone |
| KeeperClass.Keeper.RefreshMetrics | x/sovereignty/sensors_refresh.go:32-98 | the refreshed copy: snapshot, two current heights and proof flag, nothing else; on the way both of the validator's trackers are called once, after Bitcoin is read and before DA is |
| KeeperClass.Keeper.BtcGap | x/sovereignty/sensors_refresh.go:149-188 | the gap to the committed anchor, the maximum gap in an outage, and the re-verification of that anchor; stores the tip |
| KeeperClass.Keeper.DaGap | x/sovereignty/sensors_refresh.go:109-134 | the gap to the height the publisher verified and both failure flags; stores the chain height |
| SensorBundle.Sensors.Poll | x/sovereignty/sensors_refresh.go:44-60 | both trackers' calls in one refresh, and a background submission that finishes before the flags are read |
| SensorBundle.PollExtendsRun | x/da/publisher.go:64-121 | a refresh moves the publisher by exactly one call, and by the completion that comes in before the flags are read, of an interleaving |
| SensorBundle.PollExtendsAnchorRun | x/anchor/anchor.go:83-124 | a refresh moves the anchor tracker by exactly one call of a run |
| SensorBundle.HonestClaimsSound | x/sovereignty/proposal.go:160-192 | an anchor an honest proposer newly claims passes every validator's own check at every later tip; a publication it newly claims was posted and seen available |
| KeeperClass.Keeper.PrepareProposal | x/sovereignty/proposal.go:153-239 | the block an honest proposer builds, from its own trackers, on a copy that leaves the committed store alone |
| KeeperClass.Keeper.ProcessProposal | x/sovereignty/proposal.go:259-360 | the sequence of early rejections is the verdict, from the validator's own trackers, on a copy that leaves the committed store alone |
| Chain.WeightSplit | spec/README.md:779-783 | voting power is additive over a partition of the voters |
| Chain.HonestThird | spec/README.md:779-783 | the honest voters behind a decided block hold more than a third of the power |
| Chain.BackedByThird | x/sovereignty/proposal.go:299-311 | honest validators with more than a third of the power computed each committed machine from their own readings |
| Chain.ChainRefinesLocal | x/sovereignty/preblock.go:79-111 | for every run of decided blocks, inputs sensed by an honest voter of each block drive the local machine through exactly the committed states and counters |
| Chain.WithdrawalLockout | x/sovereignty/proposal.go:339-346 | every committed SOVEREIGN block starts at least HysteresisWait + 2 consecutive committed blocks without a withdrawal |
| Chain.CommittedRecoveryEarned | x/sovereignty/keeper/circuit_breaker.go:82-121 | each committed step from RECOVERING to ANCHORED is a healthy block after at least HysteresisWait + 1 committed RECOVERING blocks, with a suffix of the stay whose committed healthy-minus-unhealthy count is at least HysteresisWait |
| Acceptance.DecidedHeights | x/sovereignty/preblock.go:112-117 | whoever proposed it, a decided block commits the heights it claims |
| Acceptance.ClaimsExactly | x/sovereignty/proposal.go:347-356 | in every run a decided block refers to a proof exactly when it commits RECOVERING at the ceiling, and it then strictly raises the committed publication |
| Acceptance.LostBitcoinCommitsSovereign | x/sovereignty/proposal.go:299-304 | a block that one honest voter with Bitcoin lost voted for commits SOVEREIGN |
| Ledger.CommitConserves | x/sovereignty/preblock.go:150-182 | a commit keeps the ledger invariant, opening an interval, extending it, or closing it |
| Ledger.ProofConserves | x/sovereignty/keeper/msg_server.go:71-90 | an accepted proof keeps the ledger invariant and reaches strictly beyond the covered prefix |
| Ledger.LedgerConserved | x/sovereignty/preblock.go:150-206 | in every reachable store the tracked headers are exactly the unproven suffix of the locked interval with their own roots, and empty outside one; checkpoints strictly increase; their roots chain from the entry root to the stored one |
| Ledger.ProofEffectExactly | x/sovereignty/keeper/msg_server.go:58-98 | a message whose proof does not verify, is not 96 bytes long, does not start at the current root or does not reach a tracked header leaves the store as it was; any other moves the checkpoint to the lowest such header |
| Ledger.LogFromProofs | x/sovereignty/keeper/msg_server.go:58-98 | in every legal run each logged checkpoint comes from a message, delivered by a block of the interval not before the block it reaches, whose proof verified and whose 96 input bytes start with the checkpoint's two roots |
| Ledger.ProofsReachFirst | x/sovereignty/keeper/msg_server.go:100-118 | in every reachable store each accepted proof covers up to the first block past the last checkpoint that has the proven root |
| Ledger.HeadersRecordStates | x/sovereignty/preblock.go:169-178 | each tracked header records the state its block committed |
| Ledger.IntervalBlocks | x/sovereignty/preblock.go:161-182 | the interval starts with the SOVEREIGN block that locked withdrawals and every block since has kept them locked |
| Ledger.TailNeverWraps | x/sovereignty/sensors_refresh.go:203-206 | every tracked height exceeds the recorded proof height, so the unsigned subtraction is exact |
| Ledger.RealProofExactly | x/sovereignty/sensors_refresh.go:202-207 | the real-proof half of the flag holds exactly when a proof stands and the interval's unproven blocks number from 1 to MaxUnprovenTailBlocks |
| Ledger.ZeroTailNeverValid | x/sovereignty/sensors_refresh.go:202-207 | with MaxUnprovenTailBlocks zero the real-proof half is never true in any run |
| Ledger.ReanchoringCovered | x/sovereignty/sensors_refresh.go:193-212 | whenever RECOVERING goes to ANCHORED with the height heuristic false, all but at most MaxUnprovenTailBlocks of the interval's blocks since its opening SOVEREIGN block are covered by chained proofs that blocks of the interval delivered and that verified |
| Ledger.CommittedHeightIsLastReanchored | x/sovereignty/preblock.go:130-138 | the committed Bitcoin height is the checkpoint of the latest re-anchoring block, never a live reading |
| Ledger.HeuristicExactly | x/sovereignty/sensors_refresh.go:209 | in every reachable store the height heuristic holds exactly when the latest proof claim came after a re-anchoring at a positive checkpoint and the committed anchor is at or above that checkpoint |
| Ledger.StandingExactly | x/sovereignty/preblock.go:150-156 | the recorded proof height is the checkpoint of the latest proof logged since the chain last left RECOVERING, or zero |
| Ledger.FlagExactly | x/sovereignty/sensors_refresh.go:193-212 | the proof flag of every reachable store in terms of history alone: RECOVERING, and either the latest claim's checkpoint is committed, or a proof stands and from 1 to MaxUnprovenTailBlocks blocks are unproven |
| Ledger.UnclaimedReanchoringProven | x/sovereignty/preblock.go:119-128 | a return to ANCHORED is covered by accepted proofs whenever no block has claimed a proof since the chain first re-anchored |
| Ledger.RecoveryResyncs | x/sovereignty/preblock.go:130-157 | the re-anchoring block closes both gaps, clears both failure flags, the proof height and the headers |
| Ledger.HeuristicNeedsHistory | x/sovereignty/preblock.go:119-128 | until the chain has re-anchored once the height heuristic cannot hold |
| Ledger.FirstReanchoringProven | x/sovereignty/sensors_refresh.go:193-212 | the first return to ANCHORED of any run is always covered by accepted proofs |
| Ledger.ReachableRooted | x/sovereignty/preblock.go:161-168 | every reachable locked store holds a 32-byte root, so honest proposals at the ceiling always have one |
| Coverage.TipProofFails | x/sovereignty/sensors_refresh.go:202-207 | under all parameters, a legal run in which a proof that reaches the tip is accepted and the real-proof half stays down |
| Coverage.RealProofPossibleWhen | x/sovereignty/sensors_refresh.go:202-207 | some legal run has the real-proof half up if and only if MaxUnprovenTailBlocks is at least 1 |
| Coverage.ProvenReturn | x/sovereignty/keeper/circuit_breaker.go:92-96 | a legal run that re-anchors by proof, for every HysteresisWait |
| Coverage.ReanchoringPossibleWhen | x/sovereignty/keeper/circuit_breaker.go:77-96 | some legal run re-anchors if and only if MaxUnprovenTailBlocks and MaxSuspiciousTime are at least 1 |
| Coverage.UnprovenReturn | x/sovereignty/preblock.go:119-128 | a legal run that re-anchors a second time with no recovery proof accepted in its interval |
| Coverage.CoverageExactWhen | spec/README.md:175 | "and a valid ZK proof" holds of every re-anchoring of every run if and only if no run can re-anchor at all |
| Inclusion.CounterCountsOmissions | x/sovereignty/preblock.go:49-74 | until it appears, a queued transaction's counter is the number of committed blocks that omitted it, stopping at MaxIgnoreRounds + 1 |
| Inclusion.ForcedInclusion | x/sovereignty/proposal.go:282-297 | a transaction queued by block b appears in one of blocks b+1 to b+1+MaxIgnoreRounds when each had an honest acceptance at a round below MaxCensorshipRounds |
| Inclusion.InclusionDequeues | x/sovereignty/preblock.go:59-68 | the block that holds a queued transaction removes it and its counter |
| Inclusion.QueueExactly | x/sovereignty/preblock.go:43-74 | after every run the forced queue holds exactly the transactions that some block submitted and no later block has held |
| Inclusion.SubmissionIncluded | x/sovereignty/keeper/msg_server.go:34-44 | a transaction submitted in block b, for the first time or again, appears in one of blocks b+1 to b+1+MaxIgnoreRounds under early honest acceptances |
| DaPublisher.Publisher.MaybePublish | x/da/publisher.go:64-121 | one call under the lock: age out, check, then launch at most one submission |
| DaPublisher.Publisher.Complete | x/da/publisher.go:103-119 | what the background submission writes when it finishes |
| DaPublisher.AlwaysConsistent | x/da/publisher.go:64-121 | under every interleaving at most one submission is in flight and never beside a pending one; the verified height is one whose blob was posted and seen available, and never exceeds the latest height |
| DaPublisher.VerifiedNeverFalls | x/da/publisher.go:93-96 | the verified height never decreases and stays known |
| DaPublisher.PendingResolved | x/da/publisher.go:68-97 | a call more than 60 heights past a pending submission drops it unverified and replaces it; an earlier one keeps it exactly until its blob is available |
| DaPublisher.IdleLaunches | x/da/publisher.go:99-121 | with nothing pending, an idle publisher always launches a submission of the height passed in and a busy one waits |
| DaPublisher.CompletionRecorded | x/da/publisher.go:103-119 | a finished submission becomes pending under its own height, a failed one raises the failure flag |
| AnchorTracking.AnchorTracker.MaybeSubmit | x/anchor/anchor.go:83-124 | one call: confirm at K + 1 confirmations, then broadcast unless paused or failing |
| AnchorTracking.ReportedAnchorsVerify | x/anchor/anchor.go:130-150 | every reported height passes VerifyAnchor then and at every later tip |
| AnchorTracking.ReportsSpaced | x/anchor/anchor.go:98-122 | successive confirmed heights differ by more than KDeepFinality |
| AnchorTracking.CallDecides | x/anchor/anchor.go:83-124 | what a call reports and broadcasts, in terms of the Bitcoin chain: it reports its checkpoint exactly when that is KDeepFinality deep, and an unpaused tracker with none left pending broadcasts a new one |
| AnchorTracking.AnchorWindow | x/anchor/verify.go:28-32 | depth and freshness hold together exactly for tips from height + K to height + K + 2 + round |
| Churn.PeerMonitor.PeerHealthSnapshot | cmd/engramd/main.go:545-619 | one snapshot: the new peer table with kept dates, one event for each unknown peer that came or went, the window filter, and all six readings: distinct subnets, anchors, peers, churn, mean tenure and worst round-trip time |
| Churn.HeldIsWindowed | cmd/engramd/main.go:595-602 | repeated filtering loses no event of the current window when the clock never runs back |
| Churn.ChurnRateIsWindowed | cmd/engramd/main.go:545-619 | over any snapshots the table holds exactly the connected peers, and the churn rate is the number of unknown peers that changed, summed over snapshots strictly newer than one hour |
| Churn.FirstSeenDates | cmd/engramd/main.go:558-594 | each connected peer is dated by the snapshot that began its present unbroken connection |
| Churn.SameSubnetExactly | x/sovereignty/types/subnet.go:8-13 | two addresses count as one subnet exactly within the same IPv4 /24 or the same IPv6 /48 |
| Churn.AnchorsCounted | cmd/engramd/main.go:571-573 | the active anchors are the persistent peers among the connected ones |
| Churn.MeanSecondsExactly | cmd/engramd/main.go:604-607 | the mean tenure is the whole number of seconds that the summed durations cover for every peer |
| Links.LinkOfPair | cmd/engramd/main.go:237-246 | every number below n(n-1)/2 is the link of some pair |
| Links.PairOfLink | cmd/engramd/main.go:237-246 | every pair's link is in range and names that pair back |
| Links.LinksDistinct | cmd/engramd/main.go:237-246 | two pairs share a link exactly when they are the same unordered pair |
| Links.RowMajor | cmd/engramd/main.go:237-246 | links are numbered in the order of their pairs, row by row |
| Links.AddressesDistinct | cmd/engramd/main.go:248-260 | distinct ordered (self, peer) pairs dial distinct addresses |
| Links.LinkEnds | cmd/engramd/main.go:248-260 | the lower-indexed end of a link is 172.40.link.2 and the higher 172.40.link.3 |
| Links.PeerSubnetsDistinct | x/sovereignty/types/subnet.go:8-13 | a validator's peers lie in pairwise distinct /24 networks |
| Links.LinkedPeersDiverse | cmd/engramd/main.go:248-260 | on dedicated links the subnet diversity of a snapshot is the number of connected validators |
| Links.AddressesValidWhen | cmd/engramd/main.go:254-260 | all dialled addresses are IPv4 addresses if and only if there are at most 23 validators |

## Left out

- The Noir circuit and the external proof checker: a recovery proof carries the checker's verdict as an input.
- Reduction of an app hash into the circuit's field: a block carries its 32-byte root already reduced.
- JSON and protobuf encoding: an encoded proposal is its own value, so a forced transaction equal to a block's first entry is compared by value; text is `string` rather than bytes.
- Sockets, timeouts, RPC decoding and the hex scan for the anchor tag: their answers are inputs; in the anchor model every mined checkpoint transaction carries the tag.
- Consensus rounds, locking and liveness of the voting engine: only the quorum that decides a block.
- Double-signing evidence records and the audit pointer to a proof's Celestia height: written and never read back.
- The proposer's fault-injection hook: the proposer is arbitrary already.
- The ante handler, peer admission filter, commands, bootstrap and genesis wiring: short guards and plumbing. Runs start from the default genesis.
- Floating-point rounding of the mean tenure's seconds, and overflow of the summed durations; peers are identified by numbers, and an IPv4 address in IPv6 form is an IPv4 address.
- Bitcoin reorganisations: the anchor tracker's results are for a chain that only grows.
- The churn events' backing array: the field is reassigned, so reuse of its storage by the compaction is not modelled.
