# A verified model of the DAG consensus core

This project models the consensus core of the repository (`consensus/`): a committee of authorities
with stake exchanges signed blocks that reference earlier blocks, every authority keeps the part of
the resulting DAG it has seen, and each one decides on its own which leader blocks to commit. The
Dafny files state and prove what that code is for:

- **Agreement and total order.** Two correct authorities, with any two views of the DAG and across any
  number of leader-schedule changes, never decide a leader slot differently and never commit different
  leaders at one commit index (`CommitSafety`, `CommitLog`, `CommitLoop`).
- **The running committer is the commit rule.** The loops with vote caches, quick rejections and early
  exits compute exactly the declarative direct and indirect rule (`BaseCommitter`, `UniversalCommitter`).
- **Delivery order is irrelevant.** Whatever the order and batching in which blocks arrive, the DAG is
  the set of delivered blocks whose whole history is acceptable (`BlockTracking`, `BlockManager`,
  `DeliveryOrder`), and it is a view in the sense of the agreement proof (`AcceptedViews`).
- **Commit synchronization loses and repeats nothing**, and the replies it trusts agree with each other
  (`CommitSync`, `CommitChain`, `CommitVotes`).
- **A correct authority behaves as agreement assumes.** Over every run with crashes it sends one block a
  round, each on top of its own last one, valid for everybody (`ThresholdClocks`, `Proposer`); the lemma
  `Proposer.ProposersAreCorrect` turns this into the hypothesis `Dags.BftUniverse` of the agreement proof.
- **Leader swap tables** are disjoint, bounded in stake and the same everywhere (`SwapTable`).

Where a promise of the code or its comments does not hold in general, the exact condition is proved
together with a concrete case in which it fails.

## How the model is built

`Committee`, `StakeAggregator`, `Blocks`, `BlockVerifier` and `Dag` are the common ground: stake
arithmetic, block rules, causal histories and the fault model. A `Dag` is a finite map from references to
blocks, so digests do not collide; a view is a causally closed part of one universe of blocks. The fault
model (`Dags.BftUniverse`) grants less than `validity_threshold` stake to faulty authorities. `CommitRule`
holds the commit rule as functions and `RuleMeaning` what they amount to, in terms of references, rounds and
authors. `Ranking`, `StableSort` and `Orders` are shared by several parts. Objects whose methods update
fields in the source are classes here; calls that panic in the source return a value saying so, or are
proved not to.

Signature and transaction checks, parsing, hashing, the shuffle of equal scores, the stake-weighted choice
of a leader, clocks and the network are parameters. Integers are unbounded.

## What was found

- Skipping a leader on blame counts the round just above the leader, whatever the wave length. Two views
  never take different direct decisions, and no view takes one back, exactly for wave length 3, which is what
  is configured. The constructor accepts larger values; for each of them there is a DAG of correct authorities
  in which one view skips the block that another one commits (`WaveLength.SafeExactlyForThree`,
  `WaveLength.StableExactlyForThree`, `SplitDags.SplitDecisions`).
- Right after a schedule change the round decided last is decided once more if the new schedule names
  another leader for it, so decided slots do not always advance to a later round: `CommitLog.SlotsAdvance`
  says exactly when, and `ScheduleWindow.RoundCommittedTwice` shows it for every window length, with a
  schedule that swap tables give (`SwapSchedules.SwapTablesGiveSchedules`). With a
  schedule window of one commit the commit loop may therefore never end; from two on it always does
  (`ScheduleWindow.LoopEndsExactlyFromTwo`). The source uses 300 commits, and 10 in simulation.
- A rejected block is remembered for one pass only. A block that was still waiting for something else when
  its ancestor was rejected makes a later pass panic (`BlockManager.PanicExactly`,
  `DeliveryRuns.RejectedAncestorPanics`). A pass panics in no other case, and never when no block is earlier
  than its ancestors.
- The comment on the order of accepted blocks (`consensus/core/src/block_manager.rs:79`) promises ascending
  rounds. Over a whole call the order is causal. Rounds ascend when the batch is a single block, or when no
  suspended block waits for one of the batch (`BlockManager.BatchOrder`); otherwise a released block can come
  before one of a lower round (`DeliveryRuns.RoundsGoBack`).
- The comment on the quorum commit index (`consensus/core/src/commit_syncer.rs:517-518`) speaks of the
  smallest index; the code returns the greatest one that a quorum has reached.
- The comment on support (`consensus/core/src/base_committer.rs:181-185`) promises that an author keeps
  supporting the same block whenever it includes its earlier block. For every committee and every set of
  faulty authorities this holds of exactly the authors that are not faulty (`Equivocation.KeepsSupportExactly`).
- The threshold clock counts the first block of a later round without checking for a quorum. After a restart
  it stays on the round of the recovered quorum exactly when that quorum is a single block above genesis
  (`ThresholdClocks.RecoveredRound`). From then on the order in which accepted blocks arrive is irrelevant
  exactly when no authority is a quorum alone or there is only one (`ArrivalOrder.OrderNeverMattersExactly`).
- Swapping a bad leader fails for some leader exactly when the best scorer alone exceeds the stake cutoff
  and the worst one does not (`SwapTable.SwapFailsExactly`).

## Model

| member | source | states |
|---|---|---|
| Committees.ThresholdsComplement | consensus/config/src/committee.rs:47-50 | the validity threshold is exactly the stake that blocks a quorum, and all stake together is a quorum |
| Committees.ThresholdsExactly | consensus/config/src/committee.rs:47-50 | a quorum is more than two thirds of the stake, validity at least one third |
| Committees.QuorumOverlap | consensus/config/src/committee.rs:47-50 | any two quorums share at least the validity threshold of stake |
| Committees.QuorumsShareHonest | consensus/config/src/committee.rs:98-105 | if faulty stake is below the validity threshold, two quorums share a correct authority |
| StakeAggregators.StakeAggregator.Add | consensus/core/src/stake_aggregator.rs:46-51 | an authority counts once; the answer is whether the distinct voters so far reach the threshold |
| StakeAggregators.StakeAggregator.ReachedThreshold | consensus/core/src/stake_aggregator.rs:57-59 | the counter decides as the stake of the set of voters would |
| BlockVerifier.Verify | consensus/core/src/block_verifier.rs:63-150 | a block is accepted exactly when it meets the declarative rules; every refusal names the first check that fails: of the header, of the leftmost faulty ancestor, of the parent stake or of the transactions |
| BlockVerifier.ValidExactly | consensus/core/src/block_verifier.rs:63-150 | the rules written out: own ancestor first, one per authority, all of lower rounds, genuine genesis, a quorum in the round below; the limit on the number of ancestors excludes nothing else |
| BlockVerifier.NoFaultIsValid | consensus/core/src/block_verifier.rs:102-143 | passing the ancestor checks one by one is the same as the rules on the whole list |
| BlockVerifier.CheckAncestors | consensus/core/src/block_verifier.rs:152-171 | passes exactly when no ancestor is later than the block; otherwise reports the latest ancestor |
| Dags.HistoryHasQuorums | consensus/core/src/block_verifier.rs:102-143 | a verified block has a quorum of distinct authors in its history at every lower round |
| Dags.HonestChain | consensus/core/src/core.rs:572-584 | the blocks of a correct author form one chain of first ancestors |
| CommitRule.PipelineCoversRound | consensus/core/src/base_committer.rs:160-179 | in a pipeline the committer with a given offset leads exactly the rounds congruent to it, so every round has one |
| RuleMeaning.SupportedExactly | consensus/core/src/base_committer.rs:181-208 | a block supports some block of a slot exactly when one lies in its history below it |
| RuleMeaning.SoleSupported | consensus/core/src/base_committer.rs:181-208 | when one block of the slot lies below, that is the one supported |
| RuleMeaning.CertificateExactly | consensus/core/src/base_committer.rs:224-261 | a certificate references blocks of a quorum of authors that support the leader, and every such block is one |
| RuleMeaning.DirectCommitExactly | consensus/core/src/base_committer.rs:92-110 | unless blamed, a leader block is committed only with a quorum of authors of its certificates in the last round of its wave, and with one it is committed or the rule finds two such blocks |
| RuleMeaning.UndecidedExactly | consensus/core/src/base_committer.rs:92-110 | unless blamed, the slot stays undecided if and only if no block of it has such a quorum |
| RuleMeaning.AnchorDecidesExactly | consensus/core/src/base_committer.rs:266-314 | an anchor commits only a block with a certificate of the last round of its wave below the anchor, and one with such a certificate is committed or the rule finds two |
| RuleMeaning.AnchorSkipsExactly | consensus/core/src/base_committer.rs:266-314 | an anchor skips the slot if and only if no block of it has such a certificate |
| RuleMeaning.AnchorExactly | consensus/core/src/base_committer.rs:115-138 | the anchor is the first later leader that is a wave or more above and not skipped, provided it is committed |
| CommitSafety.SupportedInView | consensus/core/src/base_committer.rs:181-208 | which block is supported depends on the causal history only, not on the view |
| CommitSafety.SupportPersists | consensus/core/src/base_committer.rs:181-208 | every later block on an author's own chain supports the block the author supported first |
| CommitSafety.VoteAuthorsInView | consensus/core/src/base_committer.rs:212-261 | the authors of the votes in a block are the same in every view that contains it |
| CommitSafety.CertifiedIsInHistory | consensus/core/src/base_committer.rs:224-261 | a certificate has the block it certifies in its history |
| CommitSafety.OneCertifiedBlockPerSlot | consensus/core/src/base_committer.rs:101-105 | two certificates anywhere in the universe for blocks of one slot certify the same block, for every wave length |
| CommitSafety.BlameExcludesCertificate | consensus/core/src/base_committer.rs:82-87 | a quorum of blames in one view rules out a certificate for the slot anywhere, for waves of three rounds |
| CommitSafety.SupportForcesLink | consensus/core/src/base_committer.rs:266-314 | a quorum of certificates in one view puts a certificate into the history of every verified block above the decision round, in every view |
| CommitSafety.DirectNeverPanics | consensus/core/src/base_committer.rs:92-109 | the direct rule never finds two certified blocks, and commits the one it finds |
| CommitSafety.AnchorNeverPanics | consensus/core/src/base_committer.rs:297-313 | neither does the indirect rule |
| CommitSafety.AnchorDecidesAlike | consensus/core/src/base_committer.rs:266-314 | an anchor decides a slot the same way in every view that contains it |
| CommitSafety.DirectDecisionIsStable | consensus/core/src/base_committer.rs:81-110 | a direct skip is returned again on every larger view for every wave length, a direct commit for waves of three rounds |
| CommitSafety.Agreement | consensus/core/src/base_committer.rs:81-138 | two status lists over one slot sequence, each entry justified in its own view, agree wherever both decide, committed block included |
| WaveLength.SafeExactlyForThree | consensus/core/src/base_committer.rs:81-110 | no two views of any universe take different direct decisions on a leader slot if and only if the wave length is 3 |
| WaveLength.StableExactlyForThree | consensus/core/src/base_committer.rs:81-110 | no growing view of any universe takes a direct decision back if and only if the wave length is 3 |
| WaveLength.BlameExcludesCertificateExactlyForThree | consensus/core/src/base_committer.rs:82-87 | a quorum of blames excludes a certificate for the slot in every universe if and only if the wave length is 3 |
| SplitDags.SplitDagIsBft | consensus/core/src/base_committer.rs:69 | the DAGs that refute longer waves obey the fault model without a single faulty authority |
| SplitDags.SplitDecisions | consensus/core/src/base_committer.rs:317-346 | for every longer wave the whole DAG skips the leader that a causally closed part of it commits |
| SplitDags.SplitCommits | consensus/core/src/base_committer.rs:350-381 | in these DAGs the blocks of two authorities are committed directly in every round with two rounds above it |
| Equivocation.KeepsSupportExactly | consensus/core/src/base_committer.rs:181-208 | for every committee and fault set within the fault model, an author keeps its support in all universes if and only if it is not faulty |
| Equivocation.ChainKeepsSupport | consensus/core/src/base_committer.rs:181-208 | an author whose blocks form a chain supports the same block in everything that includes its earlier block |
| Equivocation.TwoFacedChanges | consensus/core/src/base_committer.rs:181-185 | for every faulty author a universe within the fault model in which its later block includes its earlier one and supports the other block of the slot |
| BaseCommitter.AncestorsAtRound | consensus/core/src/dag_state.rs:343-377 | the frontier walk finds exactly the blocks of the round in the causal history |
| BaseCommitter.CheckCertificate | consensus/core/src/base_committer.rs:224-261 | with the vote cache and early exit: true exactly when distinct voting authors reach a quorum; the cache stays correct |
| BaseCommitter.EnoughLeaderBlame | consensus/core/src/base_committer.rs:317-346 | true exactly when the authors with a block of the voting round that has no ancestor by the leader's authority are a quorum |
| BaseCommitter.EnoughLeaderSupport | consensus/core/src/base_committer.rs:350-381 | with the stake pre-check, shared cache and early exit: true exactly when distinct authors of certificates are a quorum |
| BaseCommitter.TryDirectDecide | consensus/core/src/base_committer.rs:81-110 | computes the direct rule, the panic on two certified blocks included; the slot is skipped if and only if a quorum of authors have a block of the next round with no ancestor by its authority, and never when authors with validity stake have such an ancestor in all of theirs |
| BaseCommitter.DecideLeaderFromAnchor | consensus/core/src/base_committer.rs:266-314 | computes the decision an anchor takes for an earlier slot |
| BaseCommitter.TryIndirectDecide | consensus/core/src/base_committer.rs:115-138 | the first later leader at least a wave above that is not skipped decides the slot if it is committed; if every committed leader that high comes after an undecided one, the slot stays undecided |
| UniversalCommitter.DecidedPrefix | consensus/core/src/universal_committer.rs:77-93 | the longest prefix of decided leaders: all decided, the next one is not |
| UniversalCommitter.RuleNeverPanics | consensus/core/src/universal_committer.rs:50-75 | under the fault model no leader slot of any schedule makes the commit rule panic |
| UniversalCommitter.StatusExactly | consensus/core/src/universal_committer.rs:50-75 | every status is the direct decision on its slot, or where that is open the indirect one from the statuses after it |
| UniversalCommitter.NothingAbove | consensus/core/src/universal_committer.rs:46-50 | no leader is committed directly in the two highest rounds of the DAG, as the comment says |
| UniversalCommitter.DecideRounds | consensus/core/src/universal_committer.rs:41-75 | walking down from the top round justifies one status for every round above the last decided slot |
| UniversalCommitter.TryDecide | consensus/core/src/universal_committer.rs:41-94 | returns the longest decided prefix of statuses justified by the commit rule, one for every round from the first still to decide up to two below the highest accepted; no round that can be committed directly lies beyond them |
| CommitLog.NextIsUnique | consensus/core/src/core.rs:474-546 | after a given log there is one decision that any view can justify next |
| CommitLog.LogsAgree | consensus/core/src/core.rs:471-549 | of two logs built by correct authorities across any number of schedule changes one is a prefix of the other |
| CommitLog.CommitSequencesAgree | consensus/core/src/core.rs:471-549 | two correct authorities never commit different leaders at one commit index |
| CommitLog.SlotsAdvance | consensus/core/src/core.rs:474-546 | the next decided slot is one round up if and only if the schedule then in force names the last leader for its round; otherwise it is the same round again; within a window always one round up |
| CommitLog.ScheduleWithinWindow | consensus/core/src/leader_schedule.rs:103-115 | only the commit that fills the window changes the schedule |
| CommitLog.CutCommits | consensus/core/src/core.rs:506-520 | truncating at the end of the window keeps exactly that many commits, and everything when the window is not filled |
| CommitLog.CutLast | consensus/core/src/core.rs:511-520 | a truncated list ends in the last commit it keeps, so later leaders are decided again |
| CommitLog.SkipsDrain | consensus/core/src/core.rs:511-530 | when nothing is committed the remaining statuses continue right after the skipped leaders and start undecided |
| CommitLog.ExtendAdvances | consensus/core/src/core.rs:474-546 | a round of the loop moves to a later round, except once just after a schedule change, with at most one commit |
| CommitLoop.Committer.UpdateSchedule | consensus/core/src/leader_schedule.rs:117-161 | a full window is scored and emptied; the new commit range directly follows the old one with equal length |
| CommitLoop.Committer.ScheduleInForce | consensus/core/src/leader_schedule.rs:103-115 | the fields determine the schedule and the room that the log determines |
| CommitLoop.Committer.CommitOnce | consensus/core/src/core.rs:474-546 | extends the log by justified decisions, never over a full window; either nothing is left, up to two rounds below the highest accepted, or, for windows from two on, the loop has advanced |
| CommitLoop.Committer.TryCommit | consensus/core/src/core.rs:471-549 | terminates; the log stays justified and grows; at the end the first leader left is undecided, and no round that can be committed directly lies beyond those considered |
| CommitLoop.Committer.Restart | consensus/core/src/dag_state.rs:104-137 | restarting from storage loses no commit and resumes with a justified log |
| CommitLoop.CommittersAgree | consensus/core/src/core.rs:471-549 | the commit sequences of two authorities in any reachable states are prefixes of each other |
| ScheduleWindow.LoopEndsExactlyFromTwo | consensus/core/src/core.rs:474-546 | on every view the runs of the commit loop have a bound if and only if the window is at least two commits |
| ScheduleWindow.LoopEndsFromTwo | consensus/core/src/core.rs:474-546 | from two commits on, twice the top round plus three is such a bound |
| ScheduleWindow.LoopOfOneGoesOn | consensus/core/src/universal_committer.rs:50-61 | two schedules that keep replacing each other give, for a window of one, an infinite run from the empty log, so no bound holds |
| ScheduleWindow.RoundCommittedTwice | consensus/core/src/universal_committer.rs:50-61 | for every window: a universe without faults and a justified log whose window-filling commit and the next commit are of one round |
| SwapSchedules.SwapTablesGiveSchedules | consensus/core/src/leader_schedule.rs:163-177 | the schedules of these runs are what elections with proper swap tables give when one authority is chosen by stake in every round |
| UncommittedRounds.CountedRoundsAreUncommitted | consensus/core/src/dag_state.rs:323-326 | whatever round is decided next, the rounds in which blames and certificates are counted lie above the last commit, so the lookup does not panic |
| UncommittedRounds.LastTwoRoundsAreUncommitted | consensus/core/src/dag_state.rs:768-789 | the last two rounds of a store that holds the view of the last commit lie above that commit, so recovery's lookup does not panic |
| BlockTracking.DagIsComplete | consensus/core/src/block_manager.rs:81-186 | in every state a block is in the DAG exactly when it is initial, or delivered, timely and with a complete history |
| BlockTracking.StateIsDetermined | consensus/core/src/block_manager.rs:49-59 | without rejections all tracking maps are a function of what was delivered |
| BlockTracking.ReleaseKeepsConsistent | consensus/core/src/block_manager.rs:255-306 | releasing a block keeps the map of missing ancestors the converse of the suspended blocks |
| BlockManager.BlockManager.TryAcceptOneBlock | consensus/core/src/block_manager.rs:191-251 | exactly when a block is known, ready or suspended; on what it is suspended and what to fetch; the invariant is kept |
| BlockManager.BlockManager.ReleaseChildren | consensus/core/src/block_manager.rs:255-306 | one step of the cascade: who is released, once each, and what is still waited for |
| BlockManager.BlockManager.TryUnsuspendChildren | consensus/core/src/block_manager.rs:255-306 | the worklist ends with the least closed set of released blocks, each once, in causal order; its expectations never fail |
| BlockManager.BlockManager.Judge | consensus/core/src/block_manager.rs:110-147 | what passes can be added to the DAG, what is rejected can never be complete, and it panics exactly when an ancestor is lost |
| BlockManager.BlockManager.AcceptPass | consensus/core/src/block_manager.rs:96-168 | the new DAG, suspensions, missing blocks, acceptances in ascending order and rejections of one pass; it panics only if the block releases one with a lost ancestor, and always then unless a rejected block is released again |
| BlockManager.BlockManager.Pass | consensus/core/src/block_manager.rs:96-168 | the same as a step between whole states of the manager |
| BlockManager.BlockManager.TryAcceptBlocks | consensus/core/src/block_manager.rs:81-186 | the batch in round order is worked off in passes from state to state, and what they accept, joined, is returned; the DAG grows by exactly that, once each and after all references; reported missing are exactly the ancestors that have not arrived of each block that is new when it is tried; a panic ends the passes in a state in which the next one panics; when rounds ascend; no panic when no block is earlier than its ancestors |
| BlockManager.BatchOrder | consensus/core/src/block_manager.rs:77-79 | the blocks that a batch returns have ascending rounds when it is one block or when nobody suspended waits for any of it |
| BlockManager.PanicExactly | consensus/core/src/block_manager.rs:126-138 | in every state a pass panics only if it releases a block with an ancestor rejected earlier, and if and only if so while no rejected block is released again in the same pass |
| BlockManager.PassKeepsInvariant | consensus/core/src/block_manager.rs:96-168 | a pass that completes keeps the whole representation invariant, whatever it accepts and rejects |
| BlockManager.InRefOrder | consensus/core/src/block_manager.rs:160-168 | the accepted blocks of a pass are listed once each in ascending order of round, author and digest |
| DeliveryOrder.SameDeliveriesSameDag | consensus/core/src/block_manager.rs:81-186 | two managers that were delivered the same blocks have the same DAG, and without rejections the same state |
| DeliveryOrder.HistoryIsAccepted | consensus/core/src/block_manager.rs:110-147 | along every path from an accepted block all blocks are accepted and none is later than the one before |
| DeliveryRuns.RejectedAncestorPanics | consensus/core/src/block_manager.rs:133-138 | a run of four deliveries of blocks that all pass verification and that ends in the panic |
| DeliveryRuns.RoundsGoBack | consensus/core/src/block_manager.rs:77-79 | a run on such blocks in which a batch returns rounds 1, 2, 1 |
| AcceptedViews.ManagerDagIsValid | consensus/core/src/core.rs:184-222 | a manager that is given verified blocks only holds a causally closed DAG of verified blocks, as the committer and the proposer assume |
| AcceptedViews.ManagersShareViews | consensus/core/src/core.rs:184-222 | the DAGs of two managers are views of one valid DAG, as the agreement proof assumes |
| AcceptedViews.AcceptProposal | consensus/core/src/core.rs:401-406 | the own proposal, which nobody waits for, is accepted alone and at once and nothing is reported missing, so both assertions hold |
| CommitSync.CommitSyncer.OnTick | consensus/core/src/commit_syncer.rs:125-158 | schedules full batches only, up to the quorum index, and leaves less than a batch; conservation and order are kept |
| CommitSync.CommitSyncer.Receive | consensus/core/src/commit_syncer.rs:161-187 | a partial reply splits its range into a fetched part, unless synced by now, and a pending rest |
| CommitSync.CommitSyncer.Drain | consensus/core/src/commit_syncer.rs:188-228 | sends everything that closes up with what is synced, lowest first, each range with its own blocks |
| CommitSync.CommitSyncer.OnFetched | consensus/core/src/commit_syncer.rs:161-228 | the synced index never falls, nothing scheduled is forgotten, and what is left fetched lies beyond a gap |
| CommitSync.CommitSyncer.StartFetches | consensus/core/src/commit_syncer.rs:241-268 | starts the lowest pending ranges; while ranges are pending some fetch runs and one of the three limits is reached; beyond one fetch all three limits are kept |
| CommitSync.ParallelismExactly | consensus/core/src/commit_syncer.rs:241-253 | one fetch is always allowed, more if and only if they are within the configured number, two thirds of the committee and the batches ahead |
| CommitSync.SentExactlyOnce | consensus/core/src/commit_syncer.rs:109-268 | in every reachable state every synced index not committed locally was sent in exactly one batch, and batches ascend without overlap |
| CommitVotes.CommitVoteMonitor.Observe | consensus/core/src/commit_syncer.rs:506-513 | the author's entry becomes the maximum of its votes, no entry falls |
| CommitVotes.CommitVoteMonitor.QuorumCommitIndex | consensus/core/src/commit_syncer.rs:519-536 | the greatest index that authorities with quorum stake have reached: those at it are a quorum, those above it are not; the default after the loop is never returned |
| CommitVotes.QuorumIndexMonotone | consensus/core/src/commit_syncer.rs:506-536 | later votes never lower the quorum index |
| CommitChain.ParseChain | consensus/core/src/commit_syncer.rs:557-593 | succeeds exactly when the commits up to the first past the end have consecutive indices from the start and name each other's digests, and returns all of them or those up to the end; otherwise reports the first one out of order |
| CommitChain.CountVotes | consensus/core/src/commit_syncer.rs:598-619 | succeeds exactly when all blocks verify, otherwise reports the first bad one and the first check it fails; counts the stake of distinct voters for the last commit |
| CommitChain.VotersExactly | consensus/core/src/commit_syncer.rs:599-612 | the voters counted are the authors of the blocks that vote for the commit |
| CommitChain.VerifyCommits | consensus/core/src/commit_syncer.rs:549-625 | the commits of an accepted reply have indices from the start up to the end of the range or of the reply, are linked by digests and paired with their own bytes, and a quorum has voted for exactly the last one; every reply with such commits and good blocks is accepted with all of them; a refusal names the first check that fails |
| CommitChain.RepliesAgree | consensus/core/src/commit_syncer.rs:549-625 | accepted replies with the same last index agree byte for byte on every common index, if correct authorities vote once per index |
| CommitChain.AllRepliesAgree | consensus/core/src/commit_syncer.rs:549-625 | accepted replies for any ranges agree on every common index, if correct authorities vote for the commits of their own chains |
| SwapTable.RetrieveFirstNodes | consensus/core/src/leader_schedule.rs:409-433 | the longest prefix of the given order whose stake does not exceed the cutoff |
| SwapTable.NewTable | consensus/core/src/leader_schedule.rs:281-358 | which inputs are refused; otherwise good and bad are the two ends of the stably sorted ranking, as long as the cutoff allows |
| SwapTable.TableIsDetermined | consensus/core/src/leader_schedule.rs:302-333 | equal scores and an equal shuffle give equal tables on all authorities |
| SwapTable.EndsApart | consensus/core/src/leader_schedule.rs:314-333 | for every stake distribution and threshold up to 33 the two ends leave someone in between |
| SwapTable.EndsByPercent | consensus/core/src/leader_schedule.rs:405-433 | each end of the ranking holds at most the threshold in percent of all stake, and with the next authority it would hold more |
| SwapTable.GoodAndBad | consensus/core/src/leader_schedule.rs:235-250 | nobody is both; good scores are at least, bad scores at most those of all others; bad stake never reaches the validity threshold |
| SwapTable.SwappedIsNotBad | consensus/core/src/leader_schedule.rs:163-177 | a leader is kept if and only if it is not bad, and one that takes over is good, not bad and in the committee |
| SwapTable.AnyGoodNode | consensus/core/src/leader_schedule.rs:363-400 | every good node is what some pick gives |
| SwapTable.SwapFailsExactly | consensus/core/src/leader_schedule.rs:370-400 | swapping fails for some leader if and only if the best scorer exceeds the cutoff alone and the worst does not |
| SwapTable.HeavyLeaderFails | consensus/core/src/leader_schedule.rs:387-390 | a committee and scores for which it fails |
| StableSort.StableOrderIsUnique | consensus/core/src/leader_schedule.rs:308-309 | what a stable sort returns is determined by its input |
| ThresholdClocks.ThresholdClock.AddBlocks | consensus/core/src/threshold_clock.rs:33-39 | the clock after a list of blocks, and whether it has advanced |
| ThresholdClocks.ClockIsBacked | consensus/core/src/threshold_clock.rs:41-68 | the clock never moves back, and the round below it always has a quorum in the DAG |
| ThresholdClocks.OrderIsIrrelevant | consensus/core/src/threshold_clock.rs:41-68 | without an authority that is a quorum alone the clock is the same for every order of the same blocks |
| ArrivalOrder.OrderNeverMattersExactly | consensus/core/src/threshold_clock.rs:41-68 | after recovery, over all causal orders in which the same accepted blocks can arrive, the clock is the same if and only if no authority is a quorum alone or there is only one |
| ArrivalOrder.OrderMatters | consensus/core/src/threshold_clock.rs:50-54 | for every other committee: a restart and two causal orders after which the clocks differ |
| ThresholdClocks.RecoveredRound | consensus/core/src/core.rs:165-167 | after recovery the clock is above the last quorum's round if and only if that quorum has several blocks or is genesis |
| Proposer.FindLastBelow | consensus/core/src/dag_state.rs:433-483 | the last block of an authority below a round: none has a higher round, or the same round and a higher digest |
| Proposer.LastQuorum | consensus/core/src/dag_state.rs:768-789 | the last round with a quorum is one of the last two, so the fatal case is unreachable; all blocks of that round are returned |
| Proposer.RecoverIncluded | consensus/core/src/core.rs:106-117 | the recovered watermarks are exactly the ancestors of the last proposal and older than it |
| Proposer.ChosenParents | consensus/core/src/core.rs:574-600 | the watermark filter drops no author of the quorum below the clock |
| Proposer.ChosenIsValid | consensus/core/src/core.rs:558-602 | a block on the chosen ancestors meets all ancestor rules of the verifier |
| Proposer.FormQuorum | consensus/core/src/core.rs:592-600 | the sanity check is true exactly when the authors of the given blocks of the round are a quorum |
| Proposer.AcceptOwn | consensus/core/src/core.rs:401-409 | adding the proposal keeps the DAG valid and the author's blocks a chain; `AcceptedViews.AcceptProposal` has the assertions |
| Proposer.Core.constructor | consensus/core/src/core.rs:81-135 | from any store an earlier run can have left, recovery establishes the invariant, and the clock is past genesis |
| Proposer.GenesisIsDurable | consensus/core/src/dag_state.rs:91-100 | a store that holds genesis alone is one a run can start from |
| Proposer.Core.AddAcceptedBlocks | consensus/core/src/core.rs:227-243 | newly accepted blocks keep the invariant and move the clock |
| Proposer.Core.AncestorsToPropose | consensus/core/src/core.rs:558-602 | own last block first, then the last block of every other authority that has one above what was included, and of no other; none of these is an ancestor of the last proposal; the parent-quorum assertion never fails |
| Proposer.Core.Propose | consensus/core/src/core.rs:348-429 | for every signer whose completed blocks pass the checks: the block is new, valid for everybody and no earlier than its ancestors, and after the first one it has no ancestor of the block before it; it is persisted when it becomes the last proposed one |
| Proposer.Core.TryNewBlock | consensus/core/src/core.rs:284-430 | exactly when no block is made, and that nothing changes then; without force every leader given has a block in the round below the new one, unless that is genesis, and the delay has passed |
| Proposer.Core.TryPropose | consensus/core/src/core.rs:269-281 | only persisted blocks are sent; what a crash would leave is sound at the end, a failed clock check included |
| Proposer.Core.Recover | consensus/core/src/core.rs:137-180 | sends a new block or the last one again; the assertion that this is not genesis never fails |
| Proposer.SentOnceARound | consensus/core/src/core.rs:411-415 | of all blocks ever sent, over any crashes, two of one round are equal and later ones reach earlier ones by first ancestors |
| Proposer.ProposersAreCorrect | consensus/core/src/core.rs:572-584 | authorities that run this code satisfy the hypothesis of the agreement proof |

## Left out

- CommitLoop.Committer.TryCommit: stated for windows of at least two commits, because with one the loop need not end; everything else about the commit loop holds for every window.
- CommitSafety.BlameExcludesCertificate: stated for waves of three rounds; `WaveLength.BlameExcludesCertificateExactlyForThree` shows that it fails for all others.
- CommitSafety.DirectDecisionIsStable: commits are covered for waves of three rounds; `WaveLength.StableExactlyForThree` shows that this fails for all others.
- BlockManager.PanicExactly: when a rejected block was delivered again and is released in the same pass, whether its children panic or are rejected depends on the order in which the cascade meets them; that case has only the first half.
- BlockManager.BlockManager.TryAcceptBlocks: leaves open, as a single pass does, whether a pass that releases a rejected block again panics.
- BlockManager.BatchOrder: one direction only; rounds may also happen to ascend when something is released.
- Eviction of cached blocks and the panics of lookups below the eviction round: lookups see the whole DAG.
- The checks of `accept_block` on the local clock and on the own slot.
- AcceptedViews.AcceptProposal: assumes that nobody waits for a block that has not been sent, which rests on digests that cannot be guessed.
- Sub-dags, their linearization and the commit observer; the commit loop here records leaders.
- Reputation scoring: a schedule is any fixed function of the scored commits.
- The branch of `try_commit` without leader scoring, and committers with several leaders per round.
- Overflow of fixed-width integers; total stake is 10,000 and rounds and indices stay far below their types.
- Signatures, serialization, random generators, metrics, networking, tasks and timeouts.
- Liveness under network timing.
