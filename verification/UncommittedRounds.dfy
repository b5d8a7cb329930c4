/** Rounds at or below the last commit are never looked up as uncommitted ones: the lookup that
    panics on them is called for later rounds only. */
module UncommittedRounds {
  import opened Blocks
  import opened Dags
  import opened CommitRule
  import opened CommitSafety
  import opened UniversalCommitter
  import opened CommitLog
  import opened CommitLoop

  /** The round of the last committed leader, 0 before the first. */
  ghost function LastCommitRound(log: seq<LeaderStatus>): nat {
    if Commits(log) == [] then 0 else Commits(log)[|Commits(log)| - 1].round
  }

  /** The rounds of a log never fall. */
  lemma {:induction false} RoundsNeverFall(e: Epoch, u: Dag, log: seq<LeaderStatus>, i: nat, j: nat)
    requires e.WellFormed() && JustifiedLog(e, u, log) && i <= j < |log|
    ensures log[i].Round() <= log[j].Round()
    decreases j
  {
    if i < j {
      RoundsNeverFall(e, u, log, i, j - 1);
      SlotsAdvance(e, u, log, j - 1);
    }
  }

  lemma LastCommitIsBelow(e: Epoch, u: Dag, log: seq<LeaderStatus>)
    requires e.WellFormed() && JustifiedLog(e, u, log)
    ensures LastCommitRound(log) <= e.LastSlot(log).round
  {
    hide JustifiedLog;
    var n := LastCommit(log);
    if n > 0 { RoundsNeverFall(e, u, log, n - 1, |log| - 1); }
  }

  /** Whatever round is decided next, blames and certificates are counted in rounds above the last
      commit, even when the round of that commit is decided again. */
  lemma CountedRoundsAreUncommitted(e: Epoch, u: Dag, log: seq<LeaderStatus>, round: nat)
    requires e.WellFormed() && JustifiedLog(e, u, log) && round >= e.LastSlot(log).round
    ensures LastCommitRound(log) < round + 1 < CommitterFor(round).CertifyingRound(round)
  {
    hide JustifiedLog;
    LastCommitIsBelow(e, u, log);
    PipelineFits((r: nat) => 0, round);
    CertifyingRoundOfLeader(CommitterFor(round), round);
  }

  /** A leader is committed from a view that reaches two rounds above it. */
  lemma CommitNeedsTwoRounds(e: Epoch, u: Dag, log: seq<LeaderStatus>, b: BlockRef, v: Dag, statuses: seq<LeaderStatus>) returns (x: BlockRef)
    requires e.WellFormed() && DecidesNext(e, u, log, Commit(b), v, statuses)
    ensures x in v && x.round == b.round + 2
  {
    var elect, round := e.ScheduleAfter(log), e.NextRound(log);
    assert DecidedAt(e.ctx.committee, v, elect, round, statuses, 0);
    DecidedCommits(e.ctx.committee, v, elect, round, statuses);
    PipelineFits(elect, round);
    CertifyingRoundOfLeader(CommitterFor(round), round);
    assert ViewOf(v, v);
    x := CommitHasCertificate(e.ctx.committee, CommitterFor(round), v, v, LeaderSlot(elect, round), statuses[0], statuses[1..]);
  }

  /** So when recovery looks for a quorum in the last two rounds of the store, which holds at least
      that view, both are above the last commit. */
  lemma LastTwoRoundsAreUncommitted(e: Epoch, u: Dag, log: seq<LeaderStatus>, b: BlockRef, v: Dag, statuses: seq<LeaderStatus>,
                                    stored: Dag, highest: nat)
    requires e.WellFormed() && JustifiedLog(e, u, log) && DecidesNext(e, u, log, Commit(b), v, statuses)
    requires v.Keys <= stored.Keys && forall r :: r in stored ==> r.round <= highest
    ensures LastCommitRound(log + [Commit(b)]) == b.round < highest - 1
  {
    CommitsSnoc(log, Commit(b));
    var x := CommitNeedsTwoRounds(e, u, log, b, v, statuses);
    assert x in stored;
  }
}
