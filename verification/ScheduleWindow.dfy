/** How long the commit loop can run on one view. A schedule change may send the loop back to the
    round it has just decided; with at least two commits per schedule it still ends, with one
    commit per schedule it need not. */
module ScheduleWindow {
  import opened Blocks
  import opened Dags
  import opened CommitRule
  import opened UniversalCommitter
  import opened CommitLog
  import opened SplitDags

  /** One round of the loop that commits something, on a view whose top decidable round is `top`. */
  ghost predicate LoopStep(e: Epoch, v: Dag, top: nat, log: seq<LeaderStatus>, log': seq<LeaderStatus>, statuses: seq<LeaderStatus>)
    requires e.window > 0 && Causal(v)
  {
    && DecidedFrom(e.ctx.committee, v, e.ScheduleAfter(log), e.NextRound(log), statuses)
    && e.NextRound(log) + |statuses| == Max(e.NextRound(log), top + 1)
    && log' == Extend(e, log, DecidedPrefix(statuses))
    && |Commits(log')| > |Commits(log)|
  }

  ghost predicate CanStep(e: Epoch, v: Dag, top: nat, log: seq<LeaderStatus>, log': seq<LeaderStatus>)
    requires e.window > 0 && Causal(v)
  {
    exists statuses :: LoopStep(e, v, top, log, log', statuses)
  }

  /** Consecutive rounds of the loop. */
  ghost predicate Run(e: Epoch, v: Dag, top: nat, logs: seq<seq<LeaderStatus>>)
    requires e.window > 0 && Causal(v)
  {
    && |logs| > 0
    && (|logs| > 1 ==> CanStep(e, v, top, logs[0], logs[1]) && Run(e, v, top, logs[1..]))
  }

  /** No run of the loop on this view, from whatever justified log, has more than n rounds. */
  ghost predicate Bounded(e: Epoch, u: Dag, v: Dag, top: nat, n: nat)
    requires e.window > 0 && Causal(v)
  {
    forall logs :: Run(e, v, top, logs) && JustifiedLog(e, u, logs[0]) ==> |logs| <= n
  }

  ghost predicate HasBound(e: Epoch, u: Dag, v: Dag, top: nat)
    requires e.window > 0 && Causal(v)
  {
    exists n: nat :: Bounded(e, u, v, top, n)
  }

  /** On every view the loop ends, after a number of rounds that the view and its top determine. */
  ghost predicate LoopEnds(window: nat)
    requires window > 0
  {
    forall e: Epoch, u, byzantine, v, top: nat ::
      e.WellFormed() && e.window == window && BftUniverse(e.ctx, u, byzantine) && ViewOf(v, u) ==> HasBound(e, u, v, top)
  }

  lemma LoopEndsExactlyFromTwo(window: nat)
    requires window > 0
    ensures LoopEnds(window) <==> window >= 2
  {
    hide HasBound;
    if window >= 2 {
      forall e: Epoch, u, byzantine, v, top: nat |
        e.WellFormed() && e.window == window && BftUniverse(e.ctx, u, byzantine) && ViewOf(v, u)
        ensures HasBound(e, u, v, top)
      {
        LoopEndsFromTwo(e, u, v, top);
      }
    } else {
      LoopOfOneGoesOn();
      SplitDagIsBft(3, true);
      FourWellFormed();
      assert ViewOf(SplitDag(3, true), SplitDag(3, true));
    }
  }

  lemma LoopEndsFromTwo(e: Epoch, u: Dag, v: Dag, top: nat)
    requires e.WellFormed() && e.window >= 2 && ViewOf(v, u)
    ensures Bounded(e, u, v, top, 2 * top + 3) && HasBound(e, u, v, top)
  {
    hide CanStep;
    hide JustifiedLog;
    forall logs | Run(e, v, top, logs) && JustifiedLog(e, u, logs[0]) ensures |logs| <= 2 * top + 3 {
      RunIsShort(e, u, v, top, logs);
    }
  }

  /** With one commit per schedule the loop need not end: from the empty log every round of it can
      be followed by another, so no bound holds. */
  lemma LoopOfOneGoesOn()
    ensures Restless().WellFormed() && Restless().window == 1 && Causal(SplitDag(3, true))
    ensures AltLog(0) == [] && forall n: nat :: CanStep(Restless(), SplitDag(3, true), 1, AltLog(n), AltLog(n + 1))
    ensures !HasBound(Restless(), SplitDag(3, true), SplitDag(3, true), 1)
  {
    hide Run;
    hide LoopStep;
    hide SplitDag;
    hide Causal;
    var e, u := Restless(), SplitDag(3, true);
    FourWellFormed();
    SplitDagIsCausal(3, true);
    forall n: nat ensures CanStep(e, u, 1, AltLog(n), AltLog(n + 1)) {
      AltStep(n);
      assert LoopStep(e, u, 1, AltLog(n), AltLog(n + 1), [Commit(At(1, n % 2))]);
    }
    forall n: nat ensures !Bounded(e, u, u, 1, n) {
      AlternationRuns(0, n);
      assert JustifiedLog(e, u, AltLogs(0, n)[0]);
    }
  }

  // ---------------------------------------------------------------- two or more

  /** The round decided last would be decided again. */
  ghost predicate Pending(e: Epoch, log: seq<LeaderStatus>)
    requires e.window > 0
  {
    e.ScheduleAfter(log)(e.LastSlot(log).round) != e.LastSlot(log).authority
  }

  ghost function Height(e: Epoch, top: nat, log: seq<LeaderStatus>): int
    requires e.window > 0
  {
    2 * (top + 1 - e.LastSlot(log).round) + if Pending(e, log) then 1 else 0
  }

  lemma StepDescends(e: Epoch, u: Dag, v: Dag, top: nat, log: seq<LeaderStatus>, log': seq<LeaderStatus>, statuses: seq<LeaderStatus>)
    requires e.WellFormed() && e.window >= 2 && ViewOf(v, u) && JustifiedLog(e, u, log)
    requires LoopStep(e, v, top, log, log', statuses)
    ensures JustifiedLog(e, u, log') && 2 <= Height(e, top, log') < Height(e, top, log)
  {
    hide DecidedFrom;
    hide DecidedPrefix;
    hide JustifiedLog;
    hide Extend;
    hide Commits;
    hide Position;
    JustifiedAppend(e, u, log, v, statuses);
    ExtendAdvances(e, u, log, v, statuses);
    if e.LastSlot(log').round == e.LastSlot(log).round {
      PositionStep(|Commits(log)|, e.window);
      LastUnderSchedule(e, u, log');
    }
  }

  lemma {:induction false} RunIsShort(e: Epoch, u: Dag, v: Dag, top: nat, logs: seq<seq<LeaderStatus>>)
    requires e.WellFormed() && e.window >= 2 && ViewOf(v, u)
    requires Run(e, v, top, logs) && JustifiedLog(e, u, logs[0])
    ensures |logs| > 1 ==> |logs| + 1 <= Height(e, top, logs[0])
    ensures |logs| <= 2 * top + 3
    decreases |logs|
  {
    hide LoopStep;
    hide JustifiedLog;
    hide Pending;
    if |logs| > 1 {
      var statuses :| LoopStep(e, v, top, logs[0], logs[1], statuses);
      StepDescends(e, u, v, top, logs[0], logs[1], statuses);
      RunIsShort(e, u, v, top, logs[1..]);
    }
  }

  // ---------------------------------------------------------------- one commit per schedule

  /** A schedule that always names, for every round, the other one of authorities 0 and 1. */
  function Alternating(commits: seq<BlockRef>): Schedule {
    var other := if commits != [] && commits[|commits| - 1].author == 0 then 1 else 0;
    (round: nat) => other
  }

  function Restless(): Epoch { Epoch(Four(), 1, Alternating, Slot(0, 0)) }

  /** The first n leaders committed: the blocks of authorities 0 and 1 in round 1, in turns. */
  function AltLog(n: nat): (log: seq<LeaderStatus>)
    ensures |log| == n
  {
    if n == 0 then [] else AltLog(n - 1) + [Commit(At(1, (n - 1) % 2))]
  }

  function AltLogs(from: nat, n: nat): (logs: seq<seq<LeaderStatus>>)
    ensures |logs| == n + 1 && logs[0] == AltLog(from)
    decreases n
  {
    [AltLog(from)] + if n == 0 then [] else AltLogs(from + 1, n - 1)
  }

  lemma {:induction false} AltCommits(n: nat)
    ensures |Commits(AltLog(n))| == n
    ensures n > 0 ==> Commits(AltLog(n))[n - 1] == At(1, (n - 1) % 2)
  {
    if n > 0 {
      AltCommits(n - 1);
      CommitsSnoc(AltLog(n - 1), Commit(At(1, (n - 1) % 2)));
    }
  }

  lemma AltNext(n: nat)
    ensures Restless().NextRound(AltLog(n)) == 1 && Restless().Room(AltLog(n)) == 1
    ensures Restless().ScheduleAfter(AltLog(n))(1) == n % 2
  {
    AltCommits(n);
    var commits := Commits(AltLog(n));
    assert commits[..|commits|] == commits;
    assert Restless().Scored(commits) == commits;
  }

  lemma AltStep(n: nat)
    ensures Causal(SplitDag(3, true))
    ensures LoopStep(Restless(), SplitDag(3, true), 1, AltLog(n), AltLog(n + 1), [Commit(At(1, n % 2))])
  {
    hide Commits;
    hide DirectDecision;
    hide SplitDag;
    var e, log, x := Restless(), AltLog(n), Commit(At(1, n % 2));
    AltNext(n);
    AltCommits(n);
    AltCommits(n + 1);
    SplitCommits(3, CommitterFor(1), 1, n % 2);
    assert DecidedAt(e.ctx.committee, SplitDag(3, true), e.ScheduleAfter(log), 1, [x], 0);
    assert DecidedPrefix([x]) == [x];
    assert Cut([x], 1) == [x];
  }

  /** With one commit per schedule the loop can go on committing in round 1 for ever. */
  lemma {:induction false} AlternationRuns(from: nat, n: nat)
    ensures Causal(SplitDag(3, true)) && Run(Restless(), SplitDag(3, true), 1, AltLogs(from, n))
    decreases n
  {
    hide LoopStep;
    hide SplitDag;
    hide AltLog;
    hide Causal;
    SplitDagIsCausal(3, true);
    if n > 0 {
      var logs := AltLogs(from, n);
      AltStep(from);
      AlternationRuns(from + 1, n - 1);
      assert CanStep(Restless(), SplitDag(3, true), 1, logs[0], logs[1]);
      assert logs[1..] == AltLogs(from + 1, n - 1);
    }
  }

  // ---------------------------------------------------------------- a round decided twice

  /** Authority 0 leads until the first schedule change, authority 1 from then on. */
  function Succession(commits: seq<BlockRef>): Schedule {
    var leader := if commits == [] then 0 else 1;
    (round: nat) => leader
  }

  function Handover(window: nat): Epoch { Epoch(Four(), window, Succession, Slot(0, 0)) }

  /** The leaders of rounds 1 to n. */
  function FirstLeaders(n: nat): (log: seq<LeaderStatus>)
    ensures |log| == n
  {
    if n == 0 then [] else FirstLeaders(n - 1) + [Commit(At(n, 0))]
  }

  lemma {:induction false} FirstCommits(n: nat)
    ensures |Commits(FirstLeaders(n))| == n
  {
    if n > 0 {
      FirstCommits(n - 1);
      CommitsSnoc(FirstLeaders(n - 1), Commit(At(n, 0)));
    }
  }

  /** Where the next leader is looked for: one round up, but in the same round when the schedule
      has just changed. */
  lemma HandoverNext(window: nat, n: nat)
    requires 0 < window && n <= window
    ensures var e, log := Handover(window), FirstLeaders(n);
            if n < window then e.NextRound(log) == n + 1 && e.ScheduleAfter(log)(n + 1) == 0
            else e.NextRound(log) == window && e.ScheduleAfter(log)(window) == 1
  {
    FirstCommits(n);
    PositionAfterWindows(0, n, window);
    var commits := Commits(FirstLeaders(n));
    assert commits[..|commits|] == commits;
  }

  lemma HandoverDecides(window: nat, n: nat)
    requires 0 < window && n <= window
    ensures JustifiedNext(Handover(window), SplitDag(window + 2, true), FirstLeaders(n),
                          if n < window then Commit(At(n + 1, 0)) else Commit(At(window, 1)))
  {
    hide SplitDag;
    hide DirectDecision;
    hide FirstLeaders;
    hide Options.HasLeader;
    hide CommitterFor;
    var e, d, log := Handover(window), SplitDag(window + 2, true), FirstLeaders(n);
    var round, a := if n < window then n + 1 else window, if n < window then 0 else 1;
    HandoverNext(window, n);
    PipelineFits(e.ScheduleAfter(log), round);
    SplitCommits(window + 2, CommitterFor(round), round, a);
    DirectNext(e, d, log, round, a);
  }

  /** A leader that a universe commits directly is justified as the next entry. */
  lemma DirectNext(e: Epoch, d: Dag, log: seq<LeaderStatus>, round: nat, a: nat)
    requires e.window > 0 && Causal(d) && e.NextRound(log) == round && e.ScheduleAfter(log)(round) == a
    requires DirectDecision(e.ctx.committee, CommitterFor(round), d, Slot(round, a)) == Decided(Commit(At(round, a)))
    ensures JustifiedNext(e, d, log, Commit(At(round, a)))
  {
    hide DirectDecision;
    hide Commits;
    hide Causal;
    var x := Commit(At(round, a));
    assert ViewOf(d, d);
    assert DecidedAt(e.ctx.committee, d, e.ScheduleAfter(log), round, [x], 0);
    assert DecidesNext(e, d, log, x, d, [x]);
  }

  lemma {:induction false} FirstLeadersJustified(window: nat, n: nat)
    requires 0 < window && n <= window
    ensures JustifiedLog(Handover(window), SplitDag(window + 2, true), FirstLeaders(n))
    decreases n
  {
    hide JustifiedNext;
    if n > 0 {
      FirstLeadersJustified(window, n - 1);
      HandoverDecides(window, n - 1);
      JustifiedSnoc(Handover(window), SplitDag(window + 2, true), FirstLeaders(n - 1), Commit(At(n, 0)));
    }
  }

  /** For every window, however long: a universe without faulty authorities and a log of it in which
      the commit that fills the window and the next one are of the same round. */
  lemma RoundCommittedTwice(window: nat)
    requires window > 0
    ensures var log := FirstLeaders(window) + [Commit(At(window, 1))];
            && Handover(window).WellFormed() && BftUniverse(Four(), SplitDag(window + 2, true), {})
            && JustifiedLog(Handover(window), SplitDag(window + 2, true), log)
            && log[window - 1] == Commit(At(window, 0)) && log[window] == Commit(At(window, 1))
  {
    hide JustifiedNext;
    hide JustifiedLog;
    FourWellFormed();
    SplitDagIsBft(window + 2, true);
    FirstLeadersJustified(window, window);
    HandoverDecides(window, window);
    JustifiedSnoc(Handover(window), SplitDag(window + 2, true), FirstLeaders(window), Commit(At(window, 1)));
  }
}
