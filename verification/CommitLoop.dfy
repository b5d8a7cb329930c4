/** The commit loop of Core with a leader schedule that changes after every full window. */
module CommitLoop {
  import opened Blocks
  import opened Dags
  import opened CommitRule
  import opened UniversalCommitter
  import opened CommitLog

  /** Commit indices a swap table was computed from; end exclusive, empty for the default table. */
  datatype CommitRange = CommitRange(start: nat, end: nat) {
    predicate IsNextRange(other: CommitRange) {
      end - start == other.end - other.start && end == other.start
    }
  }

  class Committer {
    const epoch: Epoch
    ghost const universe: Dag
    ghost const byzantine: set<nat>

    var lastDecided: Slot
    var commits: seq<BlockRef>      // leaders committed so far; commit index i + 1 is commits[i]
    var unscored: seq<BlockRef>     // commits not yet used for scoring
    var scored: seq<BlockRef>       // commits the current schedule is computed from
    var tableRange: CommitRange
    ghost var log: seq<LeaderStatus>

    ghost predicate Valid()
      reads this
    {
      && epoch.WellFormed()
      && BftUniverse(epoch.ctx, universe, byzantine)
      && JustifiedLog(epoch, universe, log)
      && commits == Commits(log) && lastDecided == epoch.LastSlot(log)
      && commits == scored + unscored
      && |unscored| <= epoch.window && Position(|scored|, epoch.window) == 0
      && (|scored| > 0 ==> |scored| >= epoch.window)
      && tableRange == RangeOf(epoch.window, |scored|)
    }

    constructor (epoch: Epoch, ghost universe: Dag, ghost byzantine: set<nat>)
      requires epoch.WellFormed() && BftUniverse(epoch.ctx, universe, byzantine)
      ensures Valid() && log == [] && this.epoch == epoch && this.universe == universe
    {
      this.epoch, this.universe, this.byzantine := epoch, universe, byzantine;
      lastDecided, commits, unscored, scored := epoch.genesis, [], [], [];
      tableRange := CommitRange(0, 0);
      log := [];
    }

    function CommitsUntilUpdate(): nat
      requires |unscored| <= epoch.window
      reads this
    {
      epoch.window - |unscored|
    }

    /** Installs the schedule scored on the full window. The new range directly follows the old
        one and has the same length. */
    method UpdateSchedule()
      requires Valid() && |unscored| == epoch.window
      modifies this`scored, this`unscored, this`tableRange
      ensures Valid() && unscored == [] && scored == commits
      ensures tableRange.start == |old(scored)| + 1 && tableRange.end == |commits| + 1
      ensures old(tableRange) == CommitRange(0, 0) || old(tableRange).IsNextRange(tableRange)
    {
      hide BftUniverse;
      hide JustifiedLog;
      hide Commits;
      hide Position;
      var first, last := |scored| + 1, |scored| + |unscored|;
      PositionAfterWindows(|scored|, |unscored|, epoch.window);
      var newRange := CommitRange(first, last + 1);
      if tableRange != CommitRange(0, 0) {
        assert tableRange.IsNextRange(newRange);
      }
      tableRange := newRange;
      scored, unscored := scored + unscored, [];
    }

    /** The schedule in force is the one the log determines, and so is the room in the window. */
    lemma ScheduleInForce()
      requires Valid() && |unscored| < epoch.window
      ensures epoch.scheduler(scored) == epoch.ScheduleAfter(log) && Position(|Commits(log)|, epoch.window) == |unscored|
      ensures CommitsUntilUpdate() == epoch.Room(log)
    {
      PositionAfterWindows(|scored|, |unscored|, epoch.window);
      assert commits[..|scored|] == scored;
    }

    /** The round last decided may have to be decided again: a schedule change is due, or the
        schedule names another leader for it. */
    ghost predicate RoundPending()
      reads this
    {
      |unscored| == epoch.window || epoch.scheduler(scored)(lastDecided.round) != lastDecided.authority
    }

    /** Makes sure a schedule with room in its window is in force. */
    method RefreshSchedule() returns (room: nat)
      requires Valid()
      modifies this`scored, this`unscored, this`tableRange
      ensures Valid() && |unscored| < epoch.window && room == CommitsUntilUpdate()
      ensures (scored == old(scored) && unscored == old(unscored)) || old(RoundPending())
    {
      room := CommitsUntilUpdate();
      if room == 0 {
        UpdateSchedule();
        room := CommitsUntilUpdate();
      }
    }

    /** Sequences the committed leaders that fit into the window and moves `lastDecided`. */
    method Record(ghost d: Dag, decided: seq<LeaderStatus>, ghost statuses: seq<LeaderStatus>, room: nat)
      returns (sequenced: seq<BlockRef>)
      requires Valid() && ViewOf(d, universe) && |unscored| < epoch.window && room == CommitsUntilUpdate()
      requires DecidedFrom(epoch.ctx.committee, d, epoch.ScheduleAfter(log), epoch.NextRound(log), statuses)
      requires decided == DecidedPrefix(statuses)
      modifies this`log, this`lastDecided, this`commits, this`unscored
      ensures Valid() && log == Extend(epoch, old(log), decided) && old(log) <= log
      ensures commits == old(commits) + sequenced && unscored == old(unscored) + sequenced
      ensures sequenced == [] ==> Commits(decided) == [] && log == old(log) + decided
    {
      hide DecidedFrom;
      hide DecidedPrefix;
      hide JustifiedLog;
      hide Extend;
      hide Commits;
      hide epoch.Room;
      hide epoch.ScheduleAfter;
      hide BftUniverse;
      ScheduleInForce();
      var leaders := CommitsOf(decided);
      JustifiedAppend(epoch, universe, log, d, statuses);
      ExtendCommits(epoch, log, decided);
      if |leaders| >= room {
        sequenced := leaders[..room];
        lastDecided := sequenced[|sequenced| - 1].AsSlot();
      } else {
        sequenced := leaders;
        if |decided| > 0 { lastDecided := decided[|decided| - 1].AsSlot(); }
      }
      log := Extend(epoch, log, decided);
      commits, unscored := commits + sequenced, unscored + sequenced;
      assert commits == scored + unscored;
    }

    /** One round of the loop; `done` when there is nothing left to commit. */
    method CommitOnce(d: Dag, highestAccepted: nat)
      returns (done: bool, sequenced: seq<BlockRef>, ghost rest: seq<LeaderStatus>)
      requires Valid() && ViewOf(d, universe)
      modifies this
      ensures Valid() && old(log) <= log && commits == old(commits) + sequenced
      ensures done ==> sequenced == [] && |unscored| < epoch.window && NothingLeft(epoch, d, log, rest)
                       && epoch.NextRound(log) + |rest| > TopRound(highestAccepted)
                       && epoch.NextRound(log) + |rest| + 1 >= highestAccepted
      ensures !done ==> sequenced != [] && lastDecided.round <= TopRound(highestAccepted)
      ensures !done && epoch.window >= 2 ==>
                        || lastDecided.round > old(lastDecided).round
                        || (lastDecided.round == old(lastDecided).round && old(RoundPending()) && !RoundPending())
    {
      var room := RefreshSchedule();
      ScheduleInForce();
      ViewIsValid(epoch.ctx, d, universe);
      ghost var statuses;
      var decided;
      decided, statuses := TryDecide(epoch.ctx, d, epoch.scheduler(scored), lastDecided, highestAccepted);
      if decided.None? {
        NoPanic(d);
        assert false;
      }
      hide DecidedFrom;
      hide DecidedPrefix;
      hide JustifiedLog;
      hide NothingLeft;
      hide Extend;
      hide Commits;
      hide epoch.ScheduleAfter;
      hide BftUniverse;
      ghost var before, unscoredBefore := log, unscored;
      sequenced := Record(d, decided.value, statuses, room);
      done := |sequenced| == 0;
      if done {
        SkipsDrain(epoch, universe, before, d, statuses);
        rest := statuses[|decided.value|..];
      } else {
        rest := [];
        ExtendAdvances(epoch, universe, before, d, statuses);
        assert lastDecided.round == old(lastDecided).round ==> |unscoredBefore| == 0 && |unscored| <= 1;
      }
    }

    lemma NoPanic(d: Dag)
      requires Valid() && ViewOf(d, universe)
      ensures forall r: nat, l :: !RulePanicsAt(epoch.ctx.committee, d, epoch.scheduler(scored), r, l)
    {
      forall r: nat, l ensures !RulePanicsAt(epoch.ctx.committee, d, epoch.scheduler(scored), r, l) {
        RuleNeverPanics(epoch.ctx, universe, byzantine, d, epoch.scheduler(scored), r, l);
      }
    }

    /** Commits everything the view allows; terminates although a schedule change may send the
        loop back to the round it has just decided. With a window of one commit it might not. */
    method TryCommit(d: Dag, highestAccepted: nat) returns (committed: seq<BlockRef>, ghost rest: seq<LeaderStatus>)
      requires Valid() && ViewOf(d, universe) && epoch.window >= 2
      modifies this
      ensures Valid() && old(log) <= log && commits == old(commits) + committed
      ensures |unscored| < epoch.window && NothingLeft(epoch, d, log, rest)
      ensures rest != [] ==> rest[0] == Undecided(LeaderSlot(epoch.ScheduleAfter(log), epoch.NextRound(log)))
      ensures epoch.NextRound(log) + |rest| + 1 >= highestAccepted
      ensures (forall r :: r in d ==> r.round <= highestAccepted) ==>
                forall round: nat :: epoch.NextRound(log) <= round && CommitsDirectly(epoch.ctx.committee, d, epoch.ScheduleAfter(log), round)
                  ==> round < epoch.NextRound(log) + |rest|
    {
      hide NothingLeft;
      hide RoundPending;
      hide BftUniverse;
      hide JustifiedLog;
      hide Commits;
      hide Position;
      committed := [];
      ghost var top := TopRound(highestAccepted);
      var done := false;
      rest := [];
      while !done
        invariant Valid() && old(log) <= log && commits == old(commits) + committed
        invariant done ==> |unscored| < epoch.window && NothingLeft(epoch, d, log, rest)
                           && epoch.NextRound(log) + |rest| + 1 >= highestAccepted
        decreases !done, if lastDecided.round <= top then top + 1 - lastDecided.round else 0, RoundPending()
      {
        var sequenced;
        done, sequenced, rest := CommitOnce(d, highestAccepted);
        committed := committed + sequenced;
      }
      FirstIsUndecided(epoch, d, log, rest);
      NothingAbove(epoch.ctx.committee, d, epoch.ScheduleAfter(log), highestAccepted);
    }

    /** A crash and restart from storage. Decided but uncommitted leaders are forgotten: deciding
        resumes after the last commit. A schedule installed since the last write is recomputed. */
    method Restart(tableLost: bool)
      requires Valid() && (tableLost ==> unscored == [] && scored != [])
      modifies this
      ensures Valid() && commits == old(commits) && log <= old(log)
    {
      hide BftUniverse;
      hide JustifiedNext;
      hide JustifiedLog;
      hide Commits;
      hide Position;
      hide LastCommit;
      ghost var n := LastCommit(log);
      JustifiedPrefix(epoch, universe, log, n);
      log := log[..n];
      lastDecided := if commits == [] then epoch.genesis else commits[|commits| - 1].AsSlot();
      if tableLost {
        var cut := |scored| - epoch.window;
        PositionBack(|scored|, epoch.window);
        assert scored == scored[..cut] + scored[cut..];
        scored, unscored := scored[..cut], scored[cut..];
        tableRange := RangeOf(epoch.window, cut);
      }
    }

    method CommitsOf(decided: seq<LeaderStatus>) returns (leaders: seq<BlockRef>)
      ensures leaders == Commits(decided)
    {
      leaders := [];
      for i := 0 to |decided|
        invariant leaders == Commits(decided[..i])
      {
        assert decided[..i + 1] == decided[..i] + [decided[i]];
        CommitsSnoc(decided[..i], decided[i]);
        if decided[i].Commit? { leaders := leaders + [decided[i].block]; }
      }
      assert decided[..|decided|] == decided;
    }
  }

  lemma FirstIsUndecided(e: Epoch, d: Dag, log: seq<LeaderStatus>, rest: seq<LeaderStatus>)
    requires e.window > 0 && Causal(d) && NothingLeft(e, d, log, rest)
    ensures rest != [] ==> rest[0] == Undecided(LeaderSlot(e.ScheduleAfter(log), e.NextRound(log)))
  {
    DecidedCommits(e.ctx.committee, d, e.ScheduleAfter(log), e.NextRound(log), rest);
  }

  lemma PositionBack(n: nat, window: nat)
    requires window > 0 && n >= window && Position(n, window) == 0
    ensures Position(n - window, window) == 0 && (n - window > 0 ==> n - window >= window)
  {
    var q := n / window;
    assert n == q * window;
    assert n - window == (q - 1) * window;
    Remainder(q - 1, window, 0);
  }

  /** Length of the log up to and including its last commit. */
  ghost function LastCommit(log: seq<LeaderStatus>): (n: nat)
    ensures n <= |log| && Commits(log[..n]) == Commits(log)
    ensures n == 0 <==> Commits(log) == []
    ensures n > 0 ==> log[n - 1] == Commit(Commits(log)[|Commits(log)| - 1])
  {
    if log == [] then 0
    else if log[|log| - 1].Commit? then (assert log[..|log|] == log; |log|)
    else
      var n := LastCommit(log[..|log| - 1]);
      assert log[..|log| - 1][..n] == log[..n];
      n
  }

  /** Two authorities of one epoch never commit different leaders at one commit index. */
  lemma CommittersAgree(a: Committer, b: Committer)
    requires a.Valid() && b.Valid() && a.epoch == b.epoch && a.universe == b.universe
    ensures a.commits <= b.commits || b.commits <= a.commits
  {
    hide BftUniverse;
    LogsAgree(a.epoch, a.universe, a.byzantine, a.log, b.log);
    if a.log <= b.log { CommitsOfPrefix(a.log, b.log); } else { CommitsOfPrefix(b.log, a.log); }
  }

  function RangeOf(window: nat, scored: nat): CommitRange
    requires scored == 0 || scored >= window
  {
    if scored == 0 then CommitRange(0, 0) else CommitRange(scored - window + 1, scored + 1)
  }
}
