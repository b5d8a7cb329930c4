/** From single decisions to the committed sequence: the log of decided leaders an authority
    builds while its leader schedule changes every `window` commits, and the theorem that all
    correct authorities build the same log. */
module CommitLog {
  import opened Blocks
  import opened BlockVerifier
  import opened Dags
  import opened CommitRule
  import opened CommitSafety
  import opened UniversalCommitter

  /** The leader schedule in force once the given commits have been scored. Scores and the swap
      table are a function of the committed leaders, whose references fix their sub-dags. */
  type Scheduler = seq<BlockRef> -> Schedule

  /** What all authorities of an epoch share. */
  datatype Epoch = Epoch(ctx: Context, window: nat, scheduler: Scheduler, genesis: Slot) {
    ghost predicate WellFormed() { ctx.WellFormed() && window > 0 && genesis.round == GENESIS_ROUND }

    /** The commits that have been scored when this many have been made: all full windows. */
    function Scored(commits: seq<BlockRef>): seq<BlockRef>
      requires window > 0
    {
      commits[..|commits| - Position(|commits|, window)]
    }

    function ScheduleAfter(log: seq<LeaderStatus>): Schedule
      requires window > 0
    {
      scheduler(Scored(Commits(log)))
    }

    function LastSlot(log: seq<LeaderStatus>): Slot {
      if log == [] then genesis else log[|log| - 1].AsSlot()
    }

    /** Where the next decision after the log is looked for. */
    function NextRound(log: seq<LeaderStatus>): nat
      requires window > 0
    {
      FirstRound(ScheduleAfter(log), LastSlot(log))
    }

    /** Commits still missing to fill the current window. */
    function Room(log: seq<LeaderStatus>): nat
      requires window > 0
    {
      window - Position(|Commits(log)|, window)
    }
  }

  /** How many of n commits lie in the current, not yet full, window. */
  function Position(n: nat, window: nat): (p: nat)
    requires window > 0
    ensures p < window && p <= n
  {
    n % window
  }

  /** One more commit moves on in the window, or fills it. */
  lemma PositionStep(n: nat, window: nat)
    requires window > 0
    ensures Position(n, window) + 1 < window ==> Position(n + 1, window) == Position(n, window) + 1
    ensures Position(n, window) + 1 == window ==> Position(n + 1, window) == 0
  {
    var q, r := n / window, n % window;
    assert n == q * window + r;
    if r + 1 < window {
      Remainder(q, window, r + 1);
    } else {
      assert n + 1 == (q + 1) * window;
      Remainder(q + 1, window, 0);
    }
  }

  lemma PositionAfterWindows(n: nat, k: nat, window: nat)
    requires window > 0 && Position(n, window) == 0
    ensures k < window ==> Position(n + k, window) == k
    ensures k == window ==> Position(n + k, window) == 0
  {
    var q := n / window;
    assert n == q * window;
    if k < window {
      Remainder(q, window, k);
    } else if k == window {
      assert n + k == (q + 1) * window;
      Remainder(q + 1, window, 0);
    }
  }

  function Commits(log: seq<LeaderStatus>): seq<BlockRef> {
    if log == [] then []
    else Commits(log[..|log| - 1]) + if log[|log| - 1].Commit? then [log[|log| - 1].block] else []
  }

  lemma CommitsSnoc(log: seq<LeaderStatus>, x: LeaderStatus)
    ensures Commits(log + [x]) == Commits(log) + if x.Commit? then [x.block] else []
  {
    assert (log + [x])[..|log|] == log;
  }

  lemma {:induction false} CommitsConcat(log: seq<LeaderStatus>, more: seq<LeaderStatus>)
    ensures Commits(log + more) == Commits(log) + Commits(more)
  {
    if more == [] {
      assert log + more == log;
    } else {
      var n := |more| - 1;
      CommitsConcat(log, more[..n]);
      CommitsSnoc(log + more[..n], more[n]);
      assert log + more[..n] + [more[n]] == log + more;
    }
  }

  // ---------------------------------------------------------------- justified logs

  /** x is what some authority decides right after the log: in some view of the universe it is the
      status of the first leader considered under the schedule the log has led to. */
  ghost predicate DecidesNext(e: Epoch, u: Dag, log: seq<LeaderStatus>, x: LeaderStatus,
                              v: Dag, statuses: seq<LeaderStatus>)
    requires e.window > 0
  {
    && ViewOf(v, u)
    && |statuses| > 0 && statuses[0] == x && x.IsDecided()
    && DecidedFrom(e.ctx.committee, v, e.ScheduleAfter(log), e.NextRound(log), statuses)
  }

  ghost predicate JustifiedNext(e: Epoch, u: Dag, log: seq<LeaderStatus>, x: LeaderStatus)
    requires e.window > 0
  {
    exists v, statuses :: DecidesNext(e, u, log, x, v, statuses)
  }

  /** Every entry was decided by somebody, from some view, at its place in the log. */
  ghost predicate JustifiedLog(e: Epoch, u: Dag, log: seq<LeaderStatus>)
    requires e.window > 0
  {
    log != [] ==>
      var n := |log| - 1;
      JustifiedLog(e, u, log[..n]) && JustifiedNext(e, u, log[..n], log[n])
  }

  lemma {:induction false} JustifiedPrefix(e: Epoch, u: Dag, log: seq<LeaderStatus>, n: nat)
    requires e.window > 0 && JustifiedLog(e, u, log) && n <= |log|
    ensures JustifiedLog(e, u, log[..n])
    ensures n < |log| ==> JustifiedNext(e, u, log[..n], log[n])
    decreases |log|
  {
    if n < |log| - 1 {
      JustifiedPrefix(e, u, log[..|log| - 1], n);
      assert log[..|log| - 1][..n] == log[..n];
    } else if n == |log| {
      assert log[..n] == log;
    }
  }

  lemma AgreementFrom(ctx: Context, u: Dag, byzantine: set<nat>, v: Dag, w: Dag, elect: Schedule, lo: nat,
                      s: seq<LeaderStatus>, t: seq<LeaderStatus>)
    requires BftUniverse(ctx, u, byzantine) && ViewOf(v, u) && ViewOf(w, u)
    requires DecidedFrom(ctx.committee, v, elect, lo, s) && DecidedFrom(ctx.committee, w, elect, lo, t)
    requires |s| > 0 && |t| > 0 && s[0].IsDecided() && t[0].IsDecided()
    ensures s[0] == t[0]
  {
    hide BftUniverse;
    hide JustifiedAt;
    hide CommitterFor;
    hide LeaderSlot;
    hide Options.HasLeader;
    var n := if |s| < |t| then |t| else |s|;
    var slots := seq(n, i requires 0 <= i < n => LeaderSlot(elect, lo + i));
    var committers := seq(n, i requires 0 <= i < n => CommitterFor(lo + i));
    forall i | 0 <= i < n
      ensures committers[i].Valid() && committers[i].waveLength == 3 && committers[i].HasLeader(slots[i].round)
    {
      assert committers[i] == CommitterFor(lo + i) && slots[i] == LeaderSlot(elect, lo + i);
      PipelineFits(elect, lo + i);
    }
    forall i | 0 <= i < |s| ensures JustifiedAt(ctx.committee, v, committers[i], slots[i], s[i], s[i + 1..]) {
      assert DecidedAt(ctx.committee, v, elect, lo, s, i);
    }
    forall i | 0 <= i < |t| ensures JustifiedAt(ctx.committee, w, committers[i], slots[i], t[i], t[i + 1..]) {
      assert DecidedAt(ctx.committee, w, elect, lo, t, i);
    }
    Agreement(ctx, u, byzantine, v, w, committers, slots, s, t, 0);
  }

  /** After a given log there is only one decision anybody can take. */
  lemma NextIsUnique(e: Epoch, u: Dag, byzantine: set<nat>, log: seq<LeaderStatus>, x: LeaderStatus, y: LeaderStatus)
    requires e.WellFormed() && BftUniverse(e.ctx, u, byzantine)
    requires JustifiedNext(e, u, log, x) && JustifiedNext(e, u, log, y)
    ensures x == y
  {
    var v, s :| DecidesNext(e, u, log, x, v, s);
    var w, t :| DecidesNext(e, u, log, y, w, t);
    AgreementFrom(e.ctx, u, byzantine, v, w, e.ScheduleAfter(log), e.NextRound(log), s, t);
  }

  /** Total order: of any two logs built by correct authorities, from whatever views and across
      any number of schedule changes, one is a prefix of the other. */
  lemma LogsAgree(e: Epoch, u: Dag, byzantine: set<nat>, k: seq<LeaderStatus>, l: seq<LeaderStatus>)
    requires e.WellFormed() && BftUniverse(e.ctx, u, byzantine)
    requires JustifiedLog(e, u, k) && JustifiedLog(e, u, l)
    ensures k <= l || l <= k
  {
    var n := if |k| < |l| then |k| else |l|;
    LogsAgreeUpTo(e, u, byzantine, k, l, n);
    assert k[..|k|] == k && l[..|l|] == l;
  }

  lemma {:induction false} LogsAgreeUpTo(e: Epoch, u: Dag, byzantine: set<nat>,
                                         k: seq<LeaderStatus>, l: seq<LeaderStatus>, n: nat)
    requires e.WellFormed() && BftUniverse(e.ctx, u, byzantine)
    requires JustifiedLog(e, u, k) && JustifiedLog(e, u, l) && n <= |k| && n <= |l|
    ensures k[..n] == l[..n]
  {
    hide BftUniverse;
    hide JustifiedNext;
    if n > 0 {
      LogsAgreeUpTo(e, u, byzantine, k, l, n - 1);
      var log := k[..n - 1];
      JustifiedPrefix(e, u, k, n - 1);
      JustifiedPrefix(e, u, l, n - 1);
      NextIsUnique(e, u, byzantine, log, k[n - 1], l[n - 1]);
      assert k[..n] == log + [k[n - 1]] && l[..n] == log + [l[n - 1]];
    }
  }

  lemma {:induction false} CommitsOfPrefix(k: seq<LeaderStatus>, l: seq<LeaderStatus>)
    requires k <= l
    ensures Commits(k) <= Commits(l)
  {
    CommitsConcat(k, l[|k|..]);
    assert k + l[|k|..] == l;
  }

  /** Hence no two correct authorities commit different leaders at the same commit index. */
  lemma CommitSequencesAgree(e: Epoch, u: Dag, byzantine: set<nat>, k: seq<LeaderStatus>, l: seq<LeaderStatus>, i: nat)
    requires e.WellFormed() && BftUniverse(e.ctx, u, byzantine)
    requires JustifiedLog(e, u, k) && JustifiedLog(e, u, l)
    requires i < |Commits(k)| && i < |Commits(l)|
    ensures Commits(k)[i] == Commits(l)[i]
  {
    LogsAgree(e, u, byzantine, k, l);
    if k <= l { CommitsOfPrefix(k, l); } else { CommitsOfPrefix(l, k); }
  }

  // ---------------------------------------------------------------- the order of slots

  lemma EntrySlot(e: Epoch, u: Dag, log: seq<LeaderStatus>, i: nat)
    requires e.window > 0 && JustifiedLog(e, u, log) && i < |log|
    ensures log[i].AsSlot() == LeaderSlot(e.ScheduleAfter(log[..i]), e.NextRound(log[..i]))
    ensures log[i].IsDecided()
  {
    JustifiedPrefix(e, u, log, i);
    var v, s :| DecidesNext(e, u, log[..i], log[i], v, s);
    DecidedCommits(e.ctx.committee, v, e.ScheduleAfter(log[..i]), e.NextRound(log[..i]), s);
  }

  /** An entry does not change the schedule unless it is the commit that fills a window. */
  lemma ScheduleWithinWindow(e: Epoch, log: seq<LeaderStatus>, x: LeaderStatus)
    requires e.window > 0 && (!x.Commit? || e.Room(log) > 1)
    ensures e.ScheduleAfter(log + [x]) == e.ScheduleAfter(log)
    ensures x.Commit? ==> e.Room(log + [x]) == e.Room(log) - 1
    ensures !x.Commit? ==> e.Room(log + [x]) == e.Room(log)
  {
    hide Position;
    CommitsSnoc(log, x);
    if x.Commit? {
      PositionStep(|Commits(log)|, e.window);
      assert e.Scored(Commits(log + [x])) == e.Scored(Commits(log));
    } else {
      assert Commits(log + [x]) == Commits(log);
    }
  }

  /** The slots of a log, exactly: within a schedule every decided leader is one round above the
      one before. Just after a schedule change the new schedule may name another leader for the
      round decided last; then, and only then, that round is decided a second time. */
  lemma SlotsAdvance(e: Epoch, u: Dag, log: seq<LeaderStatus>, i: nat)
    requires e.WellFormed() && JustifiedLog(e, u, log) && i + 1 < |log|
    ensures var s, t := log[i].AsSlot(), log[i + 1].AsSlot();
            var elect := e.ScheduleAfter(log[..i + 1]);
            && (t.round == s.round + 1 <==> elect(s.round) == s.authority)
            && (t.round == s.round <==> elect(s.round) != s.authority)
            && t.authority == elect(t.round)
            && t != s
    ensures !log[i].Commit? || e.Room(log[..i]) > 1 ==> log[i + 1].Round() == log[i].Round() + 1
  {
    EntrySlot(e, u, log, i);
    EntrySlot(e, u, log, i + 1);
    assert log[..i + 1] == log[..i] + [log[i]];
    if !log[i].Commit? || e.Room(log[..i]) > 1 {
      ScheduleWithinWindow(e, log[..i], log[i]);
    }
  }

  // ---------------------------------------------------------------- one round of the commit loop

  /** The decided leaders up to and including the commit that fills the window. */
  function Cut(decided: seq<LeaderStatus>, room: nat): (kept: seq<LeaderStatus>)
    ensures kept <= decided
  {
    if decided == [] || room == 0 then []
    else [decided[0]] + Cut(decided[1..], if decided[0].Commit? then room - 1 else room)
  }

  lemma CommitsCons(x: LeaderStatus, rest: seq<LeaderStatus>)
    ensures Commits([x] + rest) == (if x.Commit? then [x.block] else []) + Commits(rest)
  {
    CommitsConcat([x], rest);
    CommitsSnoc([], x);
    assert [] + [x] == [x];
  }

  lemma CutCons(x: LeaderStatus, rest: seq<LeaderStatus>, room: nat)
    requires room > 0
    ensures Cut([x] + rest, room) == [x] + Cut(rest, if x.Commit? then room - 1 else room)
  {
    assert ([x] + rest)[1..] == rest;
  }

  /** Keeping the leaders up to the end of the window is keeping that many commits. */
  lemma {:induction false} CutCommits(decided: seq<LeaderStatus>, room: nat)
    requires room > 0
    ensures |Commits(decided)| < room ==> Cut(decided, room) == decided
    ensures |Commits(decided)| >= room ==> Commits(Cut(decided, room)) == Commits(decided)[..room]
  {
    if decided != [] {
      var x, rest := decided[0], decided[1..];
      assert decided == [x] + rest;
      CommitsCons(x, rest);
      var left := if x.Commit? then room - 1 else room;
      CommitsCons(x, Cut(rest, left));
      CutCons(x, rest, room);
      if left > 0 { CutCommits(rest, left); }
    }
  }

  /** A list that is cut short ends in the last commit it keeps. */
  lemma CutLast(decided: seq<LeaderStatus>, room: nat)
    requires 0 < room <= |Commits(decided)|
    ensures Cut(decided, room) != []
    ensures Cut(decided, room)[|Cut(decided, room)| - 1] == Commit(Commits(decided)[room - 1])
  {
    CutEndsInCommit(decided, room);
    CutCommits(decided, room);
  }

  lemma {:induction false} CutEndsInCommit(decided: seq<LeaderStatus>, room: nat)
    requires 0 < room <= |Commits(decided)|
    ensures Cut(decided, room) != [] && Cut(decided, room)[|Cut(decided, room)| - 1].Commit?
  {
    var x, rest := decided[0], decided[1..];
    assert decided == [x] + rest;
    CommitsCons(x, rest);
    var left := if x.Commit? then room - 1 else room;
    if left > 0 { CutEndsInCommit(rest, left); }
  }

  /** Within a window the next decision is looked for in the next round, under the same schedule. */
  lemma NextWithinWindow(e: Epoch, log: seq<LeaderStatus>, x: LeaderStatus)
    requires e.window > 0 && (!x.Commit? || e.Room(log) > 1)
    requires x.AsSlot() == LeaderSlot(e.ScheduleAfter(log), e.NextRound(log))
    ensures e.ScheduleAfter(log + [x]) == e.ScheduleAfter(log) && e.NextRound(log + [x]) == e.NextRound(log) + 1
    ensures e.Room(log + [x]) == if x.Commit? then e.Room(log) - 1 else e.Room(log)
  {
    ScheduleWithinWindow(e, log, x);
  }

  lemma CutStep(e: Epoch, log: seq<LeaderStatus>, x: LeaderStatus, decided: seq<LeaderStatus>)
    requires e.window > 0
    ensures x.Commit? && e.Room(log) == 1 ==> log + Cut([x] + decided, e.Room(log)) == log + [x]
    ensures !x.Commit? || e.Room(log) > 1 ==>
              log + Cut([x] + decided, e.Room(log))
              == log + [x] + Cut(decided, if x.Commit? then e.Room(log) - 1 else e.Room(log))
  {
    hide Cut;
    hide Commits;
    hide Position;
    CutCons(x, decided, e.Room(log));
    assert Cut(decided, 0) == [] by { CutNothing(decided); }
  }

  lemma CutNothing(decided: seq<LeaderStatus>)
    ensures Cut(decided, 0) == []
  {
  }

  /** The first status extends the log; within the window the others continue from there. */
  lemma StatusesStep(e: Epoch, u: Dag, log: seq<LeaderStatus>, v: Dag, x: LeaderStatus, rest: seq<LeaderStatus>)
    requires e.WellFormed() && ViewOf(v, u) && x.IsDecided()
    requires DecidedFrom(e.ctx.committee, v, e.ScheduleAfter(log), e.NextRound(log), [x] + rest)
    ensures JustifiedNext(e, u, log, x)
    ensures !x.Commit? || e.Room(log) > 1 ==>
              && DecidedFrom(e.ctx.committee, v, e.ScheduleAfter(log + [x]), e.NextRound(log + [x]), rest)
              && e.NextRound(log + [x]) == e.NextRound(log) + 1
              && e.Room(log + [x]) == if x.Commit? then e.Room(log) - 1 else e.Room(log)
  {
    hide DecidedFrom;
    var statuses := [x] + rest;
    assert DecidesNext(e, u, log, x, v, statuses);
    DecidedCommits(e.ctx.committee, v, e.ScheduleAfter(log), e.NextRound(log), statuses);
    DecidedTail(e.ctx.committee, v, e.ScheduleAfter(log), e.NextRound(log), statuses, 1);
    assert statuses[1..] == rest;
    if !x.Commit? || e.Room(log) > 1 { NextWithinWindow(e, log, x); }
  }

  /** Appending decided leaders, up to the commit that fills the window, keeps the log justified. */
  lemma {:induction false} JustifiedAppend(e: Epoch, u: Dag, log: seq<LeaderStatus>, v: Dag, statuses: seq<LeaderStatus>)
    requires e.WellFormed() && JustifiedLog(e, u, log) && ViewOf(v, u)
    requires DecidedFrom(e.ctx.committee, v, e.ScheduleAfter(log), e.NextRound(log), statuses)
    ensures JustifiedLog(e, u, Extend(e, log, DecidedPrefix(statuses)))
    decreases |statuses|
  {
    var decided := DecidedPrefix(statuses);
    if decided == [] {
      assert log + Cut(decided, e.Room(log)) == log;
    } else {
      hide DecidedFrom;
      hide e.Room;
      hide e.ScheduleAfter;
      var x, rest := statuses[0], statuses[1..];
      assert statuses == [x] + rest;
      StatusesStep(e, u, log, v, x, rest);
      JustifiedSnoc(e, u, log, x);
      CutStep(e, log, x, DecidedPrefix(rest));
      if !x.Commit? || e.Room(log) > 1 { JustifiedAppend(e, u, log + [x], v, rest); }
    }
  }

  /** When all decided leaders are skipped, the remaining statuses continue right after them and
      start with an undecided leader. */
  lemma {:induction false} SkipsDrain(e: Epoch, u: Dag, log: seq<LeaderStatus>, v: Dag, statuses: seq<LeaderStatus>)
    requires e.window > 0 && e.WellFormed() && Causal(v) && ViewOf(v, u)
    requires DecidedFrom(e.ctx.committee, v, e.ScheduleAfter(log), e.NextRound(log), statuses)
    requires Commits(DecidedPrefix(statuses)) == []
    ensures var decided := DecidedPrefix(statuses);
            && NothingLeft(e, v, log + decided, statuses[|decided|..])
            && e.NextRound(log + decided) == e.NextRound(log) + |decided|
    decreases |statuses|
  {
    hide *;
    PrefixCons(statuses);
    if DecidedPrefix(statuses) == [] {
      SkipsDrained(e, v, log, statuses);
    } else {
      var x, rest := statuses[0], statuses[1..];
      var skipped := DecidedPrefix(rest);
      CommitsCons(x, skipped);
      StatusesStep(e, u, log, v, x, rest);
      assert !x.Commit?;
      SkipsDrain(e, u, log + [x], v, rest);
      assert log + ([x] + skipped) == log + [x] + skipped;
      assert statuses[|[x] + skipped|..] == rest[|skipped|..];
    }
  }

  lemma PrefixCons(statuses: seq<LeaderStatus>)
    ensures DecidedPrefix(statuses) != [] ==>
              && statuses == [statuses[0]] + statuses[1..] && statuses[0].IsDecided()
              && DecidedPrefix(statuses) == [statuses[0]] + DecidedPrefix(statuses[1..])
  {
  }

  lemma SkipsDrained(e: Epoch, v: Dag, log: seq<LeaderStatus>, statuses: seq<LeaderStatus>)
    requires e.window > 0 && Causal(v) && DecidedPrefix(statuses) == []
    requires DecidedFrom(e.ctx.committee, v, e.ScheduleAfter(log), e.NextRound(log), statuses)
    ensures NothingLeft(e, v, log + [], statuses[0..]) && log + [] == log
  {
    hide DecidedFrom;
    assert log + [] == log && statuses[0..] == statuses;
  }

  /** In the view the first leader considered after the log is undecided (or not there yet). */
  ghost predicate NothingLeft(e: Epoch, v: Dag, log: seq<LeaderStatus>, rest: seq<LeaderStatus>)
    requires e.window > 0 && Causal(v)
  {
    && DecidedFrom(e.ctx.committee, v, e.ScheduleAfter(log), e.NextRound(log), rest)
    && DecidedPrefix(rest) == []
  }

  /** After a commit that does not fill its window, or a skip, the schedule in force is the one
      the last leader was elected under. */
  lemma LastUnderSchedule(e: Epoch, u: Dag, log: seq<LeaderStatus>)
    requires e.WellFormed() && JustifiedLog(e, u, log) && Position(|Commits(log)|, e.window) != 0
    ensures e.ScheduleAfter(log)(e.LastSlot(log).round) == e.LastSlot(log).authority
  {
    hide JustifiedLog;
    hide JustifiedNext;
    hide Position;
    var n := |log| - 1;
    var before, x := log[..n], log[n];
    EntrySlot(e, u, log, n);
    assert log == before + [x];
    if !x.Commit? || e.Room(before) > 1 {
      ScheduleWithinWindow(e, before, x);
    } else {
      CommitsSnoc(before, x);
      PositionStep(|Commits(before)|, e.window);
    }
  }

  /** The log after one round of the commit loop. */
  function Extend(e: Epoch, log: seq<LeaderStatus>, decided: seq<LeaderStatus>): seq<LeaderStatus>
    requires e.window > 0
  {
    log + Cut(decided, e.Room(log))
  }

  /** Truncating the commits to the window and taking the last of them, as the loop does, is
      what cutting the decided leaders amounts to. */
  lemma ExtendCommits(e: Epoch, log: seq<LeaderStatus>, decided: seq<LeaderStatus>)
    requires e.window > 0
    ensures var log', leaders, room := Extend(e, log, decided), Commits(decided), e.Room(log);
            && log <= log'
            && (|leaders| >= room ==>
                  Commits(log') == Commits(log) + leaders[..room] && e.LastSlot(log') == leaders[room - 1].AsSlot())
            && (|leaders| < room ==>
                  && Commits(log') == Commits(log) + leaders && log' == log + decided
                  && e.LastSlot(log') == if decided == [] then e.LastSlot(log) else decided[|decided| - 1].AsSlot())
  {
    hide Cut;
    hide Commits;
    hide e.Room;
    var room := e.Room(log);
    assert room > 0 by { RoomPositive(e, log); }
    var kept := Cut(decided, room);
    CommitsConcat(log, kept);
    CutCommits(decided, room);
    if |Commits(decided)| >= room {
      CutLast(decided, room);
    } else if decided != [] {
      assert (log + decided)[|log + decided| - 1] == decided[|decided| - 1];
    } else {
      assert log + decided == log;
    }
  }

  lemma RoomPositive(e: Epoch, log: seq<LeaderStatus>)
    requires e.window > 0
    ensures 0 < e.Room(log) <= e.window
  {
  }

  /** One round of the loop ends on the leader of a considered round, of the schedule in force,
      and commits at most one leader per round it has moved over. */
  lemma ExtendSlots(e: Epoch, log: seq<LeaderStatus>, v: Dag, statuses: seq<LeaderStatus>)
    requires e.window > 0 && Causal(v)
    requires DecidedFrom(e.ctx.committee, v, e.ScheduleAfter(log), e.NextRound(log), statuses)
    requires Extend(e, log, DecidedPrefix(statuses)) != log
    ensures var log' := Extend(e, log, DecidedPrefix(statuses));
            var last := e.LastSlot(log');
            && e.NextRound(log) <= last.round < e.NextRound(log) + |statuses|
            && last == LeaderSlot(e.ScheduleAfter(log), last.round)
            && |Commits(log')| <= |Commits(log)| + last.round - e.NextRound(log) + 1
  {
    hide DecidedFrom;
    hide Cut;
    hide DecidedPrefix;
    hide e.ScheduleAfter;
    hide e.Room;
    var kept := Cut(DecidedPrefix(statuses), e.Room(log));
    DecidedCommits(e.ctx.committee, v, e.ScheduleAfter(log), e.NextRound(log), statuses);
    assert kept == [] ==> log + kept == log;
    var n := |kept| - 1;
    assert kept[n] == statuses[n] && (log + kept)[|log| + n] == kept[n];
    CommitsConcat(log, kept);
    FewCommits(kept);
  }

  /** One round of the loop moves to a later round, unless the schedule has just changed and names
      another leader for the round decided last; that leader is then the only one committed. */
  lemma ExtendAdvances(e: Epoch, u: Dag, log: seq<LeaderStatus>, v: Dag, statuses: seq<LeaderStatus>)
    requires e.WellFormed() && JustifiedLog(e, u, log) && Causal(v)
    requires DecidedFrom(e.ctx.committee, v, e.ScheduleAfter(log), e.NextRound(log), statuses)
    requires Extend(e, log, DecidedPrefix(statuses)) != log
    ensures var log' := Extend(e, log, DecidedPrefix(statuses));
            var before, after := e.LastSlot(log), e.LastSlot(log');
            && e.ScheduleAfter(log)(after.round) == after.authority
            && after.round < e.NextRound(log) + |statuses|
            && (|| before.round < after.round
                || (&& before.round == after.round
                    && e.ScheduleAfter(log)(before.round) != before.authority
                    && Position(|Commits(log)|, e.window) == 0
                    && |Commits(log')| <= |Commits(log)| + 1))
  {
    hide DecidedFrom;
    hide JustifiedLog;
    hide Extend;
    hide DecidedPrefix;
    hide Commits;
    hide e.ScheduleAfter;
    ExtendSlots(e, log, v, statuses);
    if Position(|Commits(log)|, e.window) != 0 { LastUnderSchedule(e, u, log); }
  }

  lemma {:induction false} FewCommits(log: seq<LeaderStatus>)
    ensures |Commits(log)| <= |log|
  {
    if log != [] { FewCommits(log[..|log| - 1]); }
  }

  lemma JustifiedSnoc(e: Epoch, u: Dag, log: seq<LeaderStatus>, x: LeaderStatus)
    requires e.window > 0 && JustifiedLog(e, u, log) && JustifiedNext(e, u, log, x)
    ensures JustifiedLog(e, u, log + [x])
  {
    assert (log + [x])[..|log|] == log;
  }
}
