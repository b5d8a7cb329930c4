/** The pipelined committer: one leader per round, decided from the highest round down; the
    longest decided prefix is handed out. */
module UniversalCommitter {
  import opened Committees
  import opened Blocks
  import opened BlockVerifier
  import opened Dags
  import opened CommitRule
  import opened CommitSafety
  import opened RuleMeaning
  import opened BaseCommitter

  /** Which authority leads a round under the current leader schedule. */
  type Schedule = nat -> nat

  /** Core runs one committer per round offset, with one leader each. */
  function Pipeline(): seq<Options> {
    [Options(3, 0, 0), Options(3, 0, 1), Options(3, 0, 2)]
  }

  function CommitterFor(round: nat): Options { Options(3, 0, round % 3) }

  function LeaderSlot(elect: Schedule, round: nat): Slot { Slot(round, elect(round)) }

  /** Statuses of the leaders of the rounds lo, lo + 1, ... */
  ghost predicate DecidedFrom(c: Committee, d: Dag, elect: Schedule, lo: nat, statuses: seq<LeaderStatus>)
    requires Causal(d)
  {
    forall i :: 0 <= i < |statuses| ==> DecidedAt(c, d, elect, lo, statuses, i)
  }

  ghost predicate DecidedAt(c: Committee, d: Dag, elect: Schedule, lo: nat, statuses: seq<LeaderStatus>, i: nat)
    requires Causal(d) && i < |statuses|
  {
    JustifiedAt(c, d, CommitterFor(lo + i), LeaderSlot(elect, lo + i), statuses[i], statuses[i + 1..])
  }

  lemma DecidedCons(c: Committee, d: Dag, elect: Schedule, lo: nat, status: LeaderStatus, later: seq<LeaderStatus>)
    requires Causal(d) && DecidedFrom(c, d, elect, lo + 1, later)
    requires JustifiedAt(c, d, CommitterFor(lo), LeaderSlot(elect, lo), status, later)
    ensures DecidedFrom(c, d, elect, lo, [status] + later)
  {
    var all := [status] + later;
    forall i | 0 <= i < |all| ensures DecidedAt(c, d, elect, lo, all, i) {
      if i == 0 {
        assert all[1..] == later;
      } else {
        assert DecidedAt(c, d, elect, lo + 1, later, i - 1);
        assert all[i + 1..] == later[i..];
      }
    }
  }

  lemma DecidedTail(c: Committee, d: Dag, elect: Schedule, lo: nat, statuses: seq<LeaderStatus>, k: nat)
    requires Causal(d) && DecidedFrom(c, d, elect, lo, statuses) && k <= |statuses|
    ensures DecidedFrom(c, d, elect, lo + k, statuses[k..])
  {
    var tail, start := statuses[k..], lo + k;
    forall i | 0 <= i < |tail| ensures DecidedAt(c, d, elect, start, tail, i) {
      assert DecidedAt(c, d, elect, lo, statuses, k + i);
      assert tail[i + 1..] == statuses[k + i + 1..];
    }
  }

  lemma DecidedNone(c: Committee, d: Dag, elect: Schedule, lo: nat)
    requires Causal(d)
    ensures DecidedFrom(c, d, elect, lo, [])
  {
  }

  lemma DecidedCommits(c: Committee, d: Dag, elect: Schedule, lo: nat, statuses: seq<LeaderStatus>)
    requires Causal(d) && DecidedFrom(c, d, elect, lo, statuses)
    ensures CommitsIn(d, statuses)
    ensures forall i :: 0 <= i < |statuses| ==> statuses[i].AsSlot() == LeaderSlot(elect, lo + i)
  {
    forall i | 0 <= i < |statuses|
      ensures statuses[i].AsSlot() == LeaderSlot(elect, lo + i)
      ensures statuses[i].Commit? ==> statuses[i].block in d
    {
      assert DecidedAt(c, d, elect, lo, statuses, i);
      DecisionKeepsSlot(c, d, CommitterFor(lo + i), LeaderSlot(elect, lo + i), statuses[i], statuses[i + 1..]);
    }
  }

  function DecidedPrefix(statuses: seq<LeaderStatus>): (prefix: seq<LeaderStatus>)
    ensures prefix <= statuses
    ensures forall i :: 0 <= i < |prefix| ==> prefix[i].IsDecided()
    ensures |prefix| < |statuses| ==> !statuses[|prefix|].IsDecided()
  {
    if statuses == [] || !statuses[0].IsDecided() then []
    else [statuses[0]] + DecidedPrefix(statuses[1..])
  }

  /** The first round that is (re)considered after `last`. A round is considered again when the
      schedule now names another leader for it than the one last decided. */
  function FirstRound(elect: Schedule, last: Slot): nat {
    if elect(last.round) == last.authority || last.round == GENESIS_ROUND then last.round + 1 else last.round
  }

  function TopRound(highestAccepted: nat): nat { if highestAccepted < 2 then 0 else highestAccepted - 2 }

  /** Deciding the leader of the round finds two certified blocks in one slot. */
  ghost predicate RulePanicsAt(c: Committee, d: Dag, elect: Schedule, round: nat, later: seq<LeaderStatus>)
    requires Causal(d)
  {
    && DecidedFrom(c, d, elect, round + 1, later)
    && CommitsIn(d, later)
    && (|| DirectDecision(c, CommitterFor(round), d, LeaderSlot(elect, round)).TwoCertifiedBlocks?
        || IndirectDecision(c, CommitterFor(round), d, LeaderSlot(elect, round), later).TwoCertifiedBlocks?)
  }

  /** The fault model excludes those panics. */
  lemma RuleNeverPanics(ctx: Context, u: Dag, byzantine: set<nat>, d: Dag, elect: Schedule, round: nat, later: seq<LeaderStatus>)
    requires BftUniverse(ctx, u, byzantine) && ViewOf(d, u)
    ensures !RulePanicsAt(ctx.committee, d, elect, round, later)
  {
    var slot := LeaderSlot(elect, round);
    var opts := CommitterFor(round);
    DirectNeverPanics(ctx, opts, u, byzantine, d, slot);
    if CommitsIn(d, later) {
      AnchorInDag(opts, slot, d, later);
      if Anchor(opts, slot, later).Some? {
        AnchorNeverPanics(ctx, opts, u, byzantine, d, Anchor(opts, slot, later).value, slot);
      }
    }
  }

  /** Statuses of all leaders from the top round down to `last`, excluded; None stands for a
      panic of the commit rule. */
  method DecideRounds(ctx: Context, d: Dag, elect: Schedule, last: Slot, top: nat)
    returns (leaders: Option<seq<LeaderStatus>>, ghost lo: nat)
    requires ValidDag(ctx, d)
    ensures leaders.Some? ==> DecidedFrom(ctx.committee, d, elect, lo, leaders.value) && lo + |leaders.value| == top + 1
    ensures leaders.Some? && top < last.round ==> lo == top + 1
    ensures leaders.Some? && top >= last.round ==> lo == if elect(last.round) == last.authority then last.round + 1 else last.round
    ensures leaders.None? ==> exists round: nat, later :: RulePanicsAt(ctx.committee, d, elect, round, later)
  {
    var committers := Pipeline();
    var found: seq<LeaderStatus> := [];
    var next := top + 1;
    lo := top + 1;
    label outer: while next > last.round
      invariant lo == next && next + |found| == top + 1 && (next >= last.round || next == top + 1)
      invariant DecidedFrom(ctx.committee, d, elect, lo, found)
      invariant next == last.round && next <= top ==> elect(next) != last.authority
    {
      var round := next - 1;
      for k := 3 downto 0
        invariant lo == if k <= round % 3 then round else round + 1
        invariant lo + |found| == top + 1
        invariant DecidedFrom(ctx.committee, d, elect, lo, found)
        invariant k <= round % 3 ==> LeaderSlot(elect, round) != last
      {
        PipelineCoversRound(3, round, k);
        if committers[k].LeaderRound(committers[k].WaveNumber(round)) == round {
          var slot := LeaderSlot(elect, round);
          if slot == last { break outer; }
          DecidedCommits(ctx.committee, d, elect, round + 1, found);
          var o := TryDirectDecide(ctx, committers[k], d, slot);
          if o == Decided(Undecided(slot)) {
            o := TryIndirectDecide(ctx, committers[k], d, slot, found);
          }
          if o.TwoCertifiedBlocks? {
            assert RulePanicsAt(ctx.committee, d, elect, round, found);
            return None, 0;
          }
          DecidedCons(ctx.committee, d, elect, round, o.status, found);
          found := [o.status] + found;
          lo := round;
        }
      }
      next := round;
    }
    leaders := Some(found);
  }

  /** The longest decided prefix of a list. */
  method TakeDecided(leaders: seq<LeaderStatus>) returns (prefix: seq<LeaderStatus>)
    ensures prefix == DecidedPrefix(leaders)
  {
    hide DecidedPrefix;
    DecidedPrefixNone();
    prefix := [];
    for i := 0 to |leaders|
      invariant DecidedPrefix(leaders) == prefix + DecidedPrefix(leaders[i..])
    {
      DecidedPrefixStep(leaders[i..]);
      assert leaders[i..][1..] == leaders[i + 1..];
      if !leaders[i].IsDecided() {
        assert prefix + [] == prefix;
        return;
      }
      assert prefix + ([leaders[i]] + DecidedPrefix(leaders[i + 1..])) == prefix + [leaders[i]] + DecidedPrefix(leaders[i + 1..]);
      prefix := prefix + [leaders[i]];
    }
  }

  lemma DecidedPrefixNone()
    ensures DecidedPrefix([]) == []
  {
  }

  lemma DecidedPrefixStep(leaders: seq<LeaderStatus>)
    requires leaders != []
    ensures DecidedPrefix(leaders) == if leaders[0].IsDecided() then [leaders[0]] + DecidedPrefix(leaders[1..]) else []
  {
  }

  /** Decides as many leaders as possible after `last`. The decided sequence is the longest decided
      prefix; leaders of the genesis round are passed over. */
  method TryDecide(ctx: Context, d: Dag, elect: Schedule, last: Slot, highestAccepted: nat)
    returns (decided: Option<seq<LeaderStatus>>, ghost statuses: seq<LeaderStatus>)
    requires ValidDag(ctx, d)
    ensures decided.Some? ==>
              && DecidedFrom(ctx.committee, d, elect, FirstRound(elect, last), statuses)
              && FirstRound(elect, last) + |statuses| == Max(FirstRound(elect, last), TopRound(highestAccepted) + 1)
              && decided.value == DecidedPrefix(statuses)
    ensures decided.Some? ==>
              var first := if last.round > 0 && elect(last.round) != last.authority then last.round else last.round + 1;
              && |statuses| == (if first + 2 <= highestAccepted then highestAccepted - 1 - first else 0)
              && forall i :: 0 <= i < |statuses| ==> statuses[i].AsSlot() == Slot(first + i, elect(first + i))
    ensures decided.Some? && (forall r :: r in d ==> r.round <= highestAccepted) ==>
              forall round: nat :: FirstRound(elect, last) <= round && CommitsDirectly(ctx.committee, d, elect, round)
                ==> round < FirstRound(elect, last) + |statuses|
    ensures decided.None? ==> exists round: nat, later :: RulePanicsAt(ctx.committee, d, elect, round, later)
  {
    hide Causal;
    hide ValidEntry;
    hide DecidedFrom;
    hide DecidedPrefix;
    hide RulePanicsAt;
    DecidedNone(ctx.committee, d, elect, FirstRound(elect, last));
    ghost var lo;
    var leaders;
    leaders, lo := DecideRounds(ctx, d, elect, last, TopRound(highestAccepted));
    if leaders.None? { return None, []; }
    DecidedCommits(ctx.committee, d, elect, lo, leaders.value);
    var skip := if |leaders.value| > 0 && leaders.value[0].Round() == GENESIS_ROUND then 1 else 0;
    DecidedTail(ctx.committee, d, elect, lo, leaders.value, skip);
    statuses := leaders.value[skip..];
    assert statuses == [] || lo + skip == FirstRound(elect, last);
    var prefix := TakeDecided(leaders.value[skip..]);
    decided := Some(prefix);
    DecidedCommits(ctx.committee, d, elect, FirstRound(elect, last), statuses);
    NothingAbove(ctx.committee, d, elect, highestAccepted);
  }

  /** The leader of the round is committed by the direct rule. */
  ghost predicate CommitsDirectly(c: Committee, d: Dag, elect: Schedule, round: nat)
    requires Causal(d)
  {
    var o := DirectDecision(c, CommitterFor(round), d, LeaderSlot(elect, round));
    o.Decided? && o.status.Commit?
  }

  /** No leader can be committed directly in the last two rounds. */
  lemma NothingAbove(c: Committee, d: Dag, elect: Schedule, highest: nat)
    requires Causal(d)
    ensures (forall r :: r in d ==> r.round <= highest) ==>
              forall round: nat :: CommitsDirectly(c, d, elect, round) ==> round + 2 <= highest
  {
    hide DirectDecision;
    hide Causal;
    if forall r :: r in d ==> r.round <= highest {
      forall round: nat | CommitsDirectly(c, d, elect, round) ensures round + 2 <= highest {
        PipelineFits(elect, round);
        var x := CommitNeedsWave(c, CommitterFor(round), d, LeaderSlot(elect, round));
        assert x in d;
      }
    }
  }

  lemma PipelineFits(elect: Schedule, round: nat)
    ensures var o := CommitterFor(round);
            o.Valid() && o.waveLength == 3 && o.HasLeader(LeaderSlot(elect, round).round)
  {
    PipelineCoversRound(3, round, round % 3);
  }

  /** How each status comes about: by the direct rule, or else by the indirect one from those after it. */
  lemma StatusExactly(c: Committee, d: Dag, elect: Schedule, lo: nat, statuses: seq<LeaderStatus>, i: nat)
    requires Causal(d) && DecidedFrom(c, d, elect, lo, statuses) && i < |statuses|
    ensures var slot, opts, later := Slot(lo + i, elect(lo + i)), Options(3, 0, (lo + i) % 3), statuses[i + 1..];
            var direct := DirectDecision(c, opts, d, slot);
            && (direct != Decided(Undecided(slot)) ==> Decided(statuses[i]) == direct)
            && (direct == Decided(Undecided(slot)) ==> CommitsIn(d, later) && Decided(statuses[i]) == IndirectDecision(c, opts, d, slot, later))
  {
    hide DirectDecision;
    hide IndirectDecision;
    assert DecidedAt(c, d, elect, lo, statuses, i);
  }
}
