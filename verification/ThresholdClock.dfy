/** The threshold clock: the round to build next, driven by the blocks that have been accepted. */
module ThresholdClocks {
  import opened Committees
  import opened StakeAggregators
  import opened Blocks
  import opened BlockVerifier
  import opened Dags

  /** The round to build, and whose blocks of that round have been counted. */
  datatype Clock = Clock(round: nat, votes: set<nat>)

  const START: Clock := Clock(0, {})

  function Tick(c: Committee, k: Clock, block: BlockRef): Clock {
    if block.round < k.round then k
    else if block.round > k.round then Clock(block.round, {block.author})
    else if c.IsQuorum(k.votes + {block.author}) then Clock(k.round + 1, {})
    else Clock(k.round, k.votes + {block.author})
  }

  function TickAll(c: Committee, k: Clock, blocks: seq<BlockRef>): Clock {
    if blocks == [] then k else Tick(c, TickAll(c, k, blocks[..|blocks| - 1]), blocks[|blocks| - 1])
  }

  class ThresholdClock {
    const committee: Committee
    const aggregator: StakeAggregator
    var round: nat

    ghost predicate Valid()
      reads this, aggregator
    {
      aggregator.Valid(committee) && aggregator.threshold == Quorum
    }

    ghost function Value(): Clock
      reads this, aggregator
    {
      Clock(round, aggregator.votes)
    }

    constructor (committee: Committee, round: nat)
      ensures Valid() && fresh(aggregator) && this.committee == committee && Value() == Clock(round, {})
    {
      this.committee := committee;
      this.round := round;
      aggregator := new StakeAggregator(Quorum, committee);
    }

    method AddBlock(block: BlockRef)
      requires Valid() && committee.IsValidIndex(block.author)
      modifies this, aggregator
      ensures Valid() && Value() == Tick(committee, old(Value()), block)
    {
      if block.round > round {
        aggregator.Clear(committee);
        var _ := aggregator.Add(block.author, committee);
        assert {} + {block.author} == {block.author};
        round := block.round;
      } else if block.round == round {
        var reached := aggregator.Add(block.author, committee);
        if reached {
          aggregator.Clear(committee);
          round := block.round + 1;
        }
      }
    }

    /** The new round when the clock has advanced. */
    method AddBlocks(blocks: seq<BlockRef>) returns (advanced: Option<nat>)
      requires Valid() && forall i :: 0 <= i < |blocks| ==> committee.IsValidIndex(blocks[i].author)
      modifies this, aggregator
      ensures Valid() && Value() == TickAll(committee, old(Value()), blocks)
      ensures advanced == if round > old(round) then Some(round) else None
    {
      var previous := round;
      for i := 0 to |blocks|
        invariant Valid() && Value() == TickAll(committee, old(Value()), blocks[..i])
      {
        AddBlock(blocks[i]);
        assert blocks[..i + 1][..i] == blocks[..i];
      }
      assert blocks[..|blocks|] == blocks;
      advanced := if round > previous then Some(round) else None;
    }
  }

  // ---------------------------------------------------------------- the clock and the DAG

  ghost function AuthorsAt(d: Dag, round: nat): set<nat> {
    set r | r in d && r.round == round :: r.author
  }

  /** The DAG holds a quorum of the round below the one to build. */
  ghost predicate Backed(c: Committee, d: Dag, k: Clock) {
    k.votes <= AuthorsAt(d, k.round) && (k.round > 0 ==> c.IsQuorum(AuthorsAt(d, k.round - 1)))
  }

  lemma BackedGrows(c: Committee, d: Dag, d': Dag, k: Clock)
    requires Backed(c, d, k) && d.Keys <= d'.Keys
    ensures Backed(c, d', k)
  {
    if k.round > 0 { StakeMonotone(c, AuthorsAt(d, k.round - 1), AuthorsAt(d', k.round - 1)); }
  }

  /** A verified block brings its quorum of parents along. */
  lemma ParentsAreQuorum(ctx: Context, d: Dag, r: BlockRef)
    requires ValidDag(ctx, d) && r in d && r.round > 0
    ensures ctx.committee.IsQuorum(AuthorsAt(d, r.round - 1))
  {
    assert CausalEntry(d, r) && ValidEntry(ctx, d, r);
    forall a | a in d[r].ParentAuthors() ensures a in AuthorsAt(d, r.round - 1) {
      var i :| 0 <= i < |d[r].ancestors| && d[r].ancestors[i].round + 1 == r.round && d[r].ancestors[i].author == a;
      assert d[r].ancestors[i] in d;
    }
    StakeMonotone(ctx.committee, d[r].ParentAuthors(), AuthorsAt(d, r.round - 1));
  }

  lemma TickBacked(ctx: Context, d: Dag, k: Clock, r: BlockRef)
    requires ValidDag(ctx, d) && r in d && Backed(ctx.committee, d, k)
    ensures Backed(ctx.committee, d, Tick(ctx.committee, k, r)) && k.round <= Tick(ctx.committee, k, r).round
  {
    hide ValidDag;
    if r.round > k.round { ParentsAreQuorum(ctx, d, r); }
    if r.round == k.round { StakeMonotone(ctx.committee, k.votes + {r.author}, AuthorsAt(d, k.round)); }
  }

  /** Whatever accepted blocks are added, in whatever order, the clock never moves back and the
      round below it always has a quorum in the DAG. */
  lemma {:induction false} ClockIsBacked(ctx: Context, d: Dag, k: Clock, blocks: seq<BlockRef>)
    requires ValidDag(ctx, d) && Backed(ctx.committee, d, k)
    requires forall i :: 0 <= i < |blocks| ==> blocks[i] in d
    ensures Backed(ctx.committee, d, TickAll(ctx.committee, k, blocks)) && k.round <= TickAll(ctx.committee, k, blocks).round
    decreases |blocks|
  {
    if blocks != [] {
      var n := |blocks| - 1;
      ClockIsBacked(ctx, d, k, blocks[..n]);
      TickBacked(ctx, d, TickAll(ctx.committee, k, blocks[..n]), blocks[n]);
    }
  }

  // ---------------------------------------------------------------- order of arrival

  ghost function SeenAt(blocks: seq<BlockRef>, round: nat): set<nat> {
    set i | 0 <= i < |blocks| && blocks[i].round == round :: blocks[i].author
  }

  /** No authority is a quorum by itself. */
  ghost predicate NoSoleQuorum(c: Committee) {
    forall a :: 0 <= a < c.Size() ==> !c.IsQuorum({a})
  }

  /** What the blocks seen say about the clock, without their order. */
  ghost predicate Tracks(c: Committee, blocks: seq<BlockRef>, k: Clock) {
    && (forall i :: 0 <= i < |blocks| ==> blocks[i].round <= k.round)
    && k.votes == SeenAt(blocks, k.round) && !c.IsQuorum(k.votes)
    && (k.round > 0 && k.votes == {} ==> c.IsQuorum(SeenAt(blocks, k.round - 1)))
  }

  ghost predicate KnownAuthors(c: Committee, blocks: seq<BlockRef>) {
    forall i :: 0 <= i < |blocks| ==> c.IsValidIndex(blocks[i].author)
  }

  lemma SeenAtSnoc(blocks: seq<BlockRef>, round: nat)
    requires blocks != []
    ensures var last := blocks[|blocks| - 1];
            SeenAt(blocks, round) == SeenAt(blocks[..|blocks| - 1], round) + if last.round == round then {last.author} else {}
  {
    var n := |blocks| - 1;
    var init := blocks[..n];
    forall a | a in SeenAt(blocks, round) ensures a in SeenAt(init, round) || (blocks[n].round == round && a == blocks[n].author) {
      var i :| 0 <= i < |blocks| && blocks[i].round == round && blocks[i].author == a;
      if i < n { assert init[i] == blocks[i]; }
    }
    forall a | a in SeenAt(init, round) ensures a in SeenAt(blocks, round) {
      var i :| 0 <= i < n && init[i].round == round && init[i].author == a;
      assert blocks[i] == init[i];
    }
  }

  lemma NobodyAbove(blocks: seq<BlockRef>, top: nat, round: nat)
    requires top < round && forall i :: 0 <= i < |blocks| ==> blocks[i].round <= top
    ensures SeenAt(blocks, round) == {}
  {
  }

  lemma {:induction false} ClockTracks(c: Committee, blocks: seq<BlockRef>)
    requires c.WellFormed() && NoSoleQuorum(c) && KnownAuthors(c, blocks)
    ensures Tracks(c, blocks, TickAll(c, START, blocks))
    decreases |blocks|
  {
    if blocks == [] {
      NoEmptyQuorum(c);
      assert SeenAt(blocks, 0) == {};
    } else {
      var n := |blocks| - 1;
      ClockTracks(c, blocks[..n]);
      TickTracks(c, blocks, TickAll(c, START, blocks[..n]));
    }
  }

  lemma TickTracks(c: Committee, blocks: seq<BlockRef>, k: Clock)
    requires c.WellFormed() && NoSoleQuorum(c) && KnownAuthors(c, blocks)
    requires blocks != [] && Tracks(c, blocks[..|blocks| - 1], k)
    ensures Tracks(c, blocks, Tick(c, k, blocks[|blocks| - 1]))
  {
    hide SeenAt;
    var n := |blocks| - 1;
    var init, last := blocks[..n], blocks[n];
    var k' := Tick(c, k, last);
    SeenAtSnoc(blocks, k'.round);
    if k'.round > 0 {
      SeenAtSnoc(blocks, k'.round - 1);
      StakeMonotone(c, SeenAt(init, k'.round - 1), SeenAt(blocks, k'.round - 1));
    }
    NoEmptyQuorum(c);
    assert forall i :: 0 <= i < n ==> blocks[i] == init[i];
    assert forall i :: 0 <= i < n ==> blocks[i].round <= k.round;
    if k'.round > k.round { NobodyAbove(init, k.round, k'.round); }
  }

  lemma NoEmptyQuorum(c: Committee)
    ensures !c.IsQuorum({})
  {
    StakeEmpty(c);
  }

  lemma TracksOnce(c: Committee, xs: seq<BlockRef>, ys: seq<BlockRef>, k: Clock, k': Clock)
    requires Tracks(c, xs, k) && Tracks(c, ys, k') && forall r :: r in xs <==> r in ys
    ensures k'.round <= k.round
  {
    if k.round < k'.round {
      SameSeen(xs, ys, k'.round);
      SameSeen(xs, ys, k'.round - 1);
      NobodyAbove(xs, k.round, k'.round);
      if k.round < k'.round - 1 { NobodyAbove(xs, k.round, k'.round - 1); }
      NoEmptyQuorum(c);
    }
  }

  lemma SameSeen(xs: seq<BlockRef>, ys: seq<BlockRef>, round: nat)
    requires forall r :: r in xs <==> r in ys
    ensures SeenAt(xs, round) == SeenAt(ys, round)
  {
    forall a | a in SeenAt(xs, round) ensures a in SeenAt(ys, round) {
      var i :| 0 <= i < |xs| && xs[i].round == round && xs[i].author == a;
      assert xs[i] in ys;
    }
    forall a | a in SeenAt(ys, round) ensures a in SeenAt(xs, round) {
      var i :| 0 <= i < |ys| && ys[i].round == round && ys[i].author == a;
      assert ys[i] in xs;
    }
  }

  ghost predicate SameClock(c: Committee, xs: seq<BlockRef>, ys: seq<BlockRef>) {
    TickAll(c, START, xs) == TickAll(c, START, ys)
  }

  ghost predicate SameBlocks(c: Committee, xs: seq<BlockRef>, ys: seq<BlockRef>) {
    KnownAuthors(c, xs) && KnownAuthors(c, ys) && forall r :: r in xs <==> r in ys
  }

  /** Without an authority that is a quorum alone, no order of the same blocks makes a difference. */
  lemma OrderIsIrrelevant(c: Committee, xs: seq<BlockRef>, ys: seq<BlockRef>)
    requires c.WellFormed() && NoSoleQuorum(c) && SameBlocks(c, xs, ys)
    ensures SameClock(c, xs, ys)
  {
    ClockTracks(c, xs);
    ClockTracks(c, ys);
    var k, k' := TickAll(c, START, xs), TickAll(c, START, ys);
    TracksOnce(c, xs, ys, k, k');
    TracksOnce(c, ys, xs, k', k);
    SameSeen(xs, ys, k.round);
  }

  // ---------------------------------------------------------------- recovery

  ghost predicate OneRound(blocks: seq<BlockRef>, round: nat) {
    forall i :: 0 <= i < |blocks| ==> blocks[i].round == round
  }

  /** What recovery feeds to the clock: all blocks of the last round of the store with a quorum. */
  ghost predicate LastQuorumOf(c: Committee, stored: Dag, quorum: seq<BlockRef>, round: nat) {
    && OneRound(quorum, round) && c.IsQuorum(SeenAt(quorum, round))
    && (forall r :: r in quorum <==> r in stored && r.round == round)
    && (forall r :: r in stored ==> r.round <= round + 1)
    && !c.IsQuorum(AuthorsAt(stored, round + 1))
  }

  ghost predicate Advancing(c: Committee, blocks: seq<BlockRef>, round: nat, k: Clock) {
    || k == Clock(round + 1, {})
    || (k == Clock(round, SeenAt(blocks, round)) && (|blocks| == 1 || !c.IsQuorum(k.votes)))
  }

  lemma {:induction false} RecoveringClock(c: Committee, blocks: seq<BlockRef>, round: nat)
    requires OneRound(blocks, round) && round > 0 && blocks != []
    ensures Advancing(c, blocks, round, TickAll(c, START, blocks))
    ensures |blocks| == 1 ==> TickAll(c, START, blocks).round == round
    decreases |blocks|
  {
    var n := |blocks| - 1;
    var init := blocks[..n];
    SeenAtSnoc(blocks, round);
    if n == 0 {
      assert SeenAt(init, round) == {};
      assert TickAll(c, START, init) == START;
    } else {
      RecoveringClock(c, init, round);
    }
  }

  /** After a restart the clock is fed the last quorum found in the store. It ends up above that
      round exactly when the quorum is made of more than one block, or is genesis. */
  lemma RecoveredRound(c: Committee, blocks: seq<BlockRef>, round: nat)
    requires OneRound(blocks, round) && c.IsQuorum(SeenAt(blocks, round))
    ensures TickAll(c, START, blocks).round == if round == 0 || |blocks| > 1 then round + 1 else round
  {
    if blocks == [] {
      assert SeenAt(blocks, round) == {};
      NoEmptyQuorum(c);
    }
    if round > 0 {
      RecoveringClock(c, blocks, round);
    } else {
      GenesisClock(c, blocks);
    }
  }

  lemma {:induction false} GenesisClock(c: Committee, blocks: seq<BlockRef>)
    requires OneRound(blocks, 0)
    ensures TickAll(c, START, blocks) == if c.IsQuorum(SeenAt(blocks, 0)) then Clock(1, {}) else Clock(0, SeenAt(blocks, 0))
    decreases |blocks|
  {
    if blocks == [] {
      assert SeenAt(blocks, 0) == {};
      NoEmptyQuorum(c);
    } else {
      var n := |blocks| - 1;
      GenesisClock(c, blocks[..n]);
      SeenAtSnoc(blocks, 0);
      StakeMonotone(c, SeenAt(blocks[..n], 0), SeenAt(blocks, 0));
    }
  }
}
